/** The monitor's per-worker health machine and its poll loop. */
module Health {
  import opened Options
  import opened Words

  const RUNNING: Word := 1
  const IDLE: Word := 2
  const CRASHED: Word := 4
  const OVERRUN: Word := 16
  const WORKERS: nat := 3

  predicate HasFlag(status: Word, flag: Word) {
    And(status, flag) != 0
  }

  datatype AlertKind = WorkerCrashed | WorkerStalled | WorkerRecovered | WorkerOverrun | WorkerIdle | WorkerRunning

  datatype HealthState = Unknown | Running | Stalled | Crashed | Idle

  datatype Config = Config(stallThreshold: nat, handoffGrace: nat)

  datatype Observation = Observation(status: Word, ringTail: Word, processAlive: bool, ringEpoch: Word) {
    predicate CrashPoll() {
      !processAlive && (HasFlag(status, RUNNING) || HasFlag(status, CRASHED))
    }

    predicate LivePoll() {
      !CrashPoll() && HasFlag(status, RUNNING)
    }

    predicate IdlePoll() {
      !CrashPoll() && !HasFlag(status, RUNNING) && HasFlag(status, IDLE)
    }
  }

  /** What the machine carries between polls. */
  datatype Track = Track(
    state: HealthState,
    lastAdvance: int,
    lastTail: Word,
    runningAnnounced: bool,
    idleAnnounced: bool,
    stalledAlerted: bool,
    crashAlerted: bool,
    overrunReported: bool,
    episodeEpoch: Word,
    awaitingFirstCommit: bool)

  function NewTrack(): Track {
    Track(Unknown, 0, 0, false, false, false, false, false, 0, false)
  }

  function Bound(cfg: Config, awaitingFirstCommit: bool): nat {
    if awaitingFirstCommit then cfg.handoffGrace else cfg.stallThreshold
  }

  datatype Observed = Observed(track: Track, alert: Option<AlertKind>)

  /** Live, in an announced episode, after the epoch has been looked at: recovery, stall, then the overrun edge. */
  function Progress(k: Track, cfg: Config, obs: Observation, now: int): Observed {
    if obs.ringTail != k.lastTail && k.stalledAlerted then
      Observed(k.(lastTail := obs.ringTail, lastAdvance := now, awaitingFirstCommit := false,
                  stalledAlerted := false, state := Running), Some(WorkerRecovered))
    else if obs.ringTail == k.lastTail && !k.stalledAlerted
            && now - k.lastAdvance > Bound(cfg, k.awaitingFirstCommit) then
      Observed(k.(stalledAlerted := true, state := Stalled), Some(WorkerStalled))
    else
      var moved := if obs.ringTail == k.lastTail then k
                   else k.(lastTail := obs.ringTail, lastAdvance := now, awaitingFirstCommit := false);
      var overrun := HasFlag(obs.status, OVERRUN);
      Observed(moved.(overrunReported := overrun),
               if overrun && !k.overrunReported then Some(WorkerOverrun) else None)
  }

  /** One poll. */
  function Next(k: Track, cfg: Config, obs: Observation, now: int): Observed {
    if obs.CrashPoll() then
      var k1 := k.(stalledAlerted := false, awaitingFirstCommit := true);
      if k.crashAlerted then Observed(k1, None)
      else Observed(k1.(crashAlerted := true, runningAnnounced := false, overrunReported := false, state := Crashed),
                    Some(WorkerCrashed))
    else
      var k1 := k.(crashAlerted := false);
      if !HasFlag(obs.status, RUNNING) then
        if HasFlag(obs.status, IDLE) && !k1.idleAnnounced then
          Observed(k1.(idleAnnounced := true, runningAnnounced := false, stalledAlerted := false, state := Idle),
                   Some(WorkerIdle))
        else Observed(k1, None)
      else if !k1.runningAnnounced then
        Observed(k1.(runningAnnounced := true, idleAnnounced := false, stalledAlerted := false, lastAdvance := now,
                     lastTail := obs.ringTail, episodeEpoch := obs.ringEpoch, awaitingFirstCommit := true,
                     state := Running),
                 Some(WorkerRunning))
      else if obs.ringEpoch != k1.episodeEpoch then
        Progress(k1.(episodeEpoch := obs.ringEpoch, awaitingFirstCommit := true, lastTail := obs.ringTail,
                     lastAdvance := now, stalledAlerted := false), cfg, obs, now)
      else Progress(k1, cfg, obs, now)
  }

  class WorkerTrack {
    var state: HealthState
    var lastAdvance: int
    var lastTail: Word
    var runningAnnounced: bool
    var idleAnnounced: bool
    var stalledAlerted: bool
    var crashAlerted: bool
    var overrunReported: bool
    var episodeEpoch: Word
    var awaitingFirstCommit: bool

    function View(): Track
      reads this
    {
      Track(state, lastAdvance, lastTail, runningAnnounced, idleAnnounced, stalledAlerted, crashAlerted,
            overrunReported, episodeEpoch, awaitingFirstCommit)
    }

    constructor ()
      ensures View() == NewTrack()
    {
      state, lastAdvance, lastTail, runningAnnounced, idleAnnounced := Unknown, 0, 0, false, false;
      stalledAlerted, crashAlerted, overrunReported, episodeEpoch, awaitingFirstCommit := false, false, false, 0, false;
    }

    /** Advances the track by one observation. */
    method ObserveWorker(cfg: Config, obs: Observation, now: int) returns (alert: Option<AlertKind>)
      modifies this
      ensures Observed(View(), alert) == Next(old(View()), cfg, obs, now)
    {
      var running := HasFlag(obs.status, RUNNING);
      var crashedBit := HasFlag(obs.status, CRASHED);
      var idle := HasFlag(obs.status, IDLE);
      if !obs.processAlive && (running || crashedBit) {
        stalledAlerted := false;
        awaitingFirstCommit := true;
        if !crashAlerted {
          crashAlerted := true;
          runningAnnounced := false;
          overrunReported := false;
          state := Crashed;
          return Some(WorkerCrashed);
        }
        return None;
      }
      if crashAlerted {
        crashAlerted := false;
      }
      if !running {
        if idle && !idleAnnounced {
          idleAnnounced := true;
          runningAnnounced := false;
          stalledAlerted := false;
          state := Idle;
          return Some(WorkerIdle);
        }
        return None;
      }
      if !runningAnnounced {
        runningAnnounced := true;
        idleAnnounced := false;
        stalledAlerted := false;
        lastAdvance := now;
        lastTail := obs.ringTail;
        episodeEpoch := obs.ringEpoch;
        awaitingFirstCommit := true;
        state := Running;
        return Some(WorkerRunning);
      }
      if obs.ringEpoch != episodeEpoch {
        episodeEpoch := obs.ringEpoch;
        awaitingFirstCommit := true;
        lastTail := obs.ringTail;
        lastAdvance := now;
        stalledAlerted := false;
      }
      if obs.ringTail != lastTail {
        lastTail := obs.ringTail;
        lastAdvance := now;
        awaitingFirstCommit := false;
        if stalledAlerted {
          stalledAlerted := false;
          state := Running;
          return Some(WorkerRecovered);
        }
      } else if !stalledAlerted && now - lastAdvance > Bound(cfg, awaitingFirstCommit) {
        stalledAlerted := true;
        state := Stalled;
        return Some(WorkerStalled);
      }
      if HasFlag(obs.status, OVERRUN) {
        if !overrunReported {
          overrunReported := true;
          return Some(WorkerOverrun);
        }
      } else {
        overrunReported := false;
      }
      return None;
    }
  }

  // ----- the poll loop -----

  datatype Poll = Poll(obs: Observation, now: int)

  /** The machine after a sequence of polls, and the alert of each. */
  function After(cfg: Config, polls: seq<Poll>): Track {
    if polls == [] then NewTrack()
    else Next(After(cfg, polls[..|polls| - 1]), cfg, polls[|polls| - 1].obs, polls[|polls| - 1].now).track
  }

  function AlertAt(cfg: Config, polls: seq<Poll>, i: nat): Option<AlertKind>
    requires i < |polls|
  {
    Next(After(cfg, polls[..i]), cfg, polls[i].obs, polls[i].now).alert
  }

  /** One poll of the loop: every worker's observation, at one time. */
  datatype Sweep = Sweep(obs: seq<Observation>, now: int)

  predicate WellFormed(sweeps: seq<Sweep>) {
    forall s | s in sweeps :: |s.obs| == WORKERS
  }

  /** Worker w's polls. */
  function PollsOf(sweeps: seq<Sweep>, w: nat): (p: seq<Poll>)
    requires WellFormed(sweeps) && w < WORKERS
    ensures |p| == |sweeps| && forall i | 0 <= i < |p| :: p[i] == Poll(sweeps[i].obs[w], sweeps[i].now)
  {
    seq(|sweeps|, i requires 0 <= i < |sweeps| => Poll(sweeps[i].obs[w], sweeps[i].now))
  }

  datatype Alert = Alert(worker: nat, kind: AlertKind)

  /** The alerts of the first w workers at one sweep, in worker order. */
  function SweepAlerts(cfg: Config, sweeps: seq<Sweep>, i: nat, w: nat): seq<Alert>
    requires WellFormed(sweeps) && i < |sweeps| && w <= WORKERS
    decreases w
  {
    if w == 0 then []
    else
      var a := AlertAt(cfg, PollsOf(sweeps, w - 1), i);
      SweepAlerts(cfg, sweeps, i, w - 1) + (if a.Some? then [Alert(w - 1, a.value)] else [])
  }

  /** Everything the first n sweeps emit. */
  function Emitted(cfg: Config, sweeps: seq<Sweep>, n: nat): seq<Alert>
    requires WellFormed(sweeps) && n <= |sweeps|
    decreases n
  {
    if n == 0 then [] else Emitted(cfg, sweeps, n - 1) + SweepAlerts(cfg, sweeps, n - 1, WORKERS)
  }

  function CountKind(alerts: seq<Alert>, kind: AlertKind): nat {
    if alerts == [] then 0
    else CountKind(alerts[..|alerts| - 1], kind) + (if alerts[|alerts| - 1].kind == kind then 1 else 0)
  }

  lemma {:induction false} CountAppend(a: seq<Alert>, b: seq<Alert>, kind: AlertKind)
    ensures CountKind(a + b, kind) == CountKind(a, kind) + CountKind(b, kind)
    decreases |b|
  {
    if b == [] {
      assert a + b == a;
    } else {
      assert (a + b)[..|a + b| - 1] == a + b[..|b| - 1];
      CountAppend(a, b[..|b| - 1], kind);
    }
  }

  function OfKind(alerts: seq<Alert>, kind: AlertKind): set<nat> {
    set i | 0 <= i < |alerts| && alerts[i].kind == kind
  }

  lemma OfKindSnoc(alerts: seq<Alert>, last: Alert, kind: AlertKind)
    ensures OfKind(alerts + [last], kind) == OfKind(alerts, kind) + (if last.kind == kind then {|alerts|} else {})
  {
  }

  /** The count is the number of alerts of the kind. */
  lemma {:induction false} CountExactly(alerts: seq<Alert>, kind: AlertKind)
    ensures CountKind(alerts, kind) == |OfKind(alerts, kind)|
    decreases |alerts|
  {
    if alerts != [] {
      var n := |alerts| - 1;
      CountExactly(alerts[..n], kind);
      OfKindSnoc(alerts[..n], alerts[n], kind);
      assert alerts[..n] + [alerts[n]] == alerts;
    }
  }

  datatype MonitorStats =
    MonitorStats(polls: nat, alertsByKind: map<AlertKind, nat>, states: seq<HealthState>, lastTail: seq<Word>)

  /** The counters hold the number of alerts of each kind. */
  ghost predicate Counted(counts: map<AlertKind, nat>, alerts: seq<Alert>) {
    forall k: AlertKind :: k in counts && counts[k] == CountKind(alerts, k)
  }

  function NoAlerts(): map<AlertKind, nat> {
    map[WorkerCrashed := 0, WorkerStalled := 0, WorkerRecovered := 0, WorkerOverrun := 0, WorkerIdle := 0,
        WorkerRunning := 0]
  }

  lemma NoAlertsCounted()
    ensures Counted(NoAlerts(), [])
  {
    forall k: AlertKind
      ensures k in NoAlerts() && NoAlerts()[k] == 0
    {
      match k
      case WorkerCrashed =>
      case WorkerStalled =>
      case WorkerRecovered =>
      case WorkerOverrun =>
      case WorkerIdle =>
      case WorkerRunning =>
    }
  }

  lemma AfterSnoc(cfg: Config, polls: seq<Poll>, i: nat)
    requires i < |polls|
    ensures Next(After(cfg, polls[..i]), cfg, polls[i].obs, polls[i].now)
            == Observed(After(cfg, polls[..i + 1]), AlertAt(cfg, polls, i))
  {
    assert polls[..i + 1][..i] == polls[..i] && |polls[..i + 1]| - 1 == i;
  }

  /**
   The loop over all workers, until the sweeps run out (the poll limit or a stop). What it emits is each
   worker's own alerts, sweep by sweep in worker order, and its counters are the number of alerts of each
   kind that it emitted.
   */
  method RunMonitorLoop(cfg: Config, sweeps: seq<Sweep>) returns (stats: MonitorStats, emitted: seq<Alert>)
    requires WellFormed(sweeps)
    ensures emitted == Emitted(cfg, sweeps, |sweeps|)
    ensures stats.polls == |sweeps|
    ensures Counted(stats.alertsByKind, emitted)
    ensures |stats.states| == WORKERS == |stats.lastTail|
    ensures sweeps != [] ==> forall w: nat | w < WORKERS ::
              stats.states[w] == After(cfg, PollsOf(sweeps, w)).state
              && stats.lastTail[w] == sweeps[|sweeps| - 1].obs[w].ringTail
  {
    var tracks := NewTracks(cfg, sweeps);
    emitted := [];
    var counts := NoAlerts();
    NoAlertsCounted();
    stats := MonitorStats(0, counts, [Unknown, Unknown, Unknown], [0, 0, 0]);
    for n := 0 to |sweeps|
      modifies tracks
      invariant EmittedBy(cfg, sweeps, n, emitted) && stats.polls == n
      invariant Counted(counts, emitted)
      invariant AllAt(cfg, sweeps, tracks, n)
      invariant |stats.states| == WORKERS == |stats.lastTail|
      invariant n > 0 ==> stats.states == States(tracks) && stats.lastTail == Tails(sweeps[n - 1])
    {
      counts, emitted := OnePoll(cfg, sweeps, n, tracks, counts, emitted);
      stats := stats.(polls := n + 1, states := States(tracks), lastTail := Tails(sweeps[n]));
    }
    stats := stats.(alertsByKind := counts);
    FinalStates(cfg, sweeps, tracks);
  }

  ghost predicate EmittedBy(cfg: Config, sweeps: seq<Sweep>, n: nat, emitted: seq<Alert>)
    requires WellFormed(sweeps) && n <= |sweeps|
  {
    forall k: nat | k == n :: Emitted(cfg, sweeps, k) == emitted
  }

  function States(tracks: seq<WorkerTrack>): (s: seq<HealthState>)
    requires |tracks| == WORKERS
    reads tracks
    ensures |s| == WORKERS && forall w: nat | w < WORKERS :: s[w] == tracks[w].state
  {
    [tracks[0].state, tracks[1].state, tracks[2].state]
  }

  /** One machine for each worker. */
  method NewTracks(ghost cfg: Config, ghost sweeps: seq<Sweep>) returns (tracks: seq<WorkerTrack>)
    requires WellFormed(sweeps)
    ensures Apart(tracks) && fresh(tracks) && AllAt(cfg, sweeps, tracks, 0)
  {
    var a := new WorkerTrack();
    var b := new WorkerTrack();
    var c := new WorkerTrack();
    tracks := [a, b, c];
  }

  /** One sweep, its alerts counted and emitted. */
  method OnePoll(cfg: Config, sweeps: seq<Sweep>, n: nat, tracks: seq<WorkerTrack>,
                 counts: map<AlertKind, nat>, emitted: seq<Alert>)
    returns (counts': map<AlertKind, nat>, emitted': seq<Alert>)
    requires WellFormed(sweeps) && n < |sweeps| && Apart(tracks) && AllAt(cfg, sweeps, tracks, n)
    requires EmittedBy(cfg, sweeps, n, emitted) && Counted(counts, emitted)
    modifies tracks
    ensures AllAt(cfg, sweeps, tracks, n + 1)
    ensures EmittedBy(cfg, sweeps, n + 1, emitted') && Counted(counts', emitted')
  {
    var alerts := SweepOnce(cfg, sweeps, n, tracks);
    counts' := Tally(counts, emitted, alerts);
    emitted' := emitted + alerts;
  }

  /** All three machines have seen n sweeps. */
  ghost predicate AllAt(cfg: Config, sweeps: seq<Sweep>, tracks: seq<WorkerTrack>, n: nat)
    requires WellFormed(sweeps) && WORKERS == |tracks| && n <= |sweeps|
    reads tracks
  {
    TracksAre(cfg, sweeps, tracks, 0, n) && TracksAre(cfg, sweeps, tracks, 1, n) && TracksAre(cfg, sweeps, tracks, 2, n)
  }

  lemma AllAtEach(cfg: Config, sweeps: seq<Sweep>, tracks: seq<WorkerTrack>, n: nat, w: nat)
    requires WellFormed(sweeps) && w < WORKERS == |tracks| && n <= |sweeps| && AllAt(cfg, sweeps, tracks, n)
    ensures TracksAre(cfg, sweeps, tracks, w, n)
  {
  }

  lemma FinalState(cfg: Config, sweeps: seq<Sweep>, tracks: seq<WorkerTrack>, w: nat)
    requires WellFormed(sweeps) && w < WORKERS == |tracks| && TracksAre(cfg, sweeps, tracks, w, |sweeps|)
    ensures tracks[w].state == After(cfg, PollsOf(sweeps, w)).state
  {
    assert PollsOf(sweeps, w)[..|sweeps|] == PollsOf(sweeps, w);
  }

  lemma FinalStates(cfg: Config, sweeps: seq<Sweep>, tracks: seq<WorkerTrack>)
    requires WellFormed(sweeps) && WORKERS == |tracks| && AllAt(cfg, sweeps, tracks, |sweeps|)
    ensures forall w: nat | w < WORKERS :: tracks[w].state == After(cfg, PollsOf(sweeps, w)).state
  {
    forall w: nat | w < WORKERS
      ensures tracks[w].state == After(cfg, PollsOf(sweeps, w)).state
    {
      AllAtEach(cfg, sweeps, tracks, |sweeps|, w);
      FinalState(cfg, sweeps, tracks, w);
    }
  }

  function Tails(sweep: Sweep): (t: seq<Word>)
    requires |sweep.obs| == WORKERS
    ensures |t| == WORKERS && forall w: nat | w < WORKERS :: t[w] == sweep.obs[w].ringTail
  {
    [sweep.obs[0].ringTail, sweep.obs[1].ringTail, sweep.obs[2].ringTail]
  }

  /** Worker w's machine has seen n sweeps. */
  ghost predicate TracksAre(cfg: Config, sweeps: seq<Sweep>, tracks: seq<WorkerTrack>, w: nat, n: nat)
    requires WellFormed(sweeps) && w < WORKERS == |tracks| && n <= |sweeps|
    reads tracks[w]
  {
    forall polls | polls == PollsOf(sweeps, w)[..n] :: After(cfg, polls) == tracks[w].View()
  }

  /** The first i workers have been observed at sweep n, the others not yet. */
  ghost predicate SweptTo(cfg: Config, sweeps: seq<Sweep>, tracks: seq<WorkerTrack>, n: nat, i: nat)
    requires WellFormed(sweeps) && WORKERS == |tracks| && n < |sweeps|
    reads tracks
  {
    && TracksAre(cfg, sweeps, tracks, 0, if 0 < i then n + 1 else n)
    && TracksAre(cfg, sweeps, tracks, 1, if 1 < i then n + 1 else n)
    && TracksAre(cfg, sweeps, tracks, 2, if 2 < i then n + 1 else n)
  }

  /** One worker observed at sweep n. */
  method ObserveAt(cfg: Config, sweeps: seq<Sweep>, n: nat, tracks: seq<WorkerTrack>, w: nat)
    returns (alert: Option<AlertKind>)
    requires WellFormed(sweeps) && n < |sweeps| && w < WORKERS == |tracks|
    requires TracksAre(cfg, sweeps, tracks, w, n)
    modifies tracks[w]
    ensures TracksAre(cfg, sweeps, tracks, w, n + 1) && alert == AlertAt(cfg, PollsOf(sweeps, w), n)
  {
    AfterSnoc(cfg, PollsOf(sweeps, w), n);
    alert := tracks[w].ObserveWorker(cfg, sweeps[n].obs[w], sweeps[n].now);
  }

  predicate Apart(tracks: seq<WorkerTrack>) {
    |tracks| == WORKERS && tracks[0] != tracks[1] && tracks[0] != tracks[2] && tracks[1] != tracks[2]
  }

  /** Every worker observed once. */
  method SweepOnce(cfg: Config, sweeps: seq<Sweep>, n: nat, tracks: seq<WorkerTrack>) returns (alerts: seq<Alert>)
    requires WellFormed(sweeps) && n < |sweeps| && Apart(tracks)
    requires AllAt(cfg, sweeps, tracks, n)
    modifies tracks
    ensures alerts == SweepAlerts(cfg, sweeps, n, WORKERS)
    ensures AllAt(cfg, sweeps, tracks, n + 1)
  {
    alerts := [];
    for i := 0 to WORKERS
      invariant alerts == SweepAlerts(cfg, sweeps, n, i)
      invariant SweptTo(cfg, sweeps, tracks, n, i)
    {
      var alert := ObserveAt(cfg, sweeps, n, tracks, i);
      if alert.Some? {
        alerts := alerts + [Alert(i, alert.value)];
      }
    }
  }

  /** One more sweep's alerts counted. */
  method Tally(counts: map<AlertKind, nat>, ghost emitted: seq<Alert>, alerts: seq<Alert>)
    returns (counts': map<AlertKind, nat>)
    requires Counted(counts, emitted)
    ensures Counted(counts', emitted + alerts)
  {
    counts' := counts;
    assert emitted + alerts[..0] == emitted;
    for j := 0 to |alerts|
      invariant Counted(counts', emitted + alerts[..j])
    {
      assert (emitted + alerts[..j + 1])[..|emitted| + j] == emitted + alerts[..j];
      var kind := alerts[j].kind;
      counts' := counts'[kind := counts'[kind] + 1];
    }
    assert emitted + alerts[..|alerts|] == emitted + alerts;
  }
}
