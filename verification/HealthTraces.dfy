/** What the alerts of one worker say about its polls, for every sequence of polls. */
module HealthTraces {
  import opened Options
  import opened Words
  import opened Health

  // ----- episodes, baselines and overdue polls, read off the polls alone -----

  /** The status word has the bit of the given weight. */
  predicate Shows(status: Word, weight: nat)
    requires weight > 0
  {
    status / weight % 2 == 1
  }

  /** A process that is there, with RUNNING, the lowest bit. */
  predicate Live(polls: seq<Poll>, i: nat) {
    i < |polls| && polls[i].obs.processAlive && Shows(polls[i].obs.status, 1)
  }

  /** A process that is gone, with RUNNING or with CRASHED, the third bit. */
  predicate CrashSeen(polls: seq<Poll>, i: nat) {
    i < |polls| && !polls[i].obs.processAlive && (Shows(polls[i].obs.status, 1) || Shows(polls[i].obs.status, 4))
  }

  /** IDLE, the second bit, without RUNNING, and not a crash. */
  predicate IdleSeen(polls: seq<Poll>, i: nat) {
    && i < |polls| && Shows(polls[i].obs.status, 2) && !Shows(polls[i].obs.status, 1)
    && (polls[i].obs.processAlive || !Shows(polls[i].obs.status, 4))
  }

  /** A poll that shows OVERRUN, the fifth bit. */
  predicate OverrunSeen(polls: seq<Poll>, i: nat) {
    i < |polls| && Shows(polls[i].obs.status, 16)
  }

  lemma FlagAbove(status: nat, flag: nat)
    ensures And(status, 2 * flag) != 0 <==> And(status / 2, flag) != 0
  {
    assert 2 * flag / 2 == flag;
  }

  lemma LowFlag(status: nat)
    ensures And(status, 1) != 0 <==> status % 2 == 1
  {
    assert And(status / 2, 0) == 0;
  }

  /** The flags the machine tests are the bits of these weights. */
  lemma FlagBits(status: Word)
    ensures HasFlag(status, RUNNING) <==> Shows(status, 1)
    ensures HasFlag(status, IDLE) <==> Shows(status, 2)
    ensures HasFlag(status, CRASHED) <==> Shows(status, 4)
    ensures HasFlag(status, OVERRUN) <==> Shows(status, 16)
  {
    LowFlag(status);
    LowFlag(status / 2);
    LowFlag(status / 2 / 2);
    LowFlag(status / 2 / 2 / 2 / 2);
    FlagAbove(status, 1);
    FlagAbove(status, 2);
    FlagAbove(status / 2, 1);
    FlagAbove(status, 8);
    FlagAbove(status / 2, 4);
    FlagAbove(status / 2 / 2, 2);
    FlagAbove(status / 2 / 2 / 2, 1);
  }

  /** The machine classifies polls as read off their bits here. */
  lemma Classified(polls: seq<Poll>, i: nat)
    requires i < |polls|
    ensures Live(polls, i) <==> polls[i].obs.LivePoll()
    ensures CrashSeen(polls, i) <==> polls[i].obs.CrashPoll()
    ensures IdleSeen(polls, i) <==> polls[i].obs.IdlePoll()
    ensures OverrunSeen(polls, i) <==> HasFlag(polls[i].obs.status, OVERRUN)
    ensures !CrashSeen(polls, i) ==> (HasFlag(polls[i].obs.status, RUNNING) <==> Live(polls, i))
  {
    FlagBits(polls[i].obs.status);
  }

  /** The latest live poll before i, if no crash or idle poll came after it. */
  function Previous(polls: seq<Poll>, i: nat): (p: Option<nat>)
    requires i <= |polls|
    ensures p.Some? ==> p.value < i && Live(polls, p.value)
    ensures p.Some? ==> forall k | p.value < k < i :: !Live(polls, k) && !CrashSeen(polls, k) && !IdleSeen(polls, k)
  {
    if i == 0 then None
    else if Live(polls, i - 1) then Some(i - 1)
    else if CrashSeen(polls, i - 1) || IdleSeen(polls, i - 1) then None
    else Previous(polls, i - 1)
  }

  predicate NewEpisode(polls: seq<Poll>, i: nat) {
    Live(polls, i) && Previous(polls, i).None?
  }

  /** The ring's epoch moved within an episode. */
  predicate EpochChange(polls: seq<Poll>, i: nat) {
    && Live(polls, i) && Previous(polls, i).Some?
    && polls[i].obs.ringEpoch != polls[Previous(polls, i).value].obs.ringEpoch
  }

  /** The ring's tail moved within an episode and an epoch. */
  predicate Commit(polls: seq<Poll>, i: nat) {
    && Live(polls, i) && Previous(polls, i).Some? && !EpochChange(polls, i)
    && polls[i].obs.ringTail != polls[Previous(polls, i).value].obs.ringTail
  }

  predicate Handoff(polls: seq<Poll>, i: nat) {
    NewEpisode(polls, i) || EpochChange(polls, i)
  }

  predicate Resets(polls: seq<Poll>, i: nat) {
    Handoff(polls, i) || Commit(polls, i)
  }

  /** The poll a live poll's stall window is measured from: the latest handoff or commit. */
  function Baseline(polls: seq<Poll>, i: nat): (b: nat)
    requires Live(polls, i)
    ensures b <= i && Resets(polls, b)
    decreases i
  {
    if Resets(polls, i) then i else Baseline(polls, Previous(polls, i).value)
  }

  /** The window is longer than the bound in force: the handoff grace until the first commit, then the threshold. */
  predicate Overdue(cfg: Config, polls: seq<Poll>, i: nat) {
    && Live(polls, i)
    && var b := Baseline(polls, i);
       polls[i].now - polls[b].now > (if Handoff(polls, b) then cfg.handoffGrace else cfg.stallThreshold)
  }

  /** Some live poll up to i with i's baseline was overdue. */
  predicate Latched(cfg: Config, polls: seq<Poll>, i: nat)
    requires Live(polls, i)
    decreases i
  {
    Overdue(cfg, polls, i) || (!Resets(polls, i) && Latched(cfg, polls, Previous(polls, i).value))
  }

  /** An idle poll was announced and no live poll came since. */
  predicate Idled(polls: seq<Poll>, i: nat)
    requires i <= |polls|
  {
    i > 0 && (IdleSeen(polls, i - 1) || (!Live(polls, i - 1) && Idled(polls, i - 1)))
  }

  /** A live poll that no edge of higher priority takes: only these look at the overrun bit. */
  predicate Plain(cfg: Config, polls: seq<Poll>, i: nat)
    requires i < |polls|
  {
    && Live(polls, i) && !NewEpisode(polls, i)
    && !Deserves(cfg, polls, i, WorkerRecovered) && !Deserves(cfg, polls, i, WorkerStalled)
  }

  /** Since the last crash alert, the latest plain poll before i showed the overrun bit. */
  predicate Overran(cfg: Config, polls: seq<Poll>, i: nat)
    requires i <= |polls|
  {
    i > 0 && if Plain(cfg, polls, i - 1) then OverrunSeen(polls, i - 1)
             else !Deserves(cfg, polls, i - 1, WorkerCrashed) && Overran(cfg, polls, i - 1)
  }

  // ----- the machine follows the polls -----

  predicate Follows(cfg: Config, k: Track, polls: seq<Poll>, n: nat)
    requires n <= |polls|
  {
    && (k.crashAlerted <==> n > 0 && CrashSeen(polls, n - 1))
    && (k.idleAnnounced <==> Idled(polls, n))
    && (k.overrunReported <==> Overran(cfg, polls, n))
    && match Previous(polls, n)
       case None => !k.runningAnnounced && !k.stalledAlerted
       case Some(j) =>
         && k.runningAnnounced && !k.idleAnnounced
         && k.lastTail == polls[j].obs.ringTail && k.episodeEpoch == polls[j].obs.ringEpoch
         && k.lastAdvance == polls[Baseline(polls, j)].now
         && k.awaitingFirstCommit == Handoff(polls, Baseline(polls, j))
         && k.stalledAlerted == Latched(cfg, polls, j)
  }

  /** The polls that deserve each kind of alert, the overrun edge apart. */
  predicate Deserves(cfg: Config, polls: seq<Poll>, n: nat, kind: AlertKind)
    requires n < |polls|
  {
    match kind
    case WorkerCrashed => CrashSeen(polls, n) && !(n > 0 && CrashSeen(polls, n - 1))
    case WorkerIdle => IdleSeen(polls, n) && !Idled(polls, n)
    case WorkerRunning => NewEpisode(polls, n)
    case WorkerRecovered => Commit(polls, n) && Latched(cfg, polls, Previous(polls, n).value)
    case WorkerStalled =>
      Overdue(cfg, polls, n) && !Resets(polls, n) && !Latched(cfg, polls, Previous(polls, n).value)
    case WorkerOverrun => false
  }

  predicate DeservesOverrun(cfg: Config, polls: seq<Poll>, n: nat)
    requires n < |polls|
  {
    Plain(cfg, polls, n) && OverrunSeen(polls, n) && !Overran(cfg, polls, n)
  }

  predicate MainKind(a: Option<AlertKind>) {
    a.Some? && a.value != WorkerOverrun
  }

  ghost predicate StepOk(cfg: Config, k: Track, polls: seq<Poll>, n: nat)
    requires n < |polls|
  {
    var o := Next(k, cfg, polls[n].obs, polls[n].now);
    && Follows(cfg, o.track, polls, n + 1)
    && (o.alert == Some(WorkerCrashed) <==> Deserves(cfg, polls, n, WorkerCrashed))
    && (o.alert == Some(WorkerIdle) <==> Deserves(cfg, polls, n, WorkerIdle))
    && (o.alert == Some(WorkerRunning) <==> Deserves(cfg, polls, n, WorkerRunning))
    && (o.alert == Some(WorkerRecovered) <==> Deserves(cfg, polls, n, WorkerRecovered))
    && (o.alert == Some(WorkerStalled) <==> Deserves(cfg, polls, n, WorkerStalled))
    && (o.alert == Some(WorkerOverrun) <==> DeservesOverrun(cfg, polls, n))
  }

  lemma CrashStep(cfg: Config, k: Track, polls: seq<Poll>, n: nat)
    requires n < |polls| && Follows(cfg, k, polls, n) && CrashSeen(polls, n)
    ensures StepOk(cfg, k, polls, n)
  {
    Classified(polls, n);
  }

  lemma RestStep(cfg: Config, k: Track, polls: seq<Poll>, n: nat)
    requires n < |polls| && Follows(cfg, k, polls, n) && !CrashSeen(polls, n) && !Live(polls, n)
    ensures StepOk(cfg, k, polls, n)
  {
    Classified(polls, n);
  }

  lemma HandoffStep(cfg: Config, k: Track, polls: seq<Poll>, n: nat)
    requires n < |polls| && Follows(cfg, k, polls, n) && Handoff(polls, n)
    ensures StepOk(cfg, k, polls, n)
  {
    Classified(polls, n);
    assert Baseline(polls, n) == n;
    assert !Overdue(cfg, polls, n) && !Latched(cfg, polls, n);
  }

  lemma CommitStep(cfg: Config, k: Track, polls: seq<Poll>, n: nat)
    requires n < |polls| && Follows(cfg, k, polls, n) && Commit(polls, n)
    ensures StepOk(cfg, k, polls, n)
  {
    Classified(polls, n);
    assert Baseline(polls, n) == n && !Handoff(polls, n);
    assert !Overdue(cfg, polls, n) && !Latched(cfg, polls, n);
  }

  lemma StillStep(cfg: Config, k: Track, polls: seq<Poll>, n: nat)
    requires n < |polls| && Follows(cfg, k, polls, n) && Live(polls, n) && !Resets(polls, n)
    ensures StepOk(cfg, k, polls, n)
  {
    Classified(polls, n);
    var j := Previous(polls, n).value;
    assert Baseline(polls, n) == Baseline(polls, j);
  }

  lemma OneStep(cfg: Config, k: Track, polls: seq<Poll>, n: nat)
    requires n < |polls| && Follows(cfg, k, polls, n)
    ensures StepOk(cfg, k, polls, n)
  {
    if CrashSeen(polls, n) {
      CrashStep(cfg, k, polls, n);
    } else if !Live(polls, n) {
      RestStep(cfg, k, polls, n);
    } else if Handoff(polls, n) {
      HandoffStep(cfg, k, polls, n);
    } else if Commit(polls, n) {
      CommitStep(cfg, k, polls, n);
    } else {
      StillStep(cfg, k, polls, n);
    }
  }

  lemma {:induction false} AlwaysFollows(cfg: Config, polls: seq<Poll>, n: nat)
    requires n <= |polls|
    ensures Follows(cfg, After(cfg, polls[..n]), polls, n)
    decreases n
  {
    if n > 0 {
      AlwaysFollows(cfg, polls, n - 1);
      OneStep(cfg, After(cfg, polls[..n - 1]), polls, n - 1);
      AfterSnoc(cfg, polls, n - 1);
    }
  }

  // ----- which poll raises which alert -----

  /**
   Crashed marks the first poll of each maximal run of polls that find the process dead with RUNNING or
   CRASHED set; Running marks each new episode; Idle each idle poll since whose predecessor the worker
   was live; Recovered each commit that ends a latched stall; Overrun each plain poll that shows the bit
   when, since the last crash, the plain poll before it did not.
   */
  lemma AlertsAreDeserved(cfg: Config, polls: seq<Poll>, i: nat, kind: AlertKind)
    requires i < |polls|
    ensures AlertAt(cfg, polls, i) == Some(kind) <==>
            if kind == WorkerOverrun then DeservesOverrun(cfg, polls, i) else Deserves(cfg, polls, i, kind)
  {
    AlwaysFollows(cfg, polls, i);
    OneStep(cfg, After(cfg, polls[..i]), polls, i);
  }

  lemma {:induction false} SameWindow(polls: seq<Poll>, i: nat, k: nat)
    requires Live(polls, i) && Live(polls, k) && Baseline(polls, i) <= k <= i
    ensures Baseline(polls, k) == Baseline(polls, i)
    ensures polls[k].obs.ringEpoch == polls[i].obs.ringEpoch && polls[k].obs.ringTail == polls[i].obs.ringTail
    decreases i
  {
    if k < i {
      SameWindow(polls, Previous(polls, i).value, k);
    }
  }

  lemma {:induction false} LatchedMeansOverdue(cfg: Config, polls: seq<Poll>, i: nat)
    requires Live(polls, i)
    ensures Latched(cfg, polls, i) <==> exists k :: Baseline(polls, i) <= k <= i && Overdue(cfg, polls, k)
    decreases i
  {
    if !Resets(polls, i) {
      LatchedMeansOverdue(cfg, polls, Previous(polls, i).value);
    }
  }

  /** A stall is reported at exactly those live polls that are overdue and the first since their baseline to be so. */
  lemma StalledExactly(cfg: Config, polls: seq<Poll>, i: nat)
    requires i < |polls|
    ensures AlertAt(cfg, polls, i) == Some(WorkerStalled) <==>
              && Overdue(cfg, polls, i)
              && forall k | Baseline(polls, i) <= k < i :: !Overdue(cfg, polls, k)
  {
    AlertsAreDeserved(cfg, polls, i, WorkerStalled);
    if Live(polls, i) {
      if Resets(polls, i) {
        assert Baseline(polls, i) == i && !Overdue(cfg, polls, i);
      } else {
        var j := Previous(polls, i).value;
        LatchedMeansOverdue(cfg, polls, j);
        assert Baseline(polls, j) == Baseline(polls, i);
      }
    }
  }

  /** From a live poll's baseline on every live poll showed the same tail and epoch, and the episode did not end. */
  lemma {:induction false} WindowIsFrozen(polls: seq<Poll>, i: nat)
    requires Live(polls, i)
    ensures forall k | Baseline(polls, i) <= k <= i && Live(polls, k) ::
              polls[k].obs.ringTail == polls[i].obs.ringTail && polls[k].obs.ringEpoch == polls[i].obs.ringEpoch
    ensures forall k | Baseline(polls, i) < k <= i :: !CrashSeen(polls, k) && !IdleSeen(polls, k)
  {
    forall k | Baseline(polls, i) <= k <= i && Live(polls, k)
      ensures polls[k].obs.ringTail == polls[i].obs.ringTail && polls[k].obs.ringEpoch == polls[i].obs.ringEpoch
    {
      SameWindow(polls, i, k);
    }
    WindowUnbroken(polls, i);
  }

  lemma {:induction false} WindowUnbroken(polls: seq<Poll>, i: nat)
    requires Live(polls, i)
    ensures forall k | Baseline(polls, i) < k <= i :: !CrashSeen(polls, k) && !IdleSeen(polls, k)
    decreases i
  {
    if !Resets(polls, i) {
      WindowUnbroken(polls, Previous(polls, i).value);
    }
  }

  /** Every window that becomes overdue is reported, and only once. */
  lemma {:induction false} ReportedOnce(cfg: Config, polls: seq<Poll>, i: nat) returns (k: nat)
    requires Overdue(cfg, polls, i)
    ensures Baseline(polls, i) < k <= i && AlertAt(cfg, polls, k) == Some(WorkerStalled)
    ensures forall j | k < j < |polls| && Live(polls, j) && Baseline(polls, j) == Baseline(polls, i) ::
              AlertAt(cfg, polls, j) != Some(WorkerStalled)
    decreases i
  {
    var b := Baseline(polls, i);
    if k' :| b <= k' < i && Overdue(cfg, polls, k') {
      SameWindow(polls, i, k');
      k := ReportedOnce(cfg, polls, k');
    } else {
      k := i;
      StalledExactly(cfg, polls, i);
    }
    forall j | k < j < |polls| && Live(polls, j) && Baseline(polls, j) == b
      ensures AlertAt(cfg, polls, j) != Some(WorkerStalled)
    {
      StalledExactly(cfg, polls, k);
      StalledExactly(cfg, polls, j);
    }
  }

  // ----- the order of alerts -----

  /** The latest alert before i that is not an overrun. */
  function LastMain(cfg: Config, polls: seq<Poll>, i: nat): (m: Option<nat>)
    requires i <= |polls|
    ensures m.Some? ==> m.value < i && MainKind(AlertAt(cfg, polls, m.value))
    ensures m.Some? ==> forall k | m.value < k < i :: !MainKind(AlertAt(cfg, polls, k))
  {
    if i == 0 then None
    else if MainKind(AlertAt(cfg, polls, i - 1)) then Some(i - 1)
    else LastMain(cfg, polls, i - 1)
  }

  predicate LastIs(cfg: Config, polls: seq<Poll>, n: nat, kind: AlertKind)
    requires n <= |polls|
  {
    var m := LastMain(cfg, polls, n);
    m.Some? && AlertAt(cfg, polls, m.value) == Some(kind)
  }

  ghost predicate EpochChangeBetween(polls: seq<Poll>, j: nat, n: nat) {
    exists r :: j < r < n && EpochChange(polls, r)
  }

  ghost predicate OrderOk(cfg: Config, k: Track, polls: seq<Poll>, n: nat)
    requires n <= |polls|
  {
    && (k.stalledAlerted ==> LastIs(cfg, polls, n, WorkerStalled))
    && (k.crashAlerted ==> LastIs(cfg, polls, n, WorkerCrashed))
    && (LastIs(cfg, polls, n, WorkerStalled) && !k.stalledAlerted ==>
          EpochChangeBetween(polls, LastMain(cfg, polls, n).value, n))
  }

  /** What one poll does to the latches, by the main alert it raises. */
  lemma LatchStep(cfg: Config, k: Track, polls: seq<Poll>, n: nat)
    requires n < |polls| && Follows(cfg, k, polls, n)
    ensures var o := Next(k, cfg, polls[n].obs, polls[n].now);
      && (o.track.stalledAlerted
          <==> || o.alert == Some(WorkerStalled)
               || (k.stalledAlerted && !MainKind(o.alert) && !EpochChange(polls, n) && !CrashSeen(polls, n)))
      && (o.track.crashAlerted ==> o.alert == Some(WorkerCrashed) || (k.crashAlerted && !MainKind(o.alert)))
      && (o.track.crashAlerted <==> CrashSeen(polls, n))
      && (CrashSeen(polls, n) && !MainKind(o.alert) ==> k.crashAlerted)
  {
    Classified(polls, n);
    if CrashSeen(polls, n) {
    } else if !Live(polls, n) {
    } else if NewEpisode(polls, n) {
    } else if EpochChange(polls, n) {
    } else if Commit(polls, n) {
    }
  }

  lemma OrderStep(cfg: Config, polls: seq<Poll>, n: nat)
    requires n < |polls| && OrderOk(cfg, After(cfg, polls[..n]), polls, n)
    ensures OrderOk(cfg, After(cfg, polls[..n + 1]), polls, n + 1)
  {
    var k, k' := After(cfg, polls[..n]), After(cfg, polls[..n + 1]);
    AlwaysFollows(cfg, polls, n);
    AfterSnoc(cfg, polls, n);
    LatchStep(cfg, k, polls, n);
    if !MainKind(AlertAt(cfg, polls, n)) && LastIs(cfg, polls, n, WorkerStalled) && !k'.stalledAlerted {
      var j := LastMain(cfg, polls, n).value;
      if k.stalledAlerted {
        assert EpochChange(polls, n);
        assert j < n < n + 1;
      } else {
        var r :| j < r < n && EpochChange(polls, r);
        assert j < r < n + 1;
      }
    }
  }

  lemma {:induction false} AlwaysOrdered(cfg: Config, polls: seq<Poll>, n: nat)
    requires n <= |polls|
    ensures OrderOk(cfg, After(cfg, polls[..n]), polls, n)
    decreases n
  {
    if n > 0 {
      AlwaysOrdered(cfg, polls, n - 1);
      OrderStep(cfg, polls, n - 1);
    }
  }

  /**
   Overruns aside, a Recovered alert directly follows a Stalled one, and between two Stalled alerts
   with nothing between them the ring's epoch changed.
   */
  lemma AlertGrammar(cfg: Config, polls: seq<Poll>, i: nat)
    requires i < |polls|
    ensures AlertAt(cfg, polls, i) == Some(WorkerRecovered) ==> LastIs(cfg, polls, i, WorkerStalled)
    ensures AlertAt(cfg, polls, i) == Some(WorkerStalled) && LastIs(cfg, polls, i, WorkerStalled) ==>
              EpochChangeBetween(polls, LastMain(cfg, polls, i).value, i)
  {
    AlwaysOrdered(cfg, polls, i);
    AlwaysFollows(cfg, polls, i);
    AlertsAreDeserved(cfg, polls, i, WorkerRecovered);
    AlertsAreDeserved(cfg, polls, i, WorkerStalled);
  }

  // ----- the reported state -----

  /** The state that an alert stands for. */
  function StateOf(kind: AlertKind): HealthState {
    match kind
    case WorkerCrashed => Crashed
    case WorkerStalled => Stalled
    case WorkerIdle => Idle
    case _ => Running
  }

  /** The state of the last alert other than an overrun. */
  function LastState(cfg: Config, polls: seq<Poll>, n: nat): HealthState
    requires n <= |polls|
  {
    var m := LastMain(cfg, polls, n);
    if m.None? then Unknown else StateOf(AlertAt(cfg, polls, m.value).value)
  }

  /** One poll changes the state only along with a main alert. */
  lemma StateStep(k: Track, cfg: Config, obs: Observation, now: int)
    ensures var o := Next(k, cfg, obs, now);
      o.track.state == if MainKind(o.alert) then StateOf(o.alert.value) else k.state
  {
    if obs.CrashPoll() {
    } else if !HasFlag(obs.status, RUNNING) {
    } else if !k.runningAnnounced {
    } else if obs.ringEpoch != k.episodeEpoch {
    }
  }

  /** The state reported after any polls is that of the last alert other than an overrun. */
  lemma {:induction false} StateIsLastAlert(cfg: Config, polls: seq<Poll>, n: nat)
    requires n <= |polls|
    ensures After(cfg, polls[..n]).state == LastState(cfg, polls, n)
    decreases n
  {
    if n > 0 {
      StateIsLastAlert(cfg, polls, n - 1);
      AfterSnoc(cfg, polls, n - 1);
      StateStep(After(cfg, polls[..n - 1]), cfg, polls[n - 1].obs, polls[n - 1].now);
    }
  }

  /** What the poll loop reports for each worker. */
  lemma ReportedStates(cfg: Config, sweeps: seq<Sweep>, stats: MonitorStats)
    requires WellFormed(sweeps) && |stats.states| == WORKERS
    requires forall w: nat | w < WORKERS :: stats.states[w] == After(cfg, PollsOf(sweeps, w)).state
    ensures forall w: nat | w < WORKERS :: stats.states[w] == LastState(cfg, PollsOf(sweeps, w), |sweeps|)
  {
    forall w: nat | w < WORKERS
      ensures stats.states[w] == LastState(cfg, PollsOf(sweeps, w), |sweeps|)
    {
      StateIsLastAlert(cfg, PollsOf(sweeps, w), |sweeps|);
      assert PollsOf(sweeps, w)[..|sweeps|] == PollsOf(sweeps, w);
    }
  }

  /** While a stall is latched the epoch has not changed since it was reported. */
  lemma {:induction false} LatchedSinceReport(cfg: Config, polls: seq<Poll>, n: nat)
    requires n <= |polls| && After(cfg, polls[..n]).stalledAlerted
    ensures LastIs(cfg, polls, n, WorkerStalled)
    ensures !EpochChangeBetween(polls, LastMain(cfg, polls, n).value, n)
    decreases n
  {
    if n > 0 {
      LatchKept(cfg, polls, n - 1);
      if AlertAt(cfg, polls, n - 1) != Some(WorkerStalled) {
        LatchedSinceReport(cfg, polls, n - 1);
        NoChangeExtends(polls, LastMain(cfg, polls, n - 1).value, n - 1);
      }
    }
  }

  /** A latch in place after a poll is set by it, or was there before and nothing happened to it. */
  lemma LatchKept(cfg: Config, polls: seq<Poll>, n: nat)
    requires n < |polls| && After(cfg, polls[..n + 1]).stalledAlerted
    ensures AlertAt(cfg, polls, n) == Some(WorkerStalled) ==> LastMain(cfg, polls, n + 1) == Some(n)
    ensures AlertAt(cfg, polls, n) != Some(WorkerStalled) ==>
              && After(cfg, polls[..n]).stalledAlerted && !EpochChange(polls, n)
              && LastMain(cfg, polls, n + 1) == LastMain(cfg, polls, n)
  {
    AlwaysFollows(cfg, polls, n);
    AfterSnoc(cfg, polls, n);
    LatchStep(cfg, After(cfg, polls[..n]), polls, n);
  }

  lemma NoChangeExtends(polls: seq<Poll>, j: nat, n: nat)
    requires !EpochChangeBetween(polls, j, n) && !EpochChange(polls, n)
    ensures !EpochChangeBetween(polls, j, n + 1)
  {
  }

  /**
   The report is stale, Stalled although no stall is latched, exactly when the last alert other than an
   overrun is Stalled and the ring's epoch changed after it.
   */
  lemma StaleStall(cfg: Config, polls: seq<Poll>, n: nat)
    requires n <= |polls|
    ensures var k := After(cfg, polls[..n]);
      k.state == Stalled && !k.stalledAlerted
      <==> LastIs(cfg, polls, n, WorkerStalled) && EpochChangeBetween(polls, LastMain(cfg, polls, n).value, n)
  {
    StateIsLastAlert(cfg, polls, n);
    AlwaysOrdered(cfg, polls, n);
    if After(cfg, polls[..n]).stalledAlerted {
      LatchedSinceReport(cfg, polls, n);
    }
  }

  // ----- unclassified polls -----

  /** Alive, or dead without RUNNING or CRASHED, and neither running nor idle. */
  predicate Unclassified(polls: seq<Poll>, i: nat) {
    i < |polls| && !CrashSeen(polls, i) && !Live(polls, i) && !IdleSeen(polls, i)
  }

  ghost predicate EpisodeOk(cfg: Config, k: Track, polls: seq<Poll>, n: nat)
    requires n <= |polls|
  {
    Follows(cfg, k, polls, n) && (k.state in {Running, Stalled} <==> Previous(polls, n).Some?)
  }

  lemma EpisodeStep(cfg: Config, k: Track, polls: seq<Poll>, n: nat)
    requires n < |polls| && EpisodeOk(cfg, k, polls, n)
    ensures EpisodeOk(cfg, Next(k, cfg, polls[n].obs, polls[n].now).track, polls, n + 1)
  {
    OneStep(cfg, k, polls, n);
    StateStep(k, cfg, polls[n].obs, polls[n].now);
    if CrashSeen(polls, n) {
      assert Previous(polls, n).Some? ==> !k.crashAlerted;
    }
  }

  lemma {:induction false} StateFollowsEpisode(cfg: Config, polls: seq<Poll>, n: nat)
    requires n <= |polls|
    ensures EpisodeOk(cfg, After(cfg, polls[..n]), polls, n)
    decreases n
  {
    if n > 0 {
      StateFollowsEpisode(cfg, polls, n - 1);
      EpisodeStep(cfg, After(cfg, polls[..n - 1]), polls, n - 1);
      AfterSnoc(cfg, polls, n - 1);
    }
  }

  /**
   An unclassified poll raises nothing and always leaves the reported state as it was; that state claims a
   running or stalled worker exactly while the last live poll has been followed by no crash or idle poll.
   */
  lemma UnclassifiedKeepsState(cfg: Config, polls: seq<Poll>, i: nat)
    requires Unclassified(polls, i)
    ensures AlertAt(cfg, polls, i) == None
    ensures After(cfg, polls[..i + 1]).state == After(cfg, polls[..i]).state
    ensures After(cfg, polls[..i]).state in {Running, Stalled} <==> Previous(polls, i).Some?
  {
    Classified(polls, i);
    StateFollowsEpisode(cfg, polls, i);
    AfterSnoc(cfg, polls, i);
  }

  // ----- idle workers reported as crashed -----

  /** No live poll from i up to n. */
  predicate NoneLive(polls: seq<Poll>, i: nat, n: nat) {
    forall k | i <= k < n :: !Live(polls, k)
  }

  /** A crash poll before n, and since then no live poll and no idle poll that would be announced. */
  predicate StillCrashed(polls: seq<Poll>, n: nat)
    requires n <= |polls|
  {
    && n > 0
    && (|| CrashSeen(polls, n - 1)
        || (&& !Live(polls, n - 1) && (IdleSeen(polls, n - 1) ==> Idled(polls, n - 1))
            && StillCrashed(polls, n - 1)))
  }

  ghost predicate CrashOk(cfg: Config, k: Track, polls: seq<Poll>, n: nat)
    requires n <= |polls|
  {
    Follows(cfg, k, polls, n) && (k.state == Crashed <==> StillCrashed(polls, n))
  }

  lemma CrashedStep(cfg: Config, k: Track, polls: seq<Poll>, n: nat)
    requires n < |polls| && CrashOk(cfg, k, polls, n)
    ensures CrashOk(cfg, Next(k, cfg, polls[n].obs, polls[n].now).track, polls, n + 1)
  {
    OneStep(cfg, k, polls, n);
    StateStep(k, cfg, polls[n].obs, polls[n].now);
    if StillCrashed(polls, n) {
      CrashedMeansNotLive(polls, n);
    }
  }

  lemma {:induction false} CrashedMeansNotLive(polls: seq<Poll>, n: nat)
    requires n <= |polls| && StillCrashed(polls, n)
    ensures Previous(polls, n).None?
    decreases n
  {
    if !CrashSeen(polls, n - 1) {
      CrashedMeansNotLive(polls, n - 1);
    }
  }

  lemma {:induction false} CrashedFollows(cfg: Config, polls: seq<Poll>, n: nat)
    requires n <= |polls|
    ensures CrashOk(cfg, After(cfg, polls[..n]), polls, n)
    decreases n
  {
    if n > 0 {
      CrashedFollows(cfg, polls, n - 1);
      CrashedStep(cfg, After(cfg, polls[..n - 1]), polls, n - 1);
      AfterSnoc(cfg, polls, n - 1);
    }
  }

  /** Announced idle, that is, some idle poll has been followed by no live one. */
  lemma {:induction false} IdledSince(polls: seq<Poll>, n: nat)
    requires n <= |polls|
    ensures Idled(polls, n) <==> exists j :: 0 <= j < n && IdleSeen(polls, j) && NoneLive(polls, j, n)
    decreases n
  {
    if n > 0 {
      IdledSince(polls, n - 1);
      if Idled(polls, n) && !IdleSeen(polls, n - 1) {
        var j :| 0 <= j < n - 1 && IdleSeen(polls, j) && NoneLive(polls, j, n - 1);
        assert NoneLive(polls, j, n);
      }
      if IdleSeen(polls, n - 1) {
        assert NoneLive(polls, n - 1, n);
      }
    }
  }

  /** A crash poll that came while idle was announced masks every later idle poll until a live one. */
  predicate MaskedBy(polls: seq<Poll>, c: nat, n: nat)
    requires n <= |polls|
  {
    c < n && CrashSeen(polls, c) && Idled(polls, c) && NoneLive(polls, c, n)
  }

  lemma {:induction false} MaskedStays(polls: seq<Poll>, c: nat, n: nat)
    requires n <= |polls| && MaskedBy(polls, c, n)
    ensures StillCrashed(polls, n) && Idled(polls, n)
    decreases n
  {
    if c < n - 1 {
      assert NoneLive(polls, c, n - 1);
      MaskedStays(polls, c, n - 1);
    }
    assert !Live(polls, n - 1);
  }

  lemma {:induction false} CrashedWhileIdled(polls: seq<Poll>, n: nat) returns (c: nat)
    requires n <= |polls| && StillCrashed(polls, n) && Idled(polls, n)
    ensures MaskedBy(polls, c, n)
    decreases n
  {
    if CrashSeen(polls, n - 1) {
      c := n - 1;
    } else {
      c := CrashedWhileIdled(polls, n - 1);
    }
  }

  /**
   A worker last seen idle is reported as crashed exactly when it was idle already, then seen crashed, and never
   seen live since the earlier idle poll: its idleness counts as announced and is not announced again.
   */
  lemma IdleReportedCrashed(cfg: Config, polls: seq<Poll>, n: nat)
    requires 0 < n <= |polls| && IdleSeen(polls, n - 1)
    ensures After(cfg, polls[..n]).state == Crashed
            <==> exists j, c :: 0 <= j < c < n && IdleSeen(polls, j) && CrashSeen(polls, c) && NoneLive(polls, j, n)
  {
    CrashedFollows(cfg, polls, n);
    if StillCrashed(polls, n) {
      var c := CrashedWhileIdled(polls, n - 1);
      IdledSince(polls, c);
      var j :| 0 <= j < c && IdleSeen(polls, j) && NoneLive(polls, j, c);
      assert NoneLive(polls, j, n);
    }
    if j, c :| 0 <= j < c < n && IdleSeen(polls, j) && CrashSeen(polls, c) && NoneLive(polls, j, n) {
      assert NoneLive(polls, j, c);
      IdledSince(polls, c);
      MaskedStays(polls, c, n);
    }
  }

  // ----- whose alert it is -----

  /** Some alerts, in worker order: those that the workers' own polls raise at sweep i, and no others. */
  ghost predicate RaisedAt(cfg: Config, sweeps: seq<Sweep>, i: nat, alerts: seq<Alert>)
    requires WellFormed(sweeps) && i < |sweeps|
  {
    && (forall w: nat, kind :: Alert(w, kind) in alerts <==>
          w < 3 && AlertAt(cfg, PollsOf(sweeps, w), i) == Some(kind))
    && InWorkerOrder(alerts)
  }

  ghost predicate InWorkerOrder(alerts: seq<Alert>) {
    forall p, q | 0 <= p < q < |alerts| :: alerts[p].worker < alerts[q].worker
  }

  lemma {:induction false} SweepNames(cfg: Config, sweeps: seq<Sweep>, i: nat, n: nat)
    requires WellFormed(sweeps) && i < |sweeps| && n <= 3
    ensures forall w: nat, kind :: Alert(w, kind) in SweepAlerts(cfg, sweeps, i, n) <==>
              w < n && AlertAt(cfg, PollsOf(sweeps, w), i) == Some(kind)
    ensures forall a | a in SweepAlerts(cfg, sweeps, i, n) :: a.worker < n
    ensures InWorkerOrder(SweepAlerts(cfg, sweeps, i, n))
    decreases n
  {
    if n > 0 {
      SweepNames(cfg, sweeps, i, n - 1);
      OneMoreName(SweepAlerts(cfg, sweeps, i, n - 1), n - 1, AlertAt(cfg, PollsOf(sweeps, n - 1), i));
    }
  }

  lemma OneMoreName(alerts: seq<Alert>, n: nat, own: Option<AlertKind>)
    requires InWorkerOrder(alerts) && forall a | a in alerts :: a.worker < n
    ensures var alerts' := alerts + (if own.Some? then [Alert(n, own.value)] else []);
      && InWorkerOrder(alerts')
      && (forall w: nat, kind | w != n :: Alert(w, kind) in alerts' <==> Alert(w, kind) in alerts)
      && (forall kind :: Alert(n, kind) in alerts' <==> own == Some(kind))
      && (forall a | a in alerts' :: a.worker < n + 1)
  {
    var alerts' := alerts + (if own.Some? then [Alert(n, own.value)] else []);
    forall p, q | 0 <= p < q < |alerts'|
      ensures alerts'[p].worker < alerts'[q].worker
    {
      assert alerts'[p] in alerts;
    }
  }

  lemma {:induction false} EmittedGrows(cfg: Config, sweeps: seq<Sweep>, i: nat, n: nat)
    requires WellFormed(sweeps) && i <= n <= |sweeps|
    ensures Emitted(cfg, sweeps, i) <= Emitted(cfg, sweeps, n)
    decreases n
  {
    if i < n {
      EmittedGrows(cfg, sweeps, i, n - 1);
    }
  }

  /**
   What the loop emits is one block of alerts for each sweep, and every alert carries the index of the worker
   whose own polls raised it.
   */
  lemma EmittedNames(cfg: Config, sweeps: seq<Sweep>, i: nat, n: nat)
    requires WellFormed(sweeps) && i < n <= |sweeps|
    ensures var all, from, to := Emitted(cfg, sweeps, n), |Emitted(cfg, sweeps, i)|, |Emitted(cfg, sweeps, i + 1)|;
      from <= to <= |all| && RaisedAt(cfg, sweeps, i, all[from..to])
  {
    SweepNames(cfg, sweeps, i, 3);
    EmittedGrows(cfg, sweeps, i + 1, n);
    Block(Emitted(cfg, sweeps, i), SweepAlerts(cfg, sweeps, i, 3), Emitted(cfg, sweeps, n));
  }

  lemma Block(before: seq<Alert>, block: seq<Alert>, all: seq<Alert>)
    requires before + block <= all
    ensures all[|before|..|before + block|] == block
  {
    assert all[..|before + block|] == before + block;
  }

  // ----- polls that reach a stale report -----

  function RunningAt(tail: Word, epoch: Word, now: int): Poll {
    Poll(Observation(RUNNING, tail, true, epoch), now)
  }

  lemma RunningIsLive(tail: Word, epoch: Word)
    ensures Observation(RUNNING, tail, true, epoch).LivePoll()
  {
    assert And(1, 1) == 1;
  }

  /** Running, then frozen past the handoff grace, then seen on a new epoch: reported stalled without a stall. */
  lemma StaleStallHappens(cfg: Config) returns (polls: seq<Poll>)
    ensures After(cfg, polls).state == Stalled && !After(cfg, polls).stalledAlerted
    ensures Live(polls, |polls| - 1)
  {
    var a, b, c := RunningAt(0, 2, 0), RunningAt(0, 2, cfg.handoffGrace + 1), RunningAt(0, 4, cfg.handoffGrace + 2);
    polls := [a, b, c];
    RunningIsLive(0, 2);
    RunningIsLive(0, 4);
    assert polls[..0] == [] && polls[..1] == [a] && polls[..2] == [a, b] && polls[..3] == polls;
    AfterSnoc(cfg, polls, 0);
    AfterSnoc(cfg, polls, 1);
    AfterSnoc(cfg, polls, 2);
    var k0 := After(cfg, polls[..1]);
    assert k0.runningAnnounced && k0.lastAdvance == 0 && k0.lastTail == 0 && k0.episodeEpoch == 2;
    assert k0.awaitingFirstCommit && !k0.stalledAlerted && !k0.crashAlerted;
    var k1 := After(cfg, polls[..2]);
    assert k1.state == Stalled && k1.stalledAlerted && k1.runningAnnounced && k1.episodeEpoch == 2 && !k1.crashAlerted;
  }

  lemma FlagValues()
    ensures Observation(IDLE, 0, true, 2).IdlePoll() && Observation(CRASHED, 0, false, 2).CrashPoll()
  {
    assert And(2, 1) == 0 && And(2, 2) == 2 && And(4, 4) == 4;
  }

  function IdleAt(now: int): Poll {
    Poll(Observation(IDLE, 0, true, 2), now)
  }

  /** Idle, then crashed, then alive and idle again: reported as crashed, without an alert. */
  lemma IdleReportedCrashedHappens(cfg: Config) returns (polls: seq<Poll>)
    ensures |polls| == 3 && IdleSeen(polls, 2) && polls[2].obs.processAlive
    ensures After(cfg, polls).state == Crashed && AlertAt(cfg, polls, 2) == None
  {
    polls := [IdleAt(0), Poll(Observation(CRASHED, 0, false, 2), 1), IdleAt(2)];
    FlagValues();
    assert polls[..3] == polls && NoneLive(polls, 0, 3);
    IdleReportedCrashed(cfg, polls, 3);
    AlwaysFollows(cfg, polls, 2);
    AfterSnoc(cfg, polls, 2);
    AlertsAreDeserved(cfg, polls, 2, WorkerIdle);
    assert Idled(polls, 1) && Idled(polls, 2);
  }
}
