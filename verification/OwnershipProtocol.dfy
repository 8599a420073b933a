/**
 The ownership record of one logical ring: an even epoch and an owner word, read by a double check
 of the epoch and changed by a transfer that holds the epoch odd. Any number of readers, workers and
 transfers interleave, one atomic access per step.
 */
module OwnershipProtocol {
  import opened Words

  const MAX_WORKERS: nat := 3

  /** A record of who owns the ring: a physical worker, its process generation, and since which epoch. */
  datatype Token = Token(owner: nat, generation: nat, epoch: Word)

  // ----- the packed owner word -----

  type Half = x: nat | x < TWO_TO_THE_32

  function Pack(owner: Half, generation: Half): Word {
    owner + generation * TWO_TO_THE_32
  }

  function UnpackOwner(word: Word): Half {
    word % TWO_TO_THE_32
  }

  function UnpackGeneration(word: Word): Half {
    word / TWO_TO_THE_32
  }

  lemma UnpackPack(owner: Half, generation: Half)
    ensures UnpackOwner(Pack(owner, generation)) == owner
    ensures UnpackGeneration(Pack(owner, generation)) == generation
  {
  }

  lemma PackUnpack(word: Word)
    ensures Pack(UnpackOwner(word), UnpackGeneration(word)) == word
  {
  }

  /** The words that read_ownership does not reject. */
  predicate ValidWord(word: Word) {
    UnpackOwner(word) < MAX_WORKERS && UnpackGeneration(word) != 0
  }

  function TokenOf(word: Word, epoch: Word): Token {
    Token(UnpackOwner(word), UnpackGeneration(word), epoch)
  }

  // ----- state -----

  /** Why a process reads the record: to look, or as a worker's check before each publication. */
  datatype Use = Inspect | Guard(token: Token)

  datatype Change = Change(expected: Token, owner: Half, generation: Half)

  datatype Pc =
    | Idle
    | ReadEpoch(use: Use)                        // about to load the epoch
    | ReadWord(use: Use, e: Word)                // about to load the owner word
    | ReadAgain(use: Use, e: Word, w: Word)      // about to load the epoch again
    | Publish(token: Token)                      // the check passed; about to push one record
    | Stopped                                    // the worker found its ownership gone
    | LoadEpoch(change: Change)                  // a transfer about to load the epoch
    | SwapEpoch(change: Change)                  // about to swap the epoch to odd
    | SwapWord(change: Change)                   // holds the odd epoch, about to swap the word
    | Restore(change: Change)                    // the word did not match, about to restore the epoch
    | Release(change: Change)                    // the word is swapped, about to store the next epoch
  {
    predicate Holds() { SwapWord? || Restore? || Release? }
  }

  datatype State = State(
    epoch: Word,
    word: Word,
    pcs: map<nat, Pc>,
    history: seq<Word>,          // the owner words so far: the k-th is that of epoch 2k + 2
    returned: set<Token>,        // every token a read has returned
    wins: seq<Token>,            // the expected tokens of the successful transfers
    late: map<nat, nat>)         // per worker, records published under a superseded token
  {
    function PcOf(t: nat): Pc { if t in pcs then pcs[t] else Idle }
    function Late(t: nat): nat { if t in late then late[t] else 0 }
    function Move(t: nat, pc: Pc): State { this.(pcs := pcs[t := pc]) }

    /** The epoch of the last owner word installed. */
    function Current(): nat { 2 * |history| }
  }

  ghost predicate Initial(s: State) {
    && s.epoch == 2 && ValidWord(s.word) && s.history == [s.word]
    && s.pcs == map[] && s.returned == {} && s.wins == [] && s.late == map[]
  }

  // ----- steps -----

  datatype Action =
    | StartRead(t: nat)
    | StartWorker(t: nat, token: Token)
    | StartTransfer(t: nat, change: Change)
    | Advance(t: nat)

  /** The argument checks a transfer passes before it touches the record. */
  predicate Admissible(c: Change) {
    && c.owner < MAX_WORKERS && c.generation != 0
    && c.expected.epoch % 2 == 0 && c.expected.epoch <= TWO_TO_THE_64 - 3
    && c.expected.owner < TWO_TO_THE_32 && c.expected.generation < TWO_TO_THE_32
  }

  predicate Enabled(s: State, a: Action) {
    match a
    case StartRead(t) => s.PcOf(t) == Idle
    case StartWorker(t, token) => t !in s.pcs
    case StartTransfer(t, change) => s.PcOf(t) == Idle && Admissible(change)
    case Advance(t) => s.PcOf(t) != Idle && s.PcOf(t) != Stopped
  }

  /** What a reader does once both loads of the epoch agreed, or failed to. */
  function Finish(s: State, t: nat, use: Use, found: bool, token: Token): State {
    match use
    case Inspect => if found then s.Move(t, Idle).(returned := s.returned + {token}) else s.Move(t, Idle)
    case Guard(mine) =>
      if found && token == mine then s.Move(t, Publish(mine)).(returned := s.returned + {token})
      else if found then s.Move(t, Stopped).(returned := s.returned + {token})
      else s.Move(t, Stopped)
  }

  function Step(s: State, t: nat): State {
    match s.PcOf(t)
    case Idle => s
    case Stopped => s
    case ReadEpoch(use) =>
      if s.epoch % 2 != 0 then Finish(s, t, use, false, Token(0, 0, 0)) else s.Move(t, ReadWord(use, s.epoch))
    case ReadWord(use, e) => s.Move(t, ReadAgain(use, e, s.word))
    case ReadAgain(use, e, w) =>
      if s.epoch != e then s.Move(t, ReadEpoch(use))
      else Finish(s, t, use, e != 0 && ValidWord(w), TokenOf(w, e))
    case Publish(token) =>
      s.Move(t, ReadEpoch(Guard(token)))
       .(late := if token.epoch < s.Current() then s.late[t := s.Late(t) + 1] else s.late)
    case LoadEpoch(c) => if s.epoch != c.expected.epoch then s.Move(t, Idle) else s.Move(t, SwapEpoch(c))
    case SwapEpoch(c) =>
      if s.epoch == c.expected.epoch then s.Move(t, SwapWord(c)).(epoch := Add(c.expected.epoch, 1))
      else s.Move(t, Idle)
    case SwapWord(c) =>
      if c.expected.owner < TWO_TO_THE_32 && c.expected.generation < TWO_TO_THE_32
         && s.word == Pack(c.expected.owner, c.expected.generation) then
        var word := Pack(c.owner, c.generation);
        s.Move(t, Release(c)).(word := word, history := s.history + [word], wins := s.wins + [c.expected])
      else s.Move(t, Restore(c))
    case Restore(c) => s.Move(t, Idle).(epoch := c.expected.epoch)
    case Release(c) => s.Move(t, Idle).(epoch := Add(c.expected.epoch, 2))
  }

  function Apply(s: State, a: Action): State {
    match a
    case StartRead(t) => s.Move(t, ReadEpoch(Inspect))
    case StartWorker(t, token) => s.Move(t, ReadEpoch(Guard(token)))
    case StartTransfer(t, change) => s.Move(t, LoadEpoch(change))
    case Advance(t) => Step(s, t)
  }

  // ----- the invariant -----

  ghost predicate Recorded(s: State, token: Token) {
    && token.epoch % 2 == 0 && 2 <= token.epoch <= s.Current()
    && TokenOf(s.history[token.epoch / 2 - 1], token.epoch) == token
  }

  ghost predicate PcOk(s: State, t: nat, pc: Pc)
    requires |s.history| > 0
  {
    var last := s.history[|s.history| - 1];
    match pc
    case ReadWord(_, e) => e % 2 == 0 && e <= s.Current()
    case ReadAgain(_, e, w) => e % 2 == 0 && e <= s.Current() && (e == s.Current() ==> w == last)
    case LoadEpoch(c) => Admissible(c)
    case SwapEpoch(c) => Admissible(c)
    case SwapWord(c) => Admissible(c) && c.expected.epoch == s.Current() && s.epoch == s.Current() + 1
    case Restore(c) => Admissible(c) && c.expected.epoch == s.Current() && s.epoch == s.Current() + 1
    case Release(c) => Admissible(c) && c.expected.epoch + 2 == s.Current() && s.epoch == s.Current() - 1
    case _ => true
  }

  /** A worker that already published late is outside the window in which it could publish again. */
  ghost predicate LateOk(s: State, t: nat) {
    && s.Late(t) <= 1
    && (s.PcOf(t).Publish? ==> s.Late(t) == 0)
    && (s.Late(t) == 1 && (s.PcOf(t).ReadEpoch? || s.PcOf(t).ReadWord? || s.PcOf(t).ReadAgain?) ==>
          s.PcOf(t).use.Guard? && s.PcOf(t).use.token.epoch < s.Current())
    && (t !in s.pcs ==> s.Late(t) == 0)
    && (s.PcOf(t) == Idle || s.PcOf(t).LoadEpoch? || s.PcOf(t).SwapEpoch? || s.PcOf(t).Holds() ==> s.Late(t) == 0)
  }

  ghost predicate Inv(s: State) {
    && |s.history| > 0
    && s.word == s.history[|s.history| - 1]
    && (forall w | w in s.history :: ValidWord(w))
    && (s.epoch == s.Current() || s.epoch == s.Current() + 1 || s.epoch == s.Current() - 1)
    && (forall t | t in s.pcs :: PcOk(s, t, s.pcs[t]))
    && (forall t, u | t in s.pcs && u in s.pcs && s.pcs[t].Holds() && s.pcs[u].Holds() :: t == u)
    && (forall token | token in s.returned :: Recorded(s, token))
    && |s.wins| == |s.history| - 1
    && (forall i | 0 <= i < |s.wins| :: s.wins[i].epoch == 2 * i + 2 && Recorded(s, s.wins[i]))
    && (forall t :: LateOk(s, t))
  }

  lemma InitialInv(s: State)
    requires Initial(s)
    ensures Inv(s)
  {
  }

  // ----- every step keeps the invariant -----

  /**
   A step that leaves the record alone, moves t without giving it the odd epoch, and returns only what is recorded.
   */
  lemma QuietKeeps(s: State, s': State, t: nat)
    requires Inv(s) && t in s'.pcs
    requires s' == s.(pcs := s.pcs[t := s'.pcs[t]], returned := s'.returned, late := s'.late)
    requires PcOk(s, t, s'.pcs[t])
    requires s'.pcs[t].Holds() ==> s.PcOf(t).Holds()
    requires forall token | token in s'.returned :: token in s.returned || Recorded(s, token)
    requires LateOk(s', t)
    requires forall u | u != t :: s'.Late(u) == s.Late(u)
    ensures Inv(s')
  {
    forall u | u in s'.pcs
      ensures PcOk(s', u, s'.pcs[u])
    {
      if u != t {
        assert PcOk(s, u, s.pcs[u]);
      }
    }
    forall u
      ensures LateOk(s', u)
    {
      assert LateOk(s, u);
    }
    forall token | token in s'.returned
      ensures Recorded(s', token)
    {
    }
  }

  /** While the epoch is even nobody holds it. */
  lemma EvenMeansFree(s: State)
    requires Inv(s) && s.epoch % 2 == 0
    ensures s.epoch == s.Current()
    ensures forall t | t in s.pcs :: !s.pcs[t].Holds()
  {
    assert forall t | t in s.pcs :: PcOk(s, t, s.pcs[t]);
  }

  /** Taking or giving back the odd epoch touches no reader's knowledge. */
  lemma EpochKeeps(s: State, s': State, t: nat)
    requires Inv(s) && t in s'.pcs
    requires s' == s.(pcs := s.pcs[t := s'.pcs[t]], epoch := s'.epoch)
    requires forall u | u in s.pcs && u != t :: !s.pcs[u].Holds()
    requires s'.epoch == s.Current() || s'.epoch == s.Current() + 1 || s'.epoch == s.Current() - 1
    requires PcOk(s', t, s'.pcs[t])
    requires LateOk(s', t)
    ensures Inv(s')
  {
    forall u | u in s'.pcs
      ensures PcOk(s', u, s'.pcs[u])
    {
      if u != t {
        assert PcOk(s, u, s.pcs[u]);
      }
    }
    forall u
      ensures LateOk(s', u)
    {
      assert LateOk(s, u);
    }
    assert forall token | Recorded(s, token) :: Recorded(s', token);
  }

  lemma OnlyHolder(s: State, t: nat)
    requires Inv(s) && s.PcOf(t).Holds()
    ensures forall u | u in s.pcs && u != t :: !s.pcs[u].Holds()
    ensures PcOk(s, t, s.pcs[t])
  {
  }

  /** Installing a new word opens the next epoch; everything known about earlier epochs stays. */
  lemma InstallKeeps(s: State, s': State, t: nat, c: Change)
    requires Inv(s) && s.PcOf(t) == SwapWord(c) && s.word == Pack(c.expected.owner, c.expected.generation)
    requires c.expected.owner < TWO_TO_THE_32 && c.expected.generation < TWO_TO_THE_32
    requires s' == s.Move(t, Release(c)).(word := Pack(c.owner, c.generation),
                     history := s.history + [Pack(c.owner, c.generation)], wins := s.wins + [c.expected])
    ensures Inv(s')
  {
    OnlyHolder(s, t);
    UnpackPack(c.owner, c.generation);
    UnpackPack(c.expected.owner, c.expected.generation);
    forall u | u in s'.pcs
      ensures PcOk(s', u, s'.pcs[u])
    {
      if u != t {
        assert PcOk(s, u, s.pcs[u]);
      }
    }
    forall u
      ensures LateOk(s', u)
    {
      assert LateOk(s, u);
    }
    forall token | Recorded(s, token)
      ensures Recorded(s', token)
    {
      assert s'.history[token.epoch / 2 - 1] == s.history[token.epoch / 2 - 1];
    }
    assert Recorded(s', c.expected);
  }

  /** A token read with the same even epoch before and after is the one on record for that epoch. */
  lemma ReadIsRecorded(s: State, t: nat)
    requires Inv(s) && s.PcOf(t).ReadAgain? && s.epoch == s.PcOf(t).e && s.epoch != 0
    ensures Recorded(s, TokenOf(s.PcOf(t).w, s.PcOf(t).e)) && s.PcOf(t).e == s.Current()
  {
    assert PcOk(s, t, s.pcs[t]);
    EvenMeansFree(s);
  }

  lemma ReadKeeps(s: State, t: nat)
    requires Inv(s) && (s.PcOf(t).ReadEpoch? || s.PcOf(t).ReadWord? || s.PcOf(t).ReadAgain?)
    ensures Inv(Step(s, t))
  {
    var pc := s.pcs[t];
    assert PcOk(s, t, pc) && LateOk(s, t);
    if pc.ReadEpoch? && s.epoch % 2 == 0 {
      EvenMeansFree(s);
    }
    if pc.ReadAgain? && s.epoch == pc.e && s.epoch != 0 {
      ReadIsRecorded(s, t);
    }
    QuietKeeps(s, Step(s, t), t);
  }

  lemma TransferKeeps(s: State, t: nat)
    requires Inv(s) && (s.PcOf(t).LoadEpoch? || s.PcOf(t).SwapEpoch? || s.PcOf(t).Holds())
    ensures Inv(Step(s, t))
  {
    var pc, s' := s.pcs[t], Step(s, t);
    assert PcOk(s, t, pc) && LateOk(s, t);
    if pc.SwapEpoch? && s.epoch == pc.change.expected.epoch {
      EvenMeansFree(s);
      assert Add(s.epoch, 1) == s.epoch + 1;
      EpochKeeps(s, s', t);
    } else if pc.Restore? || pc.Release? {
      OnlyHolder(s, t);
      assert Add(pc.change.expected.epoch, 2) == pc.change.expected.epoch + 2;
      EpochKeeps(s, s', t);
    } else if pc.SwapWord? && s'.word != s.word {
      InstallKeeps(s, s', t, pc.change);
    } else if pc.SwapWord? && s'.history != s.history {
      InstallKeeps(s, s', t, pc.change);
    } else {
      QuietKeeps(s, s', t);
    }
  }

  lemma PublishKeeps(s: State, t: nat)
    requires Inv(s) && s.PcOf(t).Publish?
    ensures Inv(Step(s, t))
  {
    assert LateOk(s, t);
    QuietKeeps(s, Step(s, t), t);
  }

  lemma StepKeeps(s: State, a: Action)
    requires Inv(s) && Enabled(s, a)
    ensures Inv(Apply(s, a))
  {
    match a
    case StartRead(t) => assert LateOk(s, t); QuietKeeps(s, Apply(s, a), t);
    case StartWorker(t, _) => assert LateOk(s, t); QuietKeeps(s, Apply(s, a), t);
    case StartTransfer(t, _) => assert LateOk(s, t); QuietKeeps(s, Apply(s, a), t);
    case Advance(t) =>
      match s.PcOf(t)
      case ReadEpoch(_) => ReadKeeps(s, t);
      case ReadWord(_, _) => ReadKeeps(s, t);
      case ReadAgain(_, _, _) => ReadKeeps(s, t);
      case Publish(_) => PublishKeeps(s, t);
      case _ => TransferKeeps(s, t);
  }

  // ----- runs -----

  ghost predicate Executes(s: State, actions: seq<Action>, s': State)
    decreases |actions|
  {
    if actions == [] then s' == s
    else Enabled(s, actions[0]) && Executes(Apply(s, actions[0]), actions[1..], s')
  }

  ghost predicate Reachable(s: State) {
    exists start, actions :: Initial(start) && Executes(start, actions, s)
  }

  /** The history of a record only grows. */
  lemma StepExtends(s: State, a: Action)
    requires Enabled(s, a)
    ensures s.history <= Apply(s, a).history
  {
  }

  lemma {:induction false} RunKeeps(s: State, actions: seq<Action>, s': State)
    requires Inv(s) && Executes(s, actions, s')
    ensures Inv(s') && s.history <= s'.history
    decreases |actions|
  {
    if actions != [] {
      StepKeeps(s, actions[0]);
      StepExtends(s, actions[0]);
      RunKeeps(Apply(s, actions[0]), actions[1..], s');
    }
  }

  lemma ReachableInv(s: State)
    requires Reachable(s)
    ensures Inv(s)
  {
    var start, actions :| Initial(start) && Executes(start, actions, s);
    InitialInv(start);
    RunKeeps(start, actions, s);
  }

  // ----- what readers, transfers and workers may rely on -----

  /** Reads never return two owners for one epoch, nor anything but the record installed for that epoch. */
  lemma OneOwnerPerEpoch(s: State, a: Token, b: Token)
    requires Reachable(s) && a in s.returned && b in s.returned && a.epoch == b.epoch
    ensures a == b
    ensures a.epoch % 2 == 0 && 2 <= a.epoch <= s.Current()
    ensures TokenOf(s.history[a.epoch / 2 - 1], a.epoch) == a && a.owner < MAX_WORKERS && a.generation != 0
  {
    ReachableInv(s);
    assert Recorded(s, a) && Recorded(s, b);
    assert s.history[a.epoch / 2 - 1] in s.history;
  }

  /** No two transfers succeed from the same token, and each that does started from the record of its epoch. */
  lemma OneTransferPerToken(s: State, i: nat, j: nat)
    requires Reachable(s) && i < j < |s.wins|
    ensures |s.history| == |s.wins| + 1
    ensures s.wins[i].epoch < s.wins[j].epoch
    ensures TokenOf(s.history[i], s.wins[i].epoch) == s.wins[i] && s.wins[i].epoch == 2 * i + 2
  {
    ReachableInv(s);
    assert Recorded(s, s.wins[i]);
  }

  /** A check passes exactly when, at its last load, the epoch is unchanged and the token is the current record. */
  lemma CheckPasses(s: State, t: nat, token: Token)
    requires Reachable(s) && s.PcOf(t).ReadAgain? && s.PcOf(t).use == Guard(token)
    ensures |s.history| > 0
    ensures Step(s, t).PcOf(t) == Publish(token) <==>
            && s.epoch == s.PcOf(t).e
            && token == TokenOf(s.history[|s.history| - 1], s.epoch)
  {
    ReachableInv(s);
    assert PcOk(s, t, s.pcs[t]);
    if s.epoch == s.pcs[t].e {
      EvenMeansFree(s);
      assert s.history[|s.history| - 1] in s.history;
    }
  }

  /** Once a transfer has superseded a token, no check of it passes any more, however the run goes on. */
  lemma SupersededStaysInvalid(s: State, actions: seq<Action>, s': State, t: nat, token: Token)
    requires Reachable(s) && token.epoch < s.Current() && Executes(s, actions, s')
    requires s'.PcOf(t).ReadAgain? && s'.PcOf(t).use == Guard(token)
    ensures Step(s', t).PcOf(t) != Publish(token)
  {
    ReachableInv(s);
    RunKeeps(s, actions, s');
    assert PcOk(s', t, s'.pcs[t]);
    if s'.epoch == s'.pcs[t].e {
      EvenMeansFree(s');
    }
  }

  /** A worker publishes at most one record after a transfer has deposed it. */
  lemma AtMostOneLateRecord(s: State, t: nat)
    requires Reachable(s)
    ensures s.Late(t) <= 1
  {
    ReachableInv(s);
    assert LateOk(s, t);
  }

  // ----- what a call does that nobody disturbs -----

  lemma Chain(s: State, a: Action, rest: seq<Action>, s': State)
    requires Enabled(s, a) && Executes(Apply(s, a), rest, s')
    ensures Executes(s, [a] + rest, s')
  {
    assert ([a] + rest)[1..] == rest;
  }

  /** n steps of thread t. */
  function Steps(s: State, t: nat, n: nat): State
    decreases n
  {
    if n == 0 then s else Steps(Step(s, t), t, n - 1)
  }

  predicate Stands(pc: Pc) {
    pc == Idle || pc == Stopped || pc.Publish?
  }

  /** Thread t runs alone until its call is over, at most n steps. */
  lemma {:induction false} RunsAlone(s: State, t: nat, n: nat) returns (actions: seq<Action>)
    requires Stands(Steps(s, t, n).PcOf(t))
    requires forall k | 0 <= k < n :: !Stands(Steps(s, t, k).PcOf(t))
    ensures |actions| == n && (forall a | a in actions :: a == Advance(t)) && Executes(s, actions, Steps(s, t, n))
    decreases n
  {
    if n == 0 {
      actions := [];
    } else {
      assert !Stands(Steps(s, t, 0).PcOf(t));
      forall k | 0 <= k < n - 1
        ensures !Stands(Steps(Step(s, t), t, k).PcOf(t))
      {
        assert !Stands(Steps(s, t, k + 1).PcOf(t));
      }
      var rest := RunsAlone(Step(s, t), t, n - 1);
      actions := [Advance(t)] + rest;
      Chain(s, Advance(t), rest, Steps(s, t, n));
    }
  }

  /** What a settled record says: an even epoch above 0, an owner among the three, and a generation above 0. */
  predicate Says(s: State, token: Token) {
    && s.epoch % 2 == 0 && s.epoch > 0 && token.epoch == s.epoch
    && s.word == token.owner + 0x1_0000_0000 * token.generation
    && token.owner < 3 && token.generation > 0
  }

  lemma SaysOne(s: State)
    ensures (s.epoch % 2 == 0 && s.epoch != 0 && ValidWord(s.word)) <==> exists token :: Says(s, token)
    ensures forall token | Says(s, token) :: token == TokenOf(s.word, s.epoch)
  {
    forall token | Says(s, token)
      ensures token == TokenOf(s.word, s.epoch) && ValidWord(s.word)
    {
      DigitsUnique(token.owner, token.generation, s.word);
    }
    if s.epoch % 2 == 0 && s.epoch != 0 && ValidWord(s.word) {
      assert Says(s, TokenOf(s.word, s.epoch));
    }
  }

  lemma DigitsUnique(owner: nat, generation: nat, word: Word)
    requires word == owner + 0x1_0000_0000 * generation && owner < 0x1_0000_0000
    ensures UnpackOwner(word) == owner && UnpackGeneration(word) == generation
  {
  }

  /** Nobody but t has moved. */
  ghost predicate OnlyMoved(s: State, t: nat, s': State) {
    forall u | u != t :: s'.PcOf(u) == s.PcOf(u)
  }

  /** A read that nobody disturbs ends, and returns what the record says if it is settled and says anything. */
  lemma LoneRead(s: State, t: nat) returns (actions: seq<Action>, s': State)
    requires s.PcOf(t) == Idle
    ensures Executes(s, actions, s') && |actions| <= 4 && s'.PcOf(t) == Idle && OnlyMoved(s, t, s')
    ensures s' == s.(pcs := s'.pcs, returned := s'.returned)
    ensures forall token :: token in s'.returned <==> token in s.returned || Says(s, token)
  {
    var s1 := Apply(s, StartRead(t));
    SaysOne(s);
    if s.epoch % 2 != 0 {
      s' := Step(s1, t);
      actions := RunsAlone(s1, t, 1);
      Chain(s, StartRead(t), actions, s');
      actions := [StartRead(t)] + actions;
    } else {
      s' := ReadSteps(s1, t, Inspect);
      actions := RunsAlone(s1, t, 3);
      Chain(s, StartRead(t), actions, s');
      actions := [StartRead(t)] + actions;
    }
  }

  /** The three loads of an undisturbed read of a settled record. */
  lemma ReadSteps(s: State, t: nat, use: Use) returns (s': State)
    requires s.PcOf(t) == ReadEpoch(use) && s.epoch % 2 == 0
    ensures !Stands(Steps(s, t, 0).PcOf(t)) && !Stands(Steps(s, t, 1).PcOf(t)) && !Stands(Steps(s, t, 2).PcOf(t))
    ensures s' == Steps(s, t, 3)
    ensures s' == Finish(s.Move(t, ReadWord(use, s.epoch)).Move(t, ReadAgain(use, s.epoch, s.word)), t, use,
                         s.epoch != 0 && ValidWord(s.word), TokenOf(s.word, s.epoch))
  {
    var s1 := Step(s, t);
    var s2 := Step(s1, t);
    s' := Step(s2, t);
    FourSteps(s, t, s1, s2, s', Step(s', t));
  }

  lemma FourSteps(s: State, t: nat, s1: State, s2: State, s3: State, s4: State)
    requires s1 == Step(s, t) && s2 == Step(s1, t) && s3 == Step(s2, t) && s4 == Step(s3, t)
    ensures Steps(s, t, 0) == s && Steps(s, t, 1) == s1 && Steps(s, t, 2) == s2
    ensures Steps(s, t, 3) == s3 && Steps(s, t, 4) == s4
  {
    StepsOnce(s3, t);
    assert Steps(s2, t, 2) == Steps(s3, t, 1) && Steps(s2, t, 1) == Steps(s3, t, 0);
    assert Steps(s1, t, 3) == Steps(s2, t, 2) && Steps(s1, t, 2) == Steps(s2, t, 1) && Steps(s1, t, 1) == s2;
  }

  lemma StepsOnce(s: State, t: nat)
    ensures Steps(s, t, 0) == s && Steps(s, t, 1) == Step(s, t)
  {
  }

  /** A worker's check that nobody disturbs passes exactly if the record says its token; otherwise the worker stops. */
  lemma LoneCheck(s: State, t: nat, mine: Token) returns (actions: seq<Action>, s': State)
    requires t !in s.pcs
    ensures Executes(s, actions, s') && |actions| <= 4 && OnlyMoved(s, t, s')
    ensures s' == s.(pcs := s'.pcs, returned := s'.returned)
    ensures s'.PcOf(t) == if Says(s, mine) then Publish(mine) else Stopped
  {
    var s1 := Apply(s, StartWorker(t, mine));
    SaysOne(s);
    if s.epoch % 2 != 0 {
      s' := Step(s1, t);
      actions := RunsAlone(s1, t, 1);
      Chain(s, StartWorker(t, mine), actions, s');
      actions := [StartWorker(t, mine)] + actions;
    } else {
      s' := ReadSteps(s1, t, Guard(mine));
      actions := RunsAlone(s1, t, 3);
      Chain(s, StartWorker(t, mine), actions, s');
      actions := [StartWorker(t, mine)] + actions;
    }
  }

  /** A transfer that nobody disturbs succeeds exactly if epoch and word are the expected ones. */
  predicate Transfers(s: State, c: Change) {
    s.epoch == c.expected.epoch && s.word == c.expected.owner + 0x1_0000_0000 * c.expected.generation
  }

  lemma LoneTransfer(s: State, t: nat, c: Change) returns (actions: seq<Action>, s': State)
    requires s.PcOf(t) == Idle && Admissible(c)
    ensures Executes(s, actions, s') && |actions| <= 5 && s'.PcOf(t) == Idle && OnlyMoved(s, t, s')
    ensures s'.returned == s.returned && s'.late == s.late
    ensures if Transfers(s, c) then
              && s'.epoch == s.epoch + 2 && s'.word == c.owner + 0x1_0000_0000 * c.generation
              && s'.history == s.history + [s'.word] && s'.wins == s.wins + [c.expected]
            else s'.epoch == s.epoch && s'.word == s.word && s'.history == s.history && s'.wins == s.wins
  {
    var s1 := Apply(s, StartTransfer(t, c));
    var n;
    n, s' := TransferSteps(s1, t, c);
    actions := RunsAlone(s1, t, n);
    Chain(s, StartTransfer(t, c), actions, s');
    actions := [StartTransfer(t, c)] + actions;
  }

  lemma TransferSteps(s: State, t: nat, c: Change) returns (n: nat, s': State)
    requires s.PcOf(t) == LoadEpoch(c) && Admissible(c)
    ensures n <= 4 && s' == Steps(s, t, n) && s'.PcOf(t) == Idle
    ensures forall k | 0 <= k < n :: !Stands(Steps(s, t, k).PcOf(t))
    ensures s'.returned == s.returned && s'.late == s.late && OnlyMoved(s, t, s')
    ensures if Transfers(s, c) then
              && s'.epoch == s.epoch + 2 && s'.word == c.owner + 0x1_0000_0000 * c.generation
              && s'.history == s.history + [s'.word] && s'.wins == s.wins + [c.expected]
            else s'.epoch == s.epoch && s'.word == s.word && s'.history == s.history && s'.wins == s.wins
  {
    var s1 := Step(s, t);
    if s.epoch != c.expected.epoch {
      n, s' := 1, s1;
      StepsOnce(s, t);
    } else {
      var s2 := Step(s1, t);
      var s3 := Step(s2, t);
      n, s' := 4, Step(s3, t);
      FourSteps(s, t, s1, s2, s3, s');
      SwapsEpoch(s, t, c);
      SwapsWord(s2, t, c);
    }
  }

  lemma SwapsEpoch(s: State, t: nat, c: Change)
    requires s.PcOf(t) == LoadEpoch(c) && Admissible(c) && s.epoch == c.expected.epoch
    ensures var s1 := Step(s, t);
      s1 == s.Move(t, SwapEpoch(c)) && Step(s1, t) == s1.Move(t, SwapWord(c)).(epoch := s.epoch + 1)
  {
  }

  lemma SwapsWord(s: State, t: nat, c: Change)
    requires s.PcOf(t) == SwapWord(c) && Admissible(c)
    ensures var s1 := Step(s, t);
      var s2 := Step(s1, t);
      && !Stands(s1.PcOf(t)) && s2.PcOf(t) == Idle
      && if s.word == c.expected.owner + 0x1_0000_0000 * c.expected.generation then
           var word := c.owner + 0x1_0000_0000 * c.generation;
           && word < TWO_TO_THE_64
           && s2 == s.(pcs := s.pcs[t := Release(c)][t := Idle], epoch := c.expected.epoch + 2, word := word,
                       history := s.history + [word], wins := s.wins + [c.expected])
         else s2 == s.(pcs := s.pcs[t := Restore(c)][t := Idle], epoch := c.expected.epoch)
  {
  }
}
