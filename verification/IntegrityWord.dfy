/**
 The region's integrity word: a checksum of the headers and the global sequence number, which any
 number of committers refresh with a compare-and-swap loop.
 */
module IntegrityWord {
  import opened Words
  import opened Crc32c

  // ----- the hash -----

  const SEQ_BYTES: nat := 8

  /** The k low bytes of x, least significant first. */
  function LittleEndian(x: nat, k: nat): (r: seq<Byte>)
    ensures |r| == k
  {
    if k == 0 then [] else [x % 256] + LittleEndian(x / 256, k - 1)
  }

  function IntegrityAt(headers: seq<Byte>, globalSeq: Word): Word32 {
    Finalize(BitwiseUpdate(BitwiseUpdate(INITIAL_STATE, headers), LittleEndian(globalSeq, SEQ_BYTES)))
  }

  lemma {:induction false} LittleEndianByte(x: nat, i: nat, k: nat)
    requires i < k
    ensures LittleEndian(x, k)[i] == Above(x, i) % 256
    decreases i
  {
    if i > 0 {
      LittleEndianByte(x / 256, i - 1, k - 1);
    }
  }

  lemma {:induction false} AboveStep(x: nat, i: nat)
    ensures Above(x, i + 1) == Above(x, i) / 256
    decreases i
  {
    if i > 0 {
      AboveStep(x / 256, i - 1);
    }
  }

  /** The region's hash as it is computed: the headers, then the sequence number's bytes one by one. */
  method RegionIntegrityAt(table: array<Word32>, headers: seq<Byte>, globalSeq: Word) returns (word: Word32)
    requires IsCrcTable(table[..])
    ensures word == IntegrityAt(headers, globalSeq)
  {
    var state := TableStep(table, INITIAL_STATE, headers);
    var seqBytes, rest: nat := [], globalSeq;
    for i := 0 to SEQ_BYTES
      invariant rest == Above(globalSeq, i) && |seqBytes| == i
      invariant forall j | 0 <= j < i :: seqBytes[j] == LittleEndian(globalSeq, SEQ_BYTES)[j]
    {
      LittleEndianByte(globalSeq, i, SEQ_BYTES);
      AboveStep(globalSeq, i);
      seqBytes, rest := seqBytes + [rest % 256], rest / 256;
    }
    assert seqBytes == LittleEndian(globalSeq, SEQ_BYTES);
    state := TableStep(table, state, seqBytes);
    XorBound32(state, XOR_OUT);
    word := Xor(state, XOR_OUT);
  }

  /** What is left of x after its k low bytes. */
  function Above(x: nat, k: nat): nat {
    if k == 0 then x else Above(x / 256, k - 1)
  }

  lemma {:induction false} LittleEndianSplit(x: nat, j: nat, k: nat)
    ensures LittleEndian(x, j + k) == LittleEndian(x, j) + LittleEndian(Above(x, j), k)
    decreases j
  {
    if j > 0 {
      LittleEndianSplit(x / 256, j - 1, k);
    }
  }

  lemma {:induction false} Rebuild(x: nat, k: nat)
    ensures x == WordOf(LittleEndian(x, k)) + Pow2(8 * k) * Above(x, k)
    decreases k
  {
    if k > 0 {
      var q := x / 256;
      Rebuild(q, k - 1);
      assert LittleEndian(x, k)[1..] == LittleEndian(q, k - 1);
      Pow2Byte(8 * (k - 1));
      var m, top := Pow2(8 * (k - 1)), Above(q, k - 1);
      assert 256 * (m * top) == (256 * m) * top;
    }
  }

  lemma HighWord(x: nat)
    ensures x == WordOf(LittleEndian(x, 4)) + TWO_TO_THE_32 * Above(x, 4)
    ensures Above(x, 4) == x / TWO_TO_THE_32
  {
    Rebuild(x, 4);
    Pow2Of32();
    WordOfBound4(LittleEndian(x, 4));
  }

  function FourDigits(a: nat, b: nat, c: nat, d: nat): nat {
    a + 0x100 * b + 0x1_0000 * c + 0x100_0000 * d
  }

  lemma WordOfFour(b: seq<Byte>)
    requires |b| == 4
    ensures WordOf(b) == FourDigits(b[0], b[1], b[2], b[3])
  {
    assert WordOf(b) == b[0] + 256 * WordOf(b[1..]);
    assert WordOf(b[1..]) == b[1] + 256 * WordOf(b[1..][1..]);
    assert WordOf(b[1..][1..]) == b[2] + 256 * WordOf(b[1..][1..][1..]);
    assert WordOf(b[1..][1..][1..]) == b[3] + 256 * WordOf([]);
  }

  /** The bytes are the digits of a 64-bit number in base 256, the least significant first. */
  lemma LittleEndianDigits(g: Word)
    ensures var b := LittleEndian(g, 8);
      && |b| == 8
      && g == FourDigits(b[0], b[1], b[2], b[3]) + 0x1_0000_0000 * FourDigits(b[4], b[5], b[6], b[7])
  {
    var low, high := LittleEndian(g, 4), LittleEndian(g / TWO_TO_THE_32, 4);
    LittleEndianSplit(g, 4, 4);
    HighWord(g);
    HighWord(g / TWO_TO_THE_32);
    WordOfFour(low);
    WordOfFour(high);
  }

  /** The word is the checksum of the headers followed by the sequence number. */
  lemma IntegrityIsChecksum(headers: seq<Byte>, g: Word)
    ensures IntegrityAt(headers, g) == Crc(headers + LittleEndian(g, 8))
  {
    BitwiseUpdateAppend(INITIAL_STATE, headers, LittleEndian(g, 8));
  }

  /** Damage to at most four consecutive header bytes always changes the word. */
  lemma HeaderDamageShows(headers: seq<Byte>, damaged: seq<Byte>, i: nat, g: Word)
    requires BurstAt(headers, damaged, i)
    ensures IntegrityAt(headers, g) != IntegrityAt(damaged, g)
  {
    var b := LittleEndian(g, 8);
    IntegrityIsChecksum(headers, g);
    IntegrityIsChecksum(damaged, g);
    assert BurstAt(headers + b, damaged + b, i) by {
      assert (headers + b)[..|headers|] == headers && (damaged + b)[..|headers|] == damaged;
    }
    CrcDetectsBurst(headers + b, damaged + b, i);
  }

  lemma IntegrityState(headers: seq<Byte>, g: Word)
    ensures BitwiseUpdate(BitwiseUpdate(INITIAL_STATE, headers), LittleEndian(g, SEQ_BYTES)) ==
            BitwiseUpdate(BitwiseUpdate(INITIAL_STATE, headers),
                          [] + LittleEndian(g, 4) + LittleEndian(g / TWO_TO_THE_32, 4))
  {
    LittleEndianSplit(g, 4, 4);
    HighWord(g);
    assert [] + LittleEndian(g, 4) == LittleEndian(g, 4);
  }

  /** Distinct sequence numbers that share their upper 32 bits have distinct integrity words. */
  lemma IntegrityInjective(headers: seq<Byte>, a: Word, b: Word)
    requires a / TWO_TO_THE_32 == b / TWO_TO_THE_32 && a != b
    ensures IntegrityAt(headers, a) != IntegrityAt(headers, b)
  {
    HighWord(a);
    HighWord(b);
    IntegrityState(headers, a);
    IntegrityState(headers, b);
    var state := BitwiseUpdate(INITIAL_STATE, headers);
    UpdateDetectsBurst(state, [], LittleEndian(a, 4), LittleEndian(b, 4), LittleEndian(a / TWO_TO_THE_32, 4));
    if IntegrityAt(headers, a) == IntegrityAt(headers, b) {
      XorInjective(BitwiseUpdate(state, LittleEndian(a, SEQ_BYTES)),
                   BitwiseUpdate(state, LittleEndian(b, SEQ_BYTES)), XOR_OUT);
    }
  }

  // ----- concurrent refreshes -----

  datatype Pc =
    | Idle
    | LoadWord(since: Word)                                            // about to load the integrity word
    | LoadSeq(since: Word, expected: Word32, covered: nat)             // about to load the sequence and compare
    | Swap(since: Word, expected: Word32, covered: nat, want: Word)    // about to swap in the hash of want

  datatype State = State(
    globalSeq: Word,
    word: Word32,
    pcs: map<nat, Pc>,
    covered: nat,         // the sequence number the word was computed from
    committers: seq<nat>) // by sequence number less one, the thread whose commit produced it
  {
    function PcOf(t: nat): Pc { if t in pcs then pcs[t] else Idle }
    function Move(t: nat, pc: Pc): State { this.(pcs := pcs[t := pc]) }
  }

  datatype Action =
    | Commit(t: nat)                    // the fetch_add of a push, which then refreshes
    | Refresh(t: nat)                   // a refresh on its own, as a transfer does
    | Advance(t: nat, spurious: bool)

  type Hash = Word -> Word32

  ghost predicate Initial(h: Hash, s: State) {
    s == State(0, h(0), map[], 0, [])
  }

  predicate Enabled(s: State, a: Action) {
    match a
    case Commit(t) => s.PcOf(t) == Idle && s.globalSeq + 1 < TWO_TO_THE_64
    case Refresh(t) => s.PcOf(t) == Idle
    case Advance(t, _) => s.PcOf(t) != Idle
  }

  function Apply(h: Hash, s: State, a: Action): State
    requires Enabled(s, a)
  {
    match a
    case Commit(t) =>
      s.Move(t, LoadWord(s.globalSeq + 1)).(globalSeq := s.globalSeq + 1, committers := s.committers + [t])
    case Refresh(t) => s.Move(t, LoadWord(s.globalSeq))
    case Advance(t, spurious) =>
      match s.PcOf(t)
      case Idle => s
      case LoadWord(since) => s.Move(t, LoadSeq(since, s.word, s.covered))
      case LoadSeq(since, expected, covered) =>
        if expected == h(s.globalSeq) then s.Move(t, Idle)
        else s.Move(t, Swap(since, expected, covered, s.globalSeq))
      case Swap(since, expected, covered, want) =>
        if s.word == expected && !spurious then s.Move(t, Idle).(word := h(want), covered := want)
        else s.Move(t, LoadWord(since))
  }

  /** The hash separates the sequence numbers that occur. */
  ghost predicate InjectiveUpTo(h: Hash, k: Word) {
    forall a: Word, b: Word | a <= k && b <= k && h(a) == h(b) :: a == b
  }

  predicate PcOk(h: Hash, s: State, pc: Pc) {
    match pc
    case Idle => true
    case LoadWord(since) => since <= s.globalSeq
    case LoadSeq(since, expected, covered) =>
      since <= s.globalSeq && covered <= s.covered && covered < TWO_TO_THE_64 && expected == h(covered)
    case Swap(since, expected, covered, want) =>
      && since <= want <= s.globalSeq && covered <= s.covered && covered <= want
      && expected == h(covered)
  }

  /** Sequence number k is covered, or the thread that committed it is still refreshing. */
  predicate Accounted(s: State, k: nat)
    requires 0 < k <= |s.committers|
  {
    var pc := s.PcOf(s.committers[k - 1]);
    k <= s.covered || (pc != Idle && pc.since == k)
  }

  ghost predicate Inv(h: Hash, s: State) {
    && s.covered <= s.globalSeq == |s.committers|
    && s.word == h(s.covered)
    && (forall t | t in s.pcs :: PcOk(h, s, s.pcs[t]))
    && (forall k: nat | 0 < k <= |s.committers| :: Accounted(s, k))
  }

  /** A swap that meets the word it expects replaces one computed from no more than its own number. */
  lemma SwapAdvances(h: Hash, s: State, pc: Pc)
    requires Inv(h, s) && InjectiveUpTo(h, s.globalSeq) && PcOk(h, s, pc) && pc.Swap? && s.word == pc.expected
    ensures s.covered <= pc.want
  {
    assert h(s.covered) == h(pc.covered);
  }

  /** What every step does to the covered number, the word and the numbers committed. */
  lemma StepMoves(h: Hash, s: State, a: Action)
    requires Inv(h, s) && Enabled(s, a) && InjectiveUpTo(h, s.globalSeq)
    ensures var s' := Apply(h, s, a);
      && s.covered <= s'.covered <= s'.globalSeq == |s'.committers| && s'.word == h(s'.covered)
      && s.globalSeq <= s'.globalSeq && s.committers <= s'.committers
      && a.t in s'.pcs && s'.pcs == s.pcs[a.t := s'.pcs[a.t]] && PcOk(h, s', s'.pcs[a.t])
  {
    if a.Advance? {
      assert PcOk(h, s, s.pcs[a.t]);
      if s.pcs[a.t].Swap? && s.word == s.pcs[a.t].expected {
        SwapAdvances(h, s, s.pcs[a.t]);
      }
    }
  }

  lemma StepAccounts(h: Hash, s: State, a: Action, k: nat)
    requires Inv(h, s) && Enabled(s, a) && InjectiveUpTo(h, s.globalSeq)
    requires 0 < k <= |Apply(h, s, a).committers|
    ensures Accounted(Apply(h, s, a), k)
  {
    StepMoves(h, s, a);
    if k <= |s.committers| {
      assert Accounted(s, k);
      if a.Advance? {
        assert PcOk(h, s, s.pcs[a.t]);
      }
    }
  }

  /** One step keeps the invariant, and the sequence number the word encodes never goes backwards. */
  lemma StepKeeps(h: Hash, s: State, a: Action)
    requires Inv(h, s) && Enabled(s, a) && InjectiveUpTo(h, s.globalSeq)
    ensures Inv(h, Apply(h, s, a))
    ensures s.covered <= Apply(h, s, a).covered
    ensures a.Advance? && Apply(h, s, a).PcOf(a.t) == Idle ==> s.PcOf(a.t).since <= Apply(h, s, a).covered
  {
    var s' := Apply(h, s, a);
    StepMoves(h, s, a);
    forall k: nat | 0 < k <= |s'.committers|
      ensures Accounted(s', k)
    {
      StepAccounts(h, s, a, k);
    }
    forall t | t in s'.pcs
      ensures PcOk(h, s', s'.pcs[t])
    {
      if t != a.t {
        assert PcOk(h, s, s.pcs[t]);
      }
    }
    if a.Advance? {
      assert PcOk(h, s, s.pcs[a.t]);
    }
  }

  // ----- runs -----

  ghost predicate Executes(h: Hash, s: State, actions: seq<Action>, s': State)
    decreases |actions|
  {
    if actions == [] then s' == s
    else Enabled(s, actions[0]) && Executes(h, Apply(h, s, actions[0]), actions[1..], s')
  }

  lemma SequenceGrows(h: Hash, s: State, a: Action)
    requires Enabled(s, a)
    ensures s.globalSeq <= Apply(h, s, a).globalSeq
  {
  }

  lemma {:induction false} RunSequenceGrows(h: Hash, s: State, actions: seq<Action>, s': State)
    requires Executes(h, s, actions, s')
    ensures s.globalSeq <= s'.globalSeq
    decreases |actions|
  {
    if actions != [] {
      SequenceGrows(h, s, actions[0]);
      RunSequenceGrows(h, Apply(h, s, actions[0]), actions[1..], s');
    }
  }

  /** Over a whole run the encoded sequence number is monotone. */
  lemma {:induction false} RunKeeps(h: Hash, s: State, actions: seq<Action>, s': State)
    requires Inv(h, s) && Executes(h, s, actions, s') && InjectiveUpTo(h, s'.globalSeq)
    ensures Inv(h, s') && s.covered <= s'.covered
    decreases |actions|
  {
    if actions != [] {
      RunSequenceGrows(h, s, actions, s');
      StepKeeps(h, s, actions[0]);
      RunKeeps(h, Apply(h, s, actions[0]), actions[1..], s');
    }
  }

  /** Once every committer has returned, the word is the hash of the current sequence number. */
  lemma Converges(h: Hash, start: State, actions: seq<Action>, s: State)
    requires Initial(h, start) && Executes(h, start, actions, s) && InjectiveUpTo(h, s.globalSeq)
    requires forall t :: s.PcOf(t) == Idle
    ensures s.word == h(s.globalSeq)
  {
    RunKeeps(h, start, actions, s);
    if s.globalSeq > 0 {
      assert Accounted(s, s.globalSeq);
      assert s.PcOf(s.committers[s.globalSeq - 1]) == Idle;
    }
  }

  /** A refresh that returns leaves the word covering at least the sequence number at its call. */
  lemma RefreshCovers(h: Hash, start: State, actions: seq<Action>, s: State, t: nat, spurious: bool)
    requires Initial(h, start) && Executes(h, start, actions, s) && InjectiveUpTo(h, s.globalSeq)
    requires s.PcOf(t) != Idle
    ensures var s' := Apply(h, s, Advance(t, spurious));
      s'.PcOf(t) == Idle ==> s.PcOf(t).since <= s'.covered <= s'.globalSeq && s'.word == h(s'.covered)
  {
    RunKeeps(h, start, actions, s);
    StepKeeps(h, s, Advance(t, spurious));
  }

  /** A refresh that no other thread disturbs ends within three steps, with the hash of the current number. */
  lemma LoneRefresh(h: Hash, s: State, t: nat) returns (actions: seq<Action>, s': State)
    requires s.PcOf(t) == Idle
    ensures actions in {[Refresh(t), Advance(t, false), Advance(t, false)],
                        [Refresh(t), Advance(t, false), Advance(t, false), Advance(t, false)]}
    ensures Executes(h, s, actions, s')
    ensures s'.PcOf(t) == Idle && s'.word == h(s.globalSeq) && s'.globalSeq == s.globalSeq
    ensures forall u | u != t :: s'.PcOf(u) == s.PcOf(u)
  {
    var a := Advance(t, false);
    var s1 := Apply(h, s, Refresh(t));
    var s2 := Apply(h, s1, a);
    var s3 := Apply(h, s2, a);
    assert s2.PcOf(t) == LoadSeq(s.globalSeq, s.word, s.covered);
    assert Executes(h, s3, [], s3);
    if s3.PcOf(t) == Idle {
      actions, s' := [Refresh(t), a, a], s3;
      Chain(h, s2, a, [], s3);
      Chain(h, s1, a, [a], s3);
      Chain(h, s, Refresh(t), [a, a], s3);
    } else {
      s' := Apply(h, s3, a);
      actions := [Refresh(t), a, a, a];
      Chain(h, s3, a, [], s');
      Chain(h, s2, a, [a], s');
      Chain(h, s1, a, [a, a], s');
      Chain(h, s, Refresh(t), [a, a, a], s');
    }
  }

  lemma Chain(h: Hash, s: State, a: Action, rest: seq<Action>, s': State)
    requires Enabled(s, a) && Executes(h, Apply(h, s, a), rest, s')
    ensures Executes(h, s, [a] + rest, s')
  {
    assert ([a] + rest)[1..] == rest;
  }

  function RegionHash(headers: seq<Byte>): Hash {
    (g: Word) => IntegrityAt(headers, g)
  }

  lemma RegionHashInjective(headers: seq<Byte>, k: Word)
    requires k < TWO_TO_THE_32
    ensures InjectiveUpTo(RegionHash(headers), k)
  {
    var h := RegionHash(headers);
    forall a: Word, b: Word | a <= k && b <= k && a != b
      ensures h(a) != h(b)
    {
      SmallSequencesDiffer(headers, a, b);
    }
  }

  lemma SmallSequencesDiffer(headers: seq<Byte>, a: Word, b: Word)
    requires a < TWO_TO_THE_32 && b < TWO_TO_THE_32 && a != b
    ensures IntegrityAt(headers, a) != IntegrityAt(headers, b)
  {
    assert a / TWO_TO_THE_32 == 0 && b / TWO_TO_THE_32 == 0;
    IntegrityInjective(headers, a, b);
  }

  /** For the first 2^32 commits the region's own hash needs no assumption. */
  lemma RegionConverges(headers: seq<Byte>, start: State, actions: seq<Action>, s: State)
    requires Initial(RegionHash(headers), start) && Executes(RegionHash(headers), start, actions, s)
    requires s.globalSeq < TWO_TO_THE_32
    requires forall t :: s.PcOf(t) == Idle
    ensures s.word == IntegrityAt(headers, s.globalSeq)
  {
    RegionHashInjective(headers, s.globalSeq);
    Converges(RegionHash(headers), start, actions, s);
  }
}
