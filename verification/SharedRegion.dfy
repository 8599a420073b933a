/**
 The region the processes share, as one process at a time changes it: three rings, an ownership
 record for each, and a sequence number and integrity word over all of them.
 */
module SharedRegion {
  import opened Options
  import opened Words
  import opened Crc32c
  import opened IntegrityWord
  import opened OwnershipProtocol
  import opened RingBuffer
  import opened Takeover

  const DEFAULT_SLOT_COUNT: nat := 1024
  const DEFAULT_SLOT_BYTES: nat := 52
  const HEADER_BYTES: nat := 192

  /** One cache line of the ownership table. */
  datatype RingOwnership = RingOwnership(logicalRing: Half, ownerWord: Word, epoch: Word)

  datatype OwnershipToken =
    OwnershipToken(logicalRing: Half, physicalOwner: Half, processGeneration: Half, epoch: Word)

  /** Whether a settled record for ring k reads as an owner. */
  predicate Readable(cell: RingOwnership, k: nat) {
    cell.logicalRing == k && cell.epoch != 0 && cell.epoch % 2 == 0 && ValidWord(cell.ownerWord)
  }

  function TokenAt(cell: RingOwnership): OwnershipToken {
    OwnershipToken(cell.logicalRing, UnpackOwner(cell.ownerWord), UnpackGeneration(cell.ownerWord), cell.epoch)
  }

  /** The record still says what the token says. */
  predicate Matches(cell: RingOwnership, token: OwnershipToken) {
    cell.epoch == token.epoch && cell.ownerWord == Pack(token.physicalOwner, token.processGeneration)
  }

  /** The argument checks of a transfer, before it looks at the record. */
  predicate WellAddressed(k: nat, expected: OwnershipToken, owner: Half, generation: Half) {
    && k < MAX_WORKERS && expected.logicalRing == k && owner < MAX_WORKERS && generation != 0
    && expected.epoch % 2 == 0 && expected.epoch <= TWO_TO_THE_64 - 3
  }

  class SharedRegion {
    const rings: seq<LockFreeRingBuffer>
    const ownership: array<RingOwnership>
    var headers: seq<Byte>
    var globalSeq: Word
    var integrityWord: Word32

    ghost predicate Valid()
      reads this, set r | r in rings, set r | r in rings :: r.cells
    {
      LaidOut() && |headers| == HEADER_BYTES
    }

    /** The rings have the compiled-in dimensions and do not overlap. */
    ghost predicate LaidOut()
      reads set r | r in rings, set r | r in rings :: r.cells
    {
      && |rings| == MAX_WORKERS && ownership.Length == MAX_WORKERS
      && (forall i, j | 0 <= i < j < |rings| :: rings[i] != rings[j] && rings[i].cells != rings[j].cells)
      && (forall i | 0 <= i < |rings| ::
            rings[i].Shaped() && rings[i].cells.Length == DEFAULT_SLOT_COUNT
            && rings[i].slotBytes == DEFAULT_SLOT_BYTES)
    }

    /** What an observer expects of a region nobody is changing. */
    ghost predicate SelfConsistent()
      reads this
    {
      integrityWord == IntegrityAt(headers, globalSeq)
    }

    constructor (rings: seq<LockFreeRingBuffer>)
      requires |rings| == MAX_WORKERS
      requires forall i, j | 0 <= i < j < |rings| :: rings[i] != rings[j] && rings[i].cells != rings[j].cells
      requires forall i | 0 <= i < |rings| ::
                 rings[i].Shaped() && rings[i].cells.Length == DEFAULT_SLOT_COUNT
                 && rings[i].slotBytes == DEFAULT_SLOT_BYTES
      ensures this.rings == rings && Valid() && fresh(ownership)
    {
      this.rings := rings;
      ownership := new RingOwnership[MAX_WORKERS](_ => RingOwnership(0, 0, 0));
      headers := seq(HEADER_BYTES, _ => 0);
      globalSeq, integrityWord := 0, 0;
    }

    /** Refuses other dimensions untouched; otherwise every worker owns its home ring and every ring is empty. */
    method Initialize(slotCount: nat, slotBytes: nat, layout: seq<Byte>) returns (ok: bool)
      requires Valid() && |layout| == HEADER_BYTES
      modifies this, ownership, set r | r in rings, set r | r in rings :: r.cells
      ensures Valid()
      ensures ok <==> slotCount == 1024 && slotBytes == 52
      ensures forall i | 0 <= i < MAX_WORKERS :: rings[i].cells.Length == 1024 && rings[i].slotBytes == 52
      ensures ok ==> SelfConsistent() && globalSeq == 0 && headers == layout
      ensures ok ==> forall i | 0 <= i < MAX_WORKERS :: FreshRing(i)
      ensures !ok ==> unchanged(this) && unchanged(ownership)
      ensures !ok ==> forall i | 0 <= i < MAX_WORKERS :: unchanged(rings[i]) && unchanged(rings[i].cells)
    {
      if slotCount != DEFAULT_SLOT_COUNT || slotBytes != DEFAULT_SLOT_BYTES {
        return false;
      }
      InitializeRings();
      SeedCounters(layout);
      return true;
    }

    method SeedCounters(layout: seq<Byte>)
      modifies this
      ensures headers == layout && globalSeq == 0 && SelfConsistent()
    {
      headers, globalSeq := layout, 0;
      integrityWord := IntegrityAt(headers, 0);
    }

    method InitializeRings()
      requires Valid()
      modifies ownership, set r | r in rings, set r | r in rings :: r.cells
      ensures Valid() && FreshRing(0) && FreshRing(1) && FreshRing(2)
    {
      for i := 0 to MAX_WORKERS
        modifies ownership, set r | r in rings, set r | r in rings :: r.cells
        invariant Valid()
        invariant 0 < i ==> FreshRing(0)
        invariant 1 < i ==> FreshRing(1)
        invariant 2 < i ==> FreshRing(2)
      {
        InitializeRing(i);
      }
    }

    method InitializeRing(i: nat)
      requires Valid() && i < MAX_WORKERS
      modifies ownership, rings[i], rings[i].cells
      ensures Valid() && FreshRing(i)
      ensures forall j | 0 <= j < i :: old(FreshRing(j)) ==> FreshRing(j)
    {
      ownership[i] := RingOwnership(i, Pack(i, 1), 2);
      rings[i].Initialize();
      forall j | 0 <= j < MAX_WORKERS && j != i
        ensures rings[j].Mem() == old(rings[j].Mem())
      {
        assert rings[j] != rings[i] && rings[j].cells != rings[i].cells;
      }
    }

    /** Ring i is empty and owned by the process that initialization appoints. */
    ghost predicate FreshRing(i: nat)
      requires i < |rings| && i < ownership.Length
      reads this, ownership, rings[i], rings[i].cells
    {
      && Quiet(rings[i].Mem()) && Records(rings[i].Mem()) == [] && rings[i].tail == 0
      && i < MAX_WORKERS && ownership[i] == RingOwnership(i, Pack(i, 1), 2)
    }

    /** A settled record reads as its owner; anything else refuses. */
    method ReadOwnership(logicalRing: nat) returns (ok: bool, token: OwnershipToken)
      requires Valid()
      ensures ok <==> logicalRing < MAX_WORKERS && Readable(ownership[logicalRing], logicalRing)
      ensures ok ==> token == TokenAt(ownership[logicalRing])
    {
      token := OwnershipToken(0, 0xFFFF_FFFF, 0, 0);
      if logicalRing >= MAX_WORKERS {
        return false, token;
      }
      var cell := ownership[logicalRing];
      if cell.epoch % 2 != 0 {
        return false, token;
      }
      var owner, generation := UnpackOwner(cell.ownerWord), UnpackGeneration(cell.ownerWord);
      if cell.logicalRing != logicalRing || cell.epoch == 0 || owner >= MAX_WORKERS || generation == 0 {
        return false, token;
      }
      return true, OwnershipToken(logicalRing, owner, generation, cell.epoch);
    }

    method OwnershipValid(token: OwnershipToken) returns (valid: bool)
      requires Valid()
      ensures valid <==> token.logicalRing < MAX_WORKERS && Readable(ownership[token.logicalRing], token.logicalRing)
                         && TokenAt(ownership[token.logicalRing]) == token
    {
      var ok, current := ReadOwnership(token.logicalRing);
      return ok && current.physicalOwner == token.physicalOwner
             && current.processGeneration == token.processGeneration && current.epoch == token.epoch;
    }

    /** Leaves the region self-consistent whatever the word was; a weak swap may fail spuriously. */
    method RefreshIntegrity(spurious: nat)
      modifies this`integrityWord
      ensures SelfConsistent()
    {
      var failures := spurious;
      while true
        decreases failures
      {
        var expected := integrityWord;
        var want := IntegrityAt(headers, globalSeq);
        if expected == want {
          return;
        }
        if failures == 0 {
          integrityWord := want;
          return;
        }
        failures := failures - 1;
      }
    }

    /** The swaps of epoch and owner word; a word that is not the expected one gets its epoch back. */
    method SwapOwner(k: nat, expected: OwnershipToken, owner: Half, generation: Half) returns (ok: bool)
      requires k < ownership.Length && expected.epoch <= TWO_TO_THE_64 - 3
      modifies ownership
      ensures ok <==> Matches(old(ownership[k]), expected)
      ensures ownership[..] == if !ok then old(ownership[..]) else
                old(ownership[..])[k := old(ownership[k]).(ownerWord := Pack(owner, generation),
                                                           epoch := expected.epoch + 2)]
    {
      var expectedWord := Pack(expected.physicalOwner, expected.processGeneration);
      if ownership[k].epoch != expected.epoch {
        return false;
      }
      ownership[k] := ownership[k].(epoch := expected.epoch + 1);
      if ownership[k].ownerWord != expectedWord {
        ownership[k] := ownership[k].(epoch := expected.epoch);
        return false;
      }
      ownership[k] := ownership[k].(ownerWord := Pack(owner, generation));
      ownership[k] := ownership[k].(epoch := expected.epoch + 2);
      return true;
    }

    /**
     Replaces the owner recorded for a ring if the record is still the expected one, then repairs the
     ring and the integrity word. A refused transfer leaves everything as it was.
     */
    method TransferOwnership(logicalRing: nat, expected: OwnershipToken, owner: Half, generation: Half, spurious: nat)
      returns (ok: bool, replacement: OwnershipToken)
      requires Valid()
      modifies this`integrityWord, ownership, if logicalRing < |rings| then {rings[logicalRing]} else {}
      ensures Valid()
      ensures ok <==> WellAddressed(logicalRing, expected, owner, generation)
                      && Matches(old(ownership[expected.logicalRing]), expected)
      ensures ok ==> ownership[..] == old(ownership[..])[logicalRing :=
                       old(ownership[logicalRing]).(ownerWord := Pack(owner, generation), epoch := expected.epoch + 2)]
      ensures ok ==> rings[logicalRing].Mem() == RolledBack(old(rings[logicalRing].Mem()))
      ensures ok ==>
                && SelfConsistent()
                && replacement == OwnershipToken(logicalRing, owner, generation, expected.epoch + 2)
      ensures !ok ==> ownership[..] == old(ownership[..]) && integrityWord == old(integrityWord)
      ensures !ok && logicalRing < MAX_WORKERS ==> rings[logicalRing].Mem() == old(rings[logicalRing].Mem())
    {
      replacement := OwnershipToken(0, 0xFFFF_FFFF, 0, 0);
      if logicalRing >= MAX_WORKERS || expected.logicalRing != logicalRing || owner >= MAX_WORKERS
         || generation == 0 || expected.epoch % 2 != 0 || expected.epoch > TWO_TO_THE_64 - 3 {
        return false, replacement;
      }
      ok := SwapOwner(logicalRing, expected, owner, generation);
      if !ok {
        return false, replacement;
      }
      RollBack(rings[logicalRing], spurious);
      RefreshIntegrity(spurious);
      return true, OwnershipToken(logicalRing, owner, generation, expected.epoch + 2);
    }

    /** The commit path; tag is 0, or all ones for the fault-injection variant. A refusal counts nothing. */
    method Push(k: nat, value: seq<Byte>, tag: Word32, spurious: nat) returns (ok: bool)
      requires Valid() && |value| <= DEFAULT_SLOT_BYTES
      requires k < MAX_WORKERS ==> Quiet(rings[k].Mem()) && rings[k].tail + DEFAULT_SLOT_COUNT < TWO_TO_THE_63
      requires globalSeq + 1 < TWO_TO_THE_64
      modifies this, if k < |rings| then {rings[k], rings[k].cells} else {}
      ensures Valid() && headers == old(headers)
      ensures ok <==> k < MAX_WORKERS && old(rings[k].tail - rings[k].head) < DEFAULT_SLOT_COUNT
      ensures ok ==> rings[k].Mem() == Pushed(old(rings[k].Mem()), value, tag) && Quiet(rings[k].Mem())
      ensures ok ==> globalSeq == old(globalSeq) + 1 && SelfConsistent()
      ensures !ok ==> unchanged(this) && (k < MAX_WORKERS ==> rings[k].Mem() == old(rings[k].Mem()))
    {
      if k >= MAX_WORKERS {
        return false;
      }
      ok := PushRing(k, value, tag, spurious);
      if ok {
        CountCommit(spurious);
      }
    }

    method CountCommit(spurious: nat)
      requires globalSeq + 1 < TWO_TO_THE_64
      modifies this`globalSeq, this`integrityWord
      ensures globalSeq == old(globalSeq) + 1 && SelfConsistent()
    {
      AddOne(globalSeq);
      globalSeq := Add(globalSeq, 1);
      RefreshIntegrity(spurious);
    }

    method PushRing(k: nat, value: seq<Byte>, tag: Word32, spurious: nat) returns (ok: bool)
      requires LaidOut() && |value| <= DEFAULT_SLOT_BYTES && k < MAX_WORKERS
      requires Quiet(rings[k].Mem()) && rings[k].tail + DEFAULT_SLOT_COUNT < TWO_TO_THE_63
      modifies rings[k], rings[k].cells
      ensures LaidOut() && Quiet(rings[k].Mem())
      ensures ok <==> old(rings[k].tail - rings[k].head) < DEFAULT_SLOT_COUNT
      ensures rings[k].Mem() == if ok then Pushed(old(rings[k].Mem()), value, tag) else old(rings[k].Mem())
    {
      ok := rings[k].TryPush(value, tag, spurious);
      forall j | 0 <= j < MAX_WORKERS && j != k
        ensures rings[j].Mem() == old(rings[j].Mem())
      {
        assert rings[j] != rings[k] && rings[j].cells != rings[k].cells;
      }
    }

    /** The first ring whose record reads as owned by the process, if any. */
    method OwnedLogicalRing(worker: nat) returns (ring: Option<nat>)
      requires Valid()
      ensures ring == FirstOwned(ownership[..], worker)
    {
      for k := 0 to MAX_WORKERS
        invariant forall j | 0 <= j < k :: !OwnedBy(ownership[..], j, worker)
      {
        var ok, token := ReadOwnership(k);
        if ok && token.physicalOwner == worker {
          return Some(k);
        }
      }
      return None;
    }
  }

  lemma AddOne(x: Word)
    requires x + 1 < TWO_TO_THE_64
    ensures Add(x, 1) == x + 1
  {
  }

  predicate OwnedBy(table: seq<RingOwnership>, k: nat, worker: nat)
    requires k < |table|
  {
    Readable(table[k], k) && TokenAt(table[k]).physicalOwner == worker
  }

  /** The least ring recorded as the worker's. */
  function FirstOwned(table: seq<RingOwnership>, worker: nat): (r: Option<nat>)
    requires |table| == MAX_WORKERS
    ensures r.Some? <==> exists k :: 0 <= k < |table| && OwnedBy(table, k, worker)
    ensures r.Some? ==> r.value < |table| && OwnedBy(table, r.value, worker)
    ensures r.Some? ==> forall j | 0 <= j < r.value :: !OwnedBy(table, j, worker)
  {
    if OwnedBy(table, 0, worker) then Some(0)
    else if OwnedBy(table, 1, worker) then Some(1)
    else if OwnedBy(table, 2, worker) then Some(2)
    else None
  }

  /** A transferred record reads as the replacement, and no longer as the token it superseded. */
  lemma TransferFences(cell: RingOwnership, k: nat, expected: OwnershipToken, owner: Half, generation: Half)
    requires WellAddressed(k, expected, owner, generation) && Matches(cell, expected) && cell.logicalRing == k
    ensures var after := cell.(ownerWord := Pack(owner, generation), epoch := expected.epoch + 2);
      && Readable(after, k)
      && TokenAt(after) == OwnershipToken(k, owner, generation, expected.epoch + 2)
      && TokenAt(after) != expected && !Matches(after, expected)
  {
    UnpackPack(owner, generation);
  }

  /** A record reads as the token that an undisturbed read of the protocol returns, if it is the ring's own record. */
  lemma ReadsAsProtocol(cell: RingOwnership, k: nat, s: OwnershipProtocol.State, token: Token)
    requires s.epoch == cell.epoch && s.word == cell.ownerWord
    ensures cell.logicalRing == k && Says(s, token) <==>
            && Readable(cell, k)
            && var own := TokenAt(cell);
               own.logicalRing == k && token == Token(own.physicalOwner, own.processGeneration, own.epoch)
  {
    SaysOne(s);
  }

  /** A transfer is admitted, and finds what it expects, just as in the protocol, and installs the same word. */
  lemma TransfersAsProtocol(cell: RingOwnership, k: nat, s: OwnershipProtocol.State, expected: OwnershipToken,
                            owner: Half, generation: Half)
    requires s.epoch == cell.epoch && s.word == cell.ownerWord
    ensures var was := Token(expected.physicalOwner, expected.processGeneration, expected.epoch);
      && (WellAddressed(k, expected, owner, generation) <==>
            k < 3 && expected.logicalRing == k && Admissible(Change(was, owner, generation)))
      && (Matches(cell, expected) <==> Transfers(s, Change(was, owner, generation)))
      && Pack(owner, generation) == owner + 0x1_0000_0000 * generation
  {
  }
}
