/** A worker process's view of the ownership records: acknowledgement, and the standby's promotion scan. */
module Worker {
  import opened Options
  import opened OwnershipProtocol
  import opened SharedRegion
  import opened Supervisor
  import opened SupervisorSafety

  /** Ring k's record names this process. */
  predicate Acknowledges(table: seq<RingOwnership>, k: nat, worker: nat, generation: nat)
    requires |table| == MAX_WORKERS
  {
    k < MAX_WORKERS && OwnedBy(table, k, worker) && TokenAt(table[k]).processGeneration == generation
  }

  method AcknowledgeOwnership(region: SharedRegion, worker: nat, logicalRing: nat, generation: nat)
    returns (ok: bool, token: OwnershipToken)
    requires region.Valid()
    ensures ok <==> Acknowledges(region.ownership[..], logicalRing, worker, generation)
    ensures ok ==> token == TokenAt(region.ownership[logicalRing])
  {
    token := OwnershipToken(0, UNASSIGNED, 0, 0);
    if logicalRing == UNASSIGNED {
      return false, token;
    }
    ok, token := region.ReadOwnership(logicalRing);
    ok := ok && token.physicalOwner == worker && token.processGeneration == generation;
  }

  /** A standby without a configured ring looks at every ring but its home; one with a ring looks at that one only. */
  predicate Scans(worker: nat, configured: nat, k: nat) {
    if configured == UNASSIGNED then k != worker else k == configured
  }

  predicate MayTake(table: seq<RingOwnership>, worker: nat, configured: nat, generation: nat, k: nat)
    requires |table| == MAX_WORKERS
  {
    Scans(worker, configured, k) && Acknowledges(table, k, worker, generation)
  }

  /** The settled record of ring k names a worker and its generation. */
  predicate Names(cell: RingOwnership, k: nat, worker: nat, generation: nat) {
    && cell.logicalRing == k && cell.epoch > 0 && cell.epoch % 2 == 0
    && cell.ownerWord == worker + 0x1_0000_0000 * generation && worker < 3 && generation > 0
  }

  /**
   What a standby may take: a ring whose settled record names it with its generation, and that is not its home,
   or is the one it was configured with.
   */
  lemma MayTakeExactly(table: seq<RingOwnership>, worker: nat, configured: nat, generation: nat, k: nat)
    requires |table| == 3
    ensures MayTake(table, worker, configured, generation, k) <==>
            && k < 3 && Names(table[k], k, worker, generation)
            && (if configured == 0xFFFF_FFFF then k != worker else k == configured)
    ensures Acknowledges(table, k, worker, generation) <==> k < 3 && Names(table[k], k, worker, generation)
  {
    if k < 3 {
      PackUnpack(table[k].ownerWord);
      if Names(table[k], k, worker, generation) {
        DigitsUnique(worker, generation, table[k].ownerWord);
      }
    }
  }

  /** One poll of the warm standby: the first ring it may take over whose record names it. */
  method PromotionScan(region: SharedRegion, worker: nat, configured: nat, generation: nat) returns (ring: Option<nat>)
    requires region.Valid()
    ensures ring.Some? ==> MayTake(region.ownership[..], worker, configured, generation, ring.value)
    ensures ring.Some? ==> forall j | 0 <= j < ring.value ::
            !MayTake(region.ownership[..], worker, configured, generation, j)
    ensures ring.None? ==> forall j | 0 <= j < MAX_WORKERS ::
            !MayTake(region.ownership[..], worker, configured, generation, j)
  {
    for k := 0 to MAX_WORKERS
      invariant forall j | 0 <= j < k :: !MayTake(region.ownership[..], worker, configured, generation, j)
    {
      if configured != UNASSIGNED && configured != k {
        continue;
      }
      if configured == UNASSIGNED && k == worker {
        continue;
      }
      var ok, token := AcknowledgeOwnership(region, worker, k, generation);
      if ok {
        return Some(k);
      }
    }
    return None;
  }

  /**
   Of all the processes the supervisor ever launches, only the first standby can be promoted, and exactly
   to the ring that was transferred. A restarted process never is: its generation is past the one that
   every transfer names.
   */
  lemma OnlyFirstStandbyIsPromoted(s: Supervision, i: nat, k: nat)
    requires SupervisorSafety.Reachable(s) && i < |s.children| && s.children[i].worker
    ensures |s.table| == MAX_WORKERS
    ensures MayTake(s.table, s.children[i].physicalWorker, UNASSIGNED, s.children[i].generation, k)
            <==> i == 3 && Moved(s.log) == Some(k)
  {
    SupervisorSafety.ReachableInv(s);
    Owners(s.table, Moved(s.log));
    if k < MAX_WORKERS {
      if i != 3 {
        OneProcessPerRecord(s, if i < 3 then i else 3, if i < 3 then 3 else i, k);
      }
    }
  }
}
