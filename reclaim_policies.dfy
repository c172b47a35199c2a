// The two reclamation filters side by side: lockfreequeue.hpp deletes an
// entry when `retire_epoch + 2 <= current`, EBRQueue.hpp when the global
// epoch is at least 2 and `epoch <= global - 2`. On the same list and
// epoch they delete the same nodes and keep the same entries in order.

module ReclaimPolicies {
  import LockFreeQueue
  import EbrQueue

  /** An EBRQueue retired list as lockfreequeue.hpp's `(node, epoch)` pairs. */
  function AsPairs(rl: seq<EbrQueue.RetiredNode>): (r: seq<LockFreeQueue.Retired>)
    ensures |r| == |rl|
    ensures forall i :: 0 <= i < |rl| ==> r[i] == (rl[i].ptr, rl[i].epoch as int)
  {
    if rl == [] then [] else [(rl[0].ptr, rl[0].epoch as int)] + AsPairs(rl[1..])
  }

  /** The two tests agree on every entry. */
  lemma SameTest(n: EbrQueue.RetiredNode, cur: nat)
    ensures LockFreeQueue.Reclaimable((n.ptr, n.epoch as int), cur) <==> EbrQueue.SafeToDelete(n, cur)
  {
  }

  /** Both managers keep the same entries, in the same order. */
  lemma {:induction false} SameEntriesKept(rl: seq<EbrQueue.RetiredNode>, cur: nat)
    ensures LockFreeQueue.Survivors(AsPairs(rl), cur) == AsPairs(EbrQueue.StillRetired(rl, cur))
  {
    if rl != [] {
      var init := rl[..|rl| - 1];
      var last := rl[|rl| - 1];
      SameEntriesKept(init, cur);
      SameTest(last, cur);
      var pairs := AsPairs(rl);
      var pair := (last.ptr, last.epoch as int);
      assert pairs[..|rl| - 1] == AsPairs(init);
      assert pairs[|rl| - 1] == pair;
      assert LockFreeQueue.Survivors(pairs, cur)
          == LockFreeQueue.Survivors(AsPairs(init), cur) + (if LockFreeQueue.Reclaimable(pair, cur) then [] else [pair]);
      var kept := EbrQueue.StillRetired(init, cur);
      if !EbrQueue.SafeToDelete(last, cur) {
        assert EbrQueue.StillRetired(rl, cur) == kept + [last];
        assert AsPairs(kept + [last]) == AsPairs(kept) + [pair];
      } else {
        assert EbrQueue.StillRetired(rl, cur) == kept + [];
        assert kept + [] == kept;
      }
    }
  }

  /** Both managers delete the same nodes. */
  lemma {:induction false} SameNodesDeleted(rl: seq<EbrQueue.RetiredNode>, cur: nat)
    ensures LockFreeQueue.ReclaimedIds(AsPairs(rl), cur) == EbrQueue.Ptrs(EbrQueue.ToDelete(rl, cur))
  {
    if rl != [] {
      var init := rl[..|rl| - 1];
      var last := rl[|rl| - 1];
      SameNodesDeleted(init, cur);
      SameTest(last, cur);
      var pairs := AsPairs(rl);
      var pair := (last.ptr, last.epoch as int);
      assert pairs[..|rl| - 1] == AsPairs(init);
      assert pairs[|rl| - 1] == pair;
      assert LockFreeQueue.ReclaimedIds(pairs, cur)
          == LockFreeQueue.ReclaimedIds(AsPairs(init), cur) + (if LockFreeQueue.Reclaimable(pair, cur) then {pair.0} else {});
      var del := EbrQueue.ToDelete(init, cur);
      if EbrQueue.SafeToDelete(last, cur) {
        assert EbrQueue.ToDelete(rl, cur) == del + [last];
        EbrQueue.PtrsSnoc(del, last);
      } else {
        assert EbrQueue.ToDelete(rl, cur) == del + [];
        assert del + [] == del;
      }
    }
  }
}
