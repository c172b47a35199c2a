// The second epoch-based reclamation variant, src/tools/EBRQueue.hpp: a
// registry of per-thread data keyed by thread id, an unconditional epoch
// bump, and a Michael-Scott queue whose nodes hold an optional value.
// Modelled sequentially: compare-and-swap always succeeds, atomics are plain
// fields, the calling thread is an explicit `tid` parameter, and deleting a
// node moves its id into the manager's `freed` set.

module EbrQueue {
  import opened Wrappers

  type NodeId = nat
  type ThreadId = nat

  /** `UINT64_MAX`, the local epoch of a thread outside any critical section. */
  const Inactive: nat := 0xFFFF_FFFF_FFFF_FFFF

  /** `RetiredNode` without its deleter: the node and its retirement epoch. */
  datatype RetiredNode = RetiredNode(ptr: NodeId, epoch: nat)

  /** `ThreadData`: local epoch, retired list, registered flag. */
  datatype ThreadData = ThreadData(localEpoch: nat, retiredList: seq<RetiredNode>, registered: bool)

  /** The entry `register_thread_if_needed` creates. */
  const NewThreadData := ThreadData(Inactive, [], true)

  /** `try_reclaim`'s test: the global epoch is at least 2 and the node was
      retired at or before `global - 2`. */
  predicate SafeToDelete(n: RetiredNode, global: nat)
  {
    global >= 2 && n.epoch <= global - 2
  }

  /** The `still_retired` vector: entries kept, in their order. */
  function StillRetired(rl: seq<RetiredNode>, global: nat): (r: seq<RetiredNode>)
    ensures |r| <= |rl|
  {
    if rl == [] then []
    else
      var last := rl[|rl| - 1];
      assert rl == rl[..|rl| - 1] + [last];
      StillRetired(rl[..|rl| - 1], global) + (if SafeToDelete(last, global) then [] else [last])
  }

  /** The `to_delete` vector: entries deleted, in their order. */
  function ToDelete(rl: seq<RetiredNode>, global: nat): (r: seq<RetiredNode>)
    ensures |r| <= |rl|
  {
    if rl == [] then []
    else
      var last := rl[|rl| - 1];
      assert rl == rl[..|rl| - 1] + [last];
      ToDelete(rl[..|rl| - 1], global) + (if SafeToDelete(last, global) then [last] else [])
  }

  /** The node ids of a list of retired entries. */
  function Ptrs(rl: seq<RetiredNode>): (r: set<NodeId>)
    ensures forall n :: n in rl ==> n.ptr in r
  {
    if rl == [] then {}
    else
      var last := rl[|rl| - 1];
      assert rl == rl[..|rl| - 1] + [last];
      Ptrs(rl[..|rl| - 1]) + {last.ptr}
  }

  /** Appending one entry to a list appends its node to the list's ids. */
  lemma PtrsSnoc(rl: seq<RetiredNode>, n: RetiredNode)
    ensures Ptrs(rl + [n]) == Ptrs(rl) + {n.ptr}
  {
    assert (rl + [n])[..|rl|] == rl;
  }

  /** An entry is kept exactly when it is in the list and not yet safe to
      delete, and deleted exactly when it is in the list and safe. */
  lemma {:induction false} PartitionMembers(rl: seq<RetiredNode>, global: nat, n: RetiredNode)
    ensures n in StillRetired(rl, global) <==> n in rl && !SafeToDelete(n, global)
    ensures n in ToDelete(rl, global) <==> n in rl && SafeToDelete(n, global)
  {
    if rl != [] {
      var init := rl[..|rl| - 1];
      PartitionMembers(init, global, n);
      assert rl == init + [rl[|rl| - 1]];
    }
  }

  /** The partition is a split: no entry is lost, duplicated or invented. */
  lemma {:induction false} PartitionCounts(rl: seq<RetiredNode>, global: nat)
    ensures multiset(StillRetired(rl, global)) + multiset(ToDelete(rl, global)) == multiset(rl)
  {
    if rl != [] {
      var init := rl[..|rl| - 1];
      var last := rl[|rl| - 1];
      PartitionCounts(init, global);
      assert rl == init + [last];
      assert multiset(rl) == multiset(init) + multiset{last};
      if SafeToDelete(last, global) {
        assert ToDelete(rl, global) == ToDelete(init, global) + [last];
        assert StillRetired(rl, global) == StillRetired(init, global) + [];
      } else {
        assert StillRetired(rl, global) == StillRetired(init, global) + [last];
        assert ToDelete(rl, global) == ToDelete(init, global) + [];
      }
    }
  }

  /** While the global epoch is below 2 nothing is deleted. */
  lemma {:induction false} NothingBeforeEpochTwo(rl: seq<RetiredNode>, global: nat)
    requires global < 2
    ensures StillRetired(rl, global) == rl && ToDelete(rl, global) == []
  {
    if rl != [] {
      var init := rl[..|rl| - 1];
      NothingBeforeEpochTwo(init, global);
      assert rl == init + [rl[|rl| - 1]];
    }
  }

  /** The partitioning loop of `try_reclaim`: one pass over the list, each
      entry going to the deleted or the kept vector, order preserved. */
  method Partition(rl: seq<RetiredNode>, global: nat) returns (stillRetired: seq<RetiredNode>, toDelete: seq<RetiredNode>)
    requires global >= 2
    ensures stillRetired == StillRetired(rl, global) && toDelete == ToDelete(rl, global)
  {
    var safeEpoch := global - 2;
    stillRetired, toDelete := [], [];
    var i := 0;
    while i < |rl|
      invariant 0 <= i <= |rl|
      invariant stillRetired == StillRetired(rl[..i], global)
      invariant toDelete == ToDelete(rl[..i], global)
    {
      assert rl[..i + 1][..i] == rl[..i];
      if rl[i].epoch <= safeEpoch {
        toDelete := toDelete + [rl[i]];
      } else {
        stillRetired := stillRetired + [rl[i]];
      }
      i := i + 1;
    }
    assert rl[..i] == rl;
  }

  /** A registered thread's data: every retired entry carries an epoch that
      has been reached and a node handed to `retire`. */
  ghost predicate DataValid(d: ThreadData, global: nat, handed: set<NodeId>)
  {
    && d.registered
    && forall n :: n in d.retiredList ==> n.epoch <= global && n.ptr in handed
  }

  class EbrManager {
    var globalEpoch: nat
    var registry: map<ThreadId, ThreadData>
    var freed: set<NodeId>
    /** Every node ever handed to `retire`. */
    ghost var handed: set<NodeId>

    ghost predicate Valid()
      reads this
    {
      && (forall t :: t in registry ==> DataValid(registry[t], globalEpoch, handed))
      && freed <= handed
    }

    constructor ()
      ensures Valid()
      ensures globalEpoch == 0 && registry == map[] && freed == {} && handed == {}
    {
      globalEpoch, registry, freed := 0, map[], {};
      handed := {};
    }

    /** `register_thread_if_needed`: at most one entry per thread; an existing
        entry is reused as it is. */
    method RegisterThreadIfNeeded(tid: ThreadId)
      requires Valid()
      modifies this
      ensures Valid()
      ensures tid in old(registry) ==> registry == old(registry)
      ensures tid !in old(registry) ==> registry == old(registry)[tid := NewThreadData]
      ensures globalEpoch == old(globalEpoch) && freed == old(freed) && handed == old(handed)
    {
      if tid !in registry {
        registry := registry[tid := NewThreadData];
      }
    }

    /** `enter`: register if needed, then publish the global epoch. */
    method Enter(tid: ThreadId)
      requires Valid()
      modifies this
      ensures Valid() && tid in registry
      ensures registry[tid].localEpoch == globalEpoch
      ensures tid in old(registry) ==> registry[tid].retiredList == old(registry)[tid].retiredList
      ensures tid !in old(registry) ==> registry[tid].retiredList == []
      ensures forall t :: t in old(registry) && t != tid ==> t in registry && registry[t] == old(registry)[t]
      ensures registry.Keys == old(registry).Keys + {tid}
      ensures globalEpoch == old(globalEpoch) && freed == old(freed) && handed == old(handed)
    {
      RegisterThreadIfNeeded(tid);
      registry := registry[tid := registry[tid].(localEpoch := globalEpoch)];
    }

    /** `leave`: mark the thread inactive and sweep its retired list; a thread
        without data only reports an error. */
    method Leave(tid: ThreadId)
      requires Valid()
      modifies this
      ensures Valid()
      ensures registry.Keys == old(registry).Keys && globalEpoch == old(globalEpoch) && handed == old(handed)
      ensures tid !in old(registry) ==> registry == old(registry) && freed == old(freed)
      ensures tid in old(registry) ==>
                && registry == old(registry)[tid := old(registry)[tid].(
                     localEpoch := Inactive,
                     retiredList := StillRetired(old(registry)[tid].retiredList, globalEpoch))]
                && freed == old(freed) + Ptrs(ToDelete(old(registry)[tid].retiredList, globalEpoch))
    {
      if tid in registry {
        registry := registry[tid := registry[tid].(localEpoch := Inactive)];
        TryReclaim(tid);
      }
    }

    /** `retire`: a null pointer is ignored; otherwise the node joins the end
        of the calling thread's list with the current global epoch. */
    method Retire(tid: ThreadId, ptr: Option<NodeId>)
      requires Valid()
      modifies this
      ensures Valid()
      ensures globalEpoch == old(globalEpoch) && freed == old(freed)
      ensures ptr.None? ==> registry == old(registry) && handed == old(handed)
      ensures ptr.Some? ==> handed == old(handed) + {ptr.value}
      ensures ptr.Some? ==>
                && tid in registry
                && registry.Keys == old(registry).Keys + {tid}
                && var before := if tid in old(registry) then old(registry)[tid] else NewThreadData;
                   registry[tid] == before.(retiredList := before.retiredList + [RetiredNode(ptr.value, globalEpoch)])
      ensures ptr.Some? ==> forall t :: t in old(registry) && t != tid ==> registry[t] == old(registry)[t]
    {
      if ptr == None {
        return;
      }
      RegisterThreadIfNeeded(tid);
      handed := handed + {ptr.value};
      var data := registry[tid];
      registry := registry[tid := data.(retiredList := data.retiredList + [RetiredNode(ptr.value, globalEpoch)])];
    }

    /** `try_reclaim`: nothing while the global epoch is below 2; otherwise
        the list is split into the entries to delete (retired at or before
        `global - 2`) and those kept in order, and the first are deleted. */
    method TryReclaim(tid: ThreadId)
      requires Valid() && tid in registry
      modifies this
      ensures Valid()
      ensures globalEpoch == old(globalEpoch) && handed == old(handed)
      ensures registry == old(registry)[tid := old(registry)[tid].(retiredList := StillRetired(old(registry)[tid].retiredList, globalEpoch))]
      ensures freed == old(freed) + Ptrs(ToDelete(old(registry)[tid].retiredList, globalEpoch))
    {
      var current := globalEpoch;
      if current < 2 {
        NothingBeforeEpochTwo(registry[tid].retiredList, current);
        assert registry == registry[tid := registry[tid]];
        return;
      }
      var rl := registry[tid].retiredList;
      var stillRetired, toDelete := Partition(rl, current);
      registry := registry[tid := registry[tid].(retiredList := stillRetired)];
      assert DataValid(old(registry)[tid], globalEpoch, handed);
      forall n | n in rl
        ensures (n in stillRetired <==> !SafeToDelete(n, current)) && (n in toDelete <==> SafeToDelete(n, current))
      {
        PartitionMembers(rl, current, n);
      }
      forall n | n in stillRetired || n in toDelete
        ensures n in rl
      {
        PartitionMembers(rl, current, n);
      }
      Delete(toDelete);
    }

    /** The deleting loop of `try_reclaim` and `unregister_thread`: every
        listed node is freed. */
    method Delete(rl: seq<RetiredNode>)
      requires Valid()
      requires forall n :: n in rl ==> n.ptr in handed
      modifies this
      ensures Valid()
      ensures registry == old(registry) && globalEpoch == old(globalEpoch) && handed == old(handed)
      ensures freed == old(freed) + Ptrs(rl)
    {
      var j := 0;
      while j < |rl|
        invariant 0 <= j <= |rl|
        invariant registry == old(registry) && globalEpoch == old(globalEpoch) && handed == old(handed)
        invariant freed == old(freed) + Ptrs(rl[..j])
        invariant freed <= handed
      {
        assert rl[..j + 1] == rl[..j] + [rl[j]];
        PtrsSnoc(rl[..j], rl[j]);
        freed := freed + {rl[j].ptr};
        j := j + 1;
      }
      assert rl[..j] == rl;
    }

    /** `bump_epoch`: the global epoch goes up by one whatever the threads do. */
    method BumpEpoch()
      requires Valid()
      modifies this
      ensures Valid()
      ensures globalEpoch == old(globalEpoch) + 1
      ensures registry == old(registry) && freed == old(freed) && handed == old(handed)
    {
      globalEpoch := globalEpoch + 1;
    }

    /** `unregister_thread`: every retired node of the thread is deleted,
        whatever its epoch, and its entry leaves the registry. */
    method UnregisterThread(tid: ThreadId)
      requires Valid()
      modifies this
      ensures Valid()
      ensures globalEpoch == old(globalEpoch) && handed == old(handed)
      ensures tid !in old(registry) ==> registry == old(registry) && freed == old(freed)
      ensures tid in old(registry) ==>
                && registry == old(registry) - {tid}
                && freed == old(freed) + Ptrs(old(registry)[tid].retiredList)
    {
      if tid !in registry {
        return;
      }
      ghost var all := registry[tid].retiredList;
      TryReclaim(tid);
      var rl := registry[tid].retiredList;
      assert rl == StillRetired(all, globalEpoch);
      assert DataValid(registry[tid], globalEpoch, handed);
      Delete(rl);
      PtrsOfPartition(all, globalEpoch);
      assert freed == old(freed) + Ptrs(all);
      registry := registry - {tid};
      assert registry == old(registry) - {tid};
    }
  }

  /** Deleting the `to_delete` part and then the `still_retired` part deletes
      every node of the list. */
  lemma {:induction false} PtrsOfPartition(rl: seq<RetiredNode>, global: nat)
    ensures Ptrs(ToDelete(rl, global)) + Ptrs(StillRetired(rl, global)) == Ptrs(rl)
  {
    if rl != [] {
      var init := rl[..|rl| - 1];
      var last := rl[|rl| - 1];
      PtrsOfPartition(init, global);
      assert rl == init + [last];
      PtrsSnoc(init, last);
      assert Ptrs(rl) == Ptrs(init) + {last.ptr};
      var d, k := ToDelete(init, global), StillRetired(init, global);
      if SafeToDelete(last, global) {
        assert ToDelete(rl, global) == d + [last];
        assert StillRetired(rl, global) == k + [];
        PtrsSnoc(d, last);
        assert k + [] == k;
      } else {
        assert ToDelete(rl, global) == d + [];
        assert StillRetired(rl, global) == k + [last];
        PtrsSnoc(k, last);
        assert d + [] == d;
      }
    }
  }

  /** The retired list of `tid`, empty for a thread not yet registered. */
  function RetiredOf(registry: map<ThreadId, ThreadData>, tid: ThreadId): seq<RetiredNode>
  {
    if tid in registry then registry[tid].retiredList else []
  }

  /** Only `tid`'s registry entry may differ: every other thread keeps its
      entry, and `tid` is the only key that may be added. */
  predicate OthersUnchanged(before: map<ThreadId, ThreadData>, after: map<ThreadId, ThreadData>, tid: ThreadId)
  {
    && after.Keys == before.Keys + {tid}
    && forall t :: t in before && t != tid ==> after[t] == before[t]
  }

  /** A queue node: `std::optional<T>` data and the next node, if any. */
  datatype Node<T> = Node(data: Option<T>, next: Option<NodeId>)

  /** `MPMCQueue<T>` of EBRQueue.hpp: a sentinel-headed linked list in an
      arena of nodes; every enqueue and dequeue runs between `enter` and
      `leave` of the calling thread. */
  class MpmcQueue<T> {
    // public view
    ghost var Contents: seq<T>
    /** The node ids from the sentinel (`head`) to the last node (`tail`). */
    ghost var chain: seq<NodeId>
    /** Ids of the nodes unlinked so far (retired or already freed). */
    ghost var unlinked: set<NodeId>

    var nodes: map<NodeId, Node<T>>
    var head: NodeId
    var tail: NodeId
    /** Next id that `new Node` hands out. */
    var nextId: NodeId
    const mgr: EbrManager

    /** The list from `head` to `tail` spells out `Contents`; the sentinel
        holds no value and every node after it holds one. */
    ghost predicate ListValid()
      reads this
    {
      && 1 <= |chain|
      && chain[0] == head && chain[|chain| - 1] == tail
      && (forall k :: 0 <= k < |chain| ==> chain[k] in nodes && chain[k] < nextId)
      && (forall i, j :: 0 <= i < j < |chain| ==> chain[i] != chain[j])
      && (forall k :: 0 <= k < |chain| - 1 ==> nodes[chain[k]].next == Some(chain[k + 1]))
      && nodes[tail].next == None
      && nodes[head].data == None
      && |Contents| == |chain| - 1
      && (forall k :: 0 <= k < |Contents| ==> nodes[chain[k + 1]].data == Some(Contents[k]))
      && (forall n :: n in unlinked ==> n < nextId && n !in chain)
    }

    ghost predicate Valid()
      reads this, mgr
    {
      && mgr.Valid()
      && ListValid()
      // every node handed to the manager has left the list
      && mgr.handed <= unlinked
    }

    /** The constructor: one empty sentinel node, head and tail on it. */
    constructor (mgr: EbrManager)
      requires mgr.Valid() && mgr.handed == {}
      ensures Valid() && this.mgr == mgr
      ensures Contents == []
    {
      this.mgr := mgr;
      nodes := map[0 := Node(None, None)];
      head, tail := 0, 0;
      nextId := 1;
      chain := [0];
      Contents := [];
      unlinked := {};
    }

    /** Links a fresh node holding `value` after the last node. */
    method Link(value: T)
      requires ListValid()
      modifies this
      ensures ListValid()
      ensures Contents == old(Contents) + [value] && head == old(head) && unlinked == old(unlinked)
    {
      var newNode := nextId;
      nextId := nextId + 1;
      nodes := nodes[newNode := Node(Some(value), None)];
      var currentTail := tail;
      nodes := nodes[currentTail := nodes[currentTail].(next := Some(newNode))];
      tail := newNode;
      chain := chain + [newNode];
      Contents := Contents + [value];
    }

    /** `enqueue`: the value goes to the back, inside `enter`/`leave`. */
    method Enqueue(tid: ThreadId, value: T)
      requires Valid()
      modifies this, mgr
      ensures Valid()
      ensures Contents == old(Contents) + [value]
      ensures mgr.globalEpoch == old(mgr.globalEpoch)
      ensures tid in mgr.registry && mgr.registry[tid].localEpoch == Inactive
      ensures mgr.registry[tid].retiredList == StillRetired(RetiredOf(old(mgr.registry), tid), mgr.globalEpoch)
      ensures mgr.freed == old(mgr.freed) + Ptrs(ToDelete(RetiredOf(old(mgr.registry), tid), mgr.globalEpoch))
      ensures OthersUnchanged(old(mgr.registry), mgr.registry, tid)
    {
      mgr.Enter(tid);
      Link(value);
      mgr.Leave(tid);
    }

    /** Moves the head to the first real node, takes its value out (leaving
        the node empty, as the new sentinel) and returns the old head. */
    method Unlink() returns (oldHead: NodeId, value: T)
      requires ListValid() && Contents != []
      modifies this
      ensures ListValid()
      ensures oldHead == old(head) && value == old(Contents)[0] && Contents == old(Contents)[1..]
      ensures unlinked == old(unlinked) + {oldHead}
    {
      oldHead := head;
      var next := nodes[oldHead].next;
      assert next == Some(chain[1]);
      assert nodes[chain[1]].data == Some(Contents[0]);
      var nextNode := next.value;
      // every node after the sentinel holds a value, so the source's
      // "dequeued node has no data" branch is never taken
      assert nodes[nextNode].data.Some?;
      head := nextNode;
      value := nodes[nextNode].data.value;
      nodes := nodes[nextNode := nodes[nextNode].(data := None)];
      chain := chain[1..];
      Contents := Contents[1..];
      unlinked := unlinked + {oldHead};
    }

    /** `dequeue`: on an empty queue false, and `value` is not written;
        otherwise the front value is moved out, the old head retired, and
        true. Both paths end with `leave`. */
    method Dequeue(tid: ThreadId, value: T) returns (ok: bool, value': T)
      requires Valid()
      modifies this, mgr
      ensures Valid()
      ensures ok <==> old(Contents) != []
      ensures ok ==> value' == old(Contents)[0] && Contents == old(Contents)[1..]
      ensures ok ==> old(head) in mgr.handed
      ensures !ok ==> value' == value && Contents == old(Contents)
      ensures mgr.globalEpoch == old(mgr.globalEpoch)
      ensures tid in mgr.registry && mgr.registry[tid].localEpoch == Inactive
      ensures var rl := RetiredOf(old(mgr.registry), tid) + (if ok then [RetiredNode(old(head), mgr.globalEpoch)] else []);
              && mgr.registry[tid].retiredList == StillRetired(rl, mgr.globalEpoch)
              && mgr.freed == old(mgr.freed) + Ptrs(ToDelete(rl, mgr.globalEpoch))
      ensures OthersUnchanged(old(mgr.registry), mgr.registry, tid)
    {
      mgr.Enter(tid);
      // with the tail always on the last node, head == tail means the head
      // has no successor, so the lagging-tail branch never arises
      if head == tail {
        mgr.Leave(tid);
        assert RetiredOf(old(mgr.registry), tid) + [] == RetiredOf(old(mgr.registry), tid);
        return false, value;
      }
      assert |chain| > 1;
      value' := RetireFront(tid);
      ok := true;
    }

    /** The non-empty path of `dequeue` after `enter`: unlink the front,
        retire the old head and `leave`. */
    method RetireFront(tid: ThreadId) returns (value: T)
      requires Valid() && Contents != [] && tid in mgr.registry
      modifies this, mgr
      ensures Valid()
      ensures value == old(Contents)[0] && Contents == old(Contents)[1..]
      ensures old(head) in mgr.handed && mgr.globalEpoch == old(mgr.globalEpoch)
      ensures var rl := old(mgr.registry)[tid].retiredList + [RetiredNode(old(head), mgr.globalEpoch)];
              && mgr.registry == old(mgr.registry)[tid := old(mgr.registry)[tid].(
                   localEpoch := Inactive, retiredList := StillRetired(rl, mgr.globalEpoch))]
              && mgr.freed == old(mgr.freed) + Ptrs(ToDelete(rl, mgr.globalEpoch))
    {
      var oldHead;
      oldHead, value := Unlink();
      mgr.Retire(tid, Some(oldHead));
      mgr.Leave(tid);
    }

    /** `empty()`: head and tail meet and the head has no successor. */
    method Empty(tid: ThreadId) returns (isEmpty: bool)
      requires Valid()
      modifies mgr
      ensures Valid()
      ensures isEmpty <==> Contents == []
      ensures mgr.globalEpoch == old(mgr.globalEpoch) && mgr.handed == old(mgr.handed)
      ensures tid in mgr.registry && mgr.registry[tid].localEpoch == Inactive
      ensures mgr.registry[tid].retiredList == StillRetired(RetiredOf(old(mgr.registry), tid), mgr.globalEpoch)
      ensures mgr.freed == old(mgr.freed) + Ptrs(ToDelete(RetiredOf(old(mgr.registry), tid), mgr.globalEpoch))
      ensures OthersUnchanged(old(mgr.registry), mgr.registry, tid)
    {
      mgr.Enter(tid);
      var next := nodes[head].next;
      isEmpty := head == tail && next == None;
      assert |chain| > 1 ==> nodes[chain[0]].next == Some(chain[1]);
      mgr.Leave(tid);
    }
  }

  /** The grace period: the sentinel a dequeue retires at epoch 0 survives a
      sweep at epoch 1 and is deleted by the sweep at epoch 2. */
  method GracePeriodScenario<T>(x: T) returns (freedAtEpochOne: bool, freedAtEpochTwo: bool)
    ensures !freedAtEpochOne && freedAtEpochTwo
  {
    var mgr, sentinel := RetireAtEpochZero(x);
    ghost var rl := [RetiredNode(sentinel, 0)];
    NothingBeforeEpochTwo(rl, 1);
    BumpAndSweep(mgr, 0);
    freedAtEpochOne := sentinel in mgr.freed;
    assert rl == [] + [rl[0]];
    ghost var del := ToDelete(rl, 2);
    assert del == [] + [rl[0]];
    PtrsSnoc([], rl[0]);
    BumpAndSweep(mgr, 0);
    freedAtEpochTwo := sentinel in mgr.freed;
  }

  /** One enqueue and one dequeue by thread 0 on a new queue: the old
      sentinel is the only retired node, tagged with epoch 0. */
  method RetireAtEpochZero<T>(x: T) returns (mgr: EbrManager, sentinel: NodeId)
    ensures fresh(mgr) && mgr.Valid() && mgr.globalEpoch == 0 && mgr.freed == {}
    ensures 0 in mgr.registry && mgr.registry[0].retiredList == [RetiredNode(sentinel, 0)]
  {
    mgr := new EbrManager();
    var q := new MpmcQueue<T>(mgr);
    q.Enqueue(0, x);
    assert mgr.registry[0].retiredList == [];
    sentinel := q.head;
    var ok, v := q.Dequeue(0, x);
    assert [] + [RetiredNode(sentinel, 0)] == [RetiredNode(sentinel, 0)];
  }

  /** The epoch moves on by one, then thread `tid` passes through a critical
      section, whose `leave` sweeps its list at the new epoch. */
  method BumpAndSweep(mgr: EbrManager, tid: ThreadId)
    requires mgr.Valid() && tid in mgr.registry
    modifies mgr
    ensures mgr.Valid() && tid in mgr.registry && mgr.globalEpoch == old(mgr.globalEpoch) + 1
    ensures mgr.registry[tid].retiredList == StillRetired(old(mgr.registry)[tid].retiredList, mgr.globalEpoch)
    ensures mgr.freed == old(mgr.freed) + Ptrs(ToDelete(old(mgr.registry)[tid].retiredList, mgr.globalEpoch))
  {
    mgr.BumpEpoch();
    mgr.Enter(tid);
    mgr.Leave(tid);
  }
}
