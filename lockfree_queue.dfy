// Epoch-based reclamation and the sentinel-headed linked queue of
// src/tools/lockfreequeue.hpp, modelled sequentially: compare-and-swap
// always succeeds, atomics are plain fields, and the node heap is an arena
// of node ids. Deleting a node moves its id into the manager's `freed` set.

module LockFreeQueue {
  import opened Wrappers

  /** A sweep of the calling thread's retired list happens every 64 retires. */
  const RetireThreshold: int := 64
  /** `enqueue` waits while this many items are queued. */
  const MaxSize: int := 10000

  type NodeId = nat
  type ThreadId = nat

  /** A retired node with the global epoch at the time it was retired. */
  type Retired = (NodeId, int)

  /** `ThreadControlBlock`; the block's index in the manager stands for its pointer. */
  datatype ControlBlock = ControlBlock(active: bool, localEpoch: int, retired: seq<Retired>, retireCount: int)

  /** A block as `register_thread` creates it. */
  const FreshBlock := ControlBlock(false, 0, [], 0)

  /** The block after `retire(node)` at global epoch `cur`: the entry joins
      the end of the list; on the 64th retire since the last sweep the list
      is swept and the counter reset, otherwise the counter goes up. */
  function AfterRetire(b: ControlBlock, node: NodeId, cur: int): ControlBlock
  {
    var appended := b.retired + [(node, cur)];
    if b.retireCount + 1 >= RetireThreshold then b.(retired := Survivors(appended, cur), retireCount := 0)
    else b.(retired := appended, retireCount := b.retireCount + 1)
  }

  /** The nodes that `retire(node)` at global epoch `cur` deletes: those of
      its sweep on the 64th retire, and none otherwise. */
  function FreedByRetire(b: ControlBlock, node: NodeId, cur: int): set<NodeId>
  {
    if b.retireCount + 1 >= RetireThreshold then ReclaimedIds(b.retired + [(node, cur)], cur) else {}
  }

  /** The blocks after `local_tcb` is looked up: a thread without a block
      has a fresh one appended. */
  function Registered(blocks: seq<ControlBlock>, known: bool): seq<ControlBlock>
  {
    if known then blocks else blocks + [FreshBlock]
  }

  /** True when `e`, retired at `e.1`, is two epochs old at epoch `cur`. */
  predicate Reclaimable(e: Retired, cur: int)
  {
    e.1 + 2 <= cur
  }

  /** The entries `try_reclaim` keeps, in their original order. */
  function Survivors(rl: seq<Retired>, cur: int): (r: seq<Retired>)
    ensures |r| <= |rl|
  {
    if rl == [] then []
    else
      var last := rl[|rl| - 1];
      assert rl == rl[..|rl| - 1] + [last];
      Survivors(rl[..|rl| - 1], cur) + (if Reclaimable(last, cur) then [] else [last])
  }

  /** The nodes `try_reclaim` deletes. */
  function ReclaimedIds(rl: seq<Retired>, cur: int): set<NodeId>
  {
    if rl == [] then {}
    else
      var last := rl[|rl| - 1];
      ReclaimedIds(rl[..|rl| - 1], cur) + (if Reclaimable(last, cur) then {last.0} else {})
  }

  /** An entry survives exactly when it was listed and is not yet two epochs old. */
  lemma {:induction false} SurvivorsMembers(rl: seq<Retired>, cur: int, e: Retired)
    ensures e in Survivors(rl, cur) <==> e in rl && !Reclaimable(e, cur)
  {
    if rl != [] {
      SurvivorsMembers(rl[..|rl| - 1], cur, e);
      assert rl == rl[..|rl| - 1] + [rl[|rl| - 1]];
    }
  }

  /** A node is deleted exactly when one of its entries is two epochs old. */
  lemma {:induction false} ReclaimedIdsMembers(rl: seq<Retired>, cur: int, n: NodeId)
    ensures n in ReclaimedIds(rl, cur) <==> exists e :: e in rl && Reclaimable(e, cur) && e.0 == n
  {
    if rl != [] {
      var init := rl[..|rl| - 1];
      var last := rl[|rl| - 1];
      ReclaimedIdsMembers(init, cur, n);
      assert rl == init + [last];
      if n in ReclaimedIds(rl, cur) && n !in ReclaimedIds(init, cur) {
        assert last in rl && Reclaimable(last, cur) && last.0 == n;
      }
      if exists e :: e in rl && Reclaimable(e, cur) && e.0 == n {
        var e :| e in rl && Reclaimable(e, cur) && e.0 == n;
        if e != last {
          assert e in init;
        }
      }
    }
  }

  /** The advance test of `try_advance_epoch`: no active block has observed
      an epoch at or below `cur`. */
  predicate CanAdvance(blocks: seq<ControlBlock>, cur: int)
  {
    forall i :: 0 <= i < |blocks| ==> !(blocks[i].active && blocks[i].localEpoch <= cur)
  }

  /** Since no block's local epoch exceeds the global one, the advance test
      holds exactly when no block is active. */
  lemma AdvanceNeedsAllInactive(blocks: seq<ControlBlock>, cur: int)
    requires forall i :: 0 <= i < |blocks| ==> blocks[i].localEpoch <= cur
    ensures CanAdvance(blocks, cur) <==> forall i :: 0 <= i < |blocks| ==> !blocks[i].active
  {
  }

  /** The nodes a sweep of each of the first `k` blocks deletes at epoch `cur`. */
  function SweptIds(blocks: seq<ControlBlock>, k: nat, cur: int): set<NodeId>
    requires k <= |blocks|
  {
    if k == 0 then {} else SweptIds(blocks, k - 1, cur) + ReclaimedIds(blocks[k - 1].retired, cur)
  }

  class EbrManager {
    var blocks: seq<ControlBlock>
    var globalEpoch: int
    var freed: set<NodeId>
    /** For each freed node, the epoch at which it had been retired. */
    ghost var freedRetiredAt: map<NodeId, int>
    /** Every node ever handed to `retire`. */
    ghost var handed: set<NodeId>

    ghost predicate Valid()
      reads this
    {
      && 0 <= globalEpoch
      && (forall i :: 0 <= i < |blocks| ==> 0 <= blocks[i].localEpoch <= globalEpoch)
      && (forall i :: 0 <= i < |blocks| ==> 0 <= blocks[i].retireCount < RetireThreshold)
      && (forall i, e :: 0 <= i < |blocks| && e in blocks[i].retired ==> e.1 <= globalEpoch)
      && freed == freedRetiredAt.Keys
      && (forall i, e :: 0 <= i < |blocks| && e in blocks[i].retired ==> e.0 in handed)
      && freed <= handed
      // no node is freed before the global epoch is two past its retirement epoch
      && (forall n :: n in freedRetiredAt ==> freedRetiredAt[n] + 2 <= globalEpoch)
    }

    constructor ()
      ensures Valid()
      ensures blocks == [] && globalEpoch == 0 && freed == {} && handed == {}
    {
      blocks, globalEpoch, freed := [], 0, {};
      freedRetiredAt := map[];
      handed := {};
    }

    /** `register_thread`: one fresh block is appended; the others stay as they are. */
    method RegisterThread() returns (tcb: nat)
      requires Valid()
      modifies this
      ensures Valid()
      ensures tcb == |old(blocks)| && blocks == old(blocks) + [FreshBlock]
      ensures globalEpoch == old(globalEpoch) && freed == old(freed)
      ensures handed == old(handed)
    {
      tcb := |blocks|;
      blocks := blocks + [FreshBlock];
    }

    /** `enter_critical`: publish the global epoch and mark the block active. */
    method EnterCritical(tcb: nat)
      requires Valid() && tcb < |blocks|
      modifies this
      ensures Valid()
      ensures blocks == old(blocks)[tcb := old(blocks)[tcb].(localEpoch := globalEpoch, active := true)]
      ensures globalEpoch == old(globalEpoch) && freed == old(freed)
      ensures handed == old(handed)
    {
      blocks := blocks[tcb := blocks[tcb].(localEpoch := globalEpoch, active := true)];
    }

    /** `exit_critical`: only the active flag is cleared. */
    method ExitCritical(tcb: nat)
      requires Valid() && tcb < |blocks|
      modifies this
      ensures Valid()
      ensures blocks == old(blocks)[tcb := old(blocks)[tcb].(active := false)]
      ensures globalEpoch == old(globalEpoch) && freed == old(freed)
      ensures handed == old(handed)
    {
      blocks := blocks[tcb := blocks[tcb].(active := false)];
    }

    /** `retire`: the node joins the end of the block's list, tagged with the
        global epoch; on the 64th retire since the last sweep the block's list
        is swept and the counter reset. */
    method Retire(tcb: nat, node: NodeId)
      requires Valid() && tcb < |blocks|
      modifies this
      ensures Valid()
      ensures globalEpoch == old(globalEpoch)
      ensures blocks == old(blocks)[tcb := AfterRetire(old(blocks)[tcb], node, globalEpoch)]
      ensures freed == old(freed) + FreedByRetire(old(blocks)[tcb], node, globalEpoch)
      ensures handed == old(handed) + {node}
    {
      handed := handed + {node};
      var b := blocks[tcb];
      var count := b.retireCount + 1;
      if count >= RetireThreshold {
        // the counter is reset before the sweep rather than after it: the
        // sweep does not read it
        blocks := blocks[tcb := b.(retired := b.retired + [(node, globalEpoch)], retireCount := 0)];
        TryReclaim(tcb);
      } else {
        blocks := blocks[tcb := b.(retired := b.retired + [(node, globalEpoch)], retireCount := count)];
      }
    }

    /** `try_advance_epoch`: the epoch moves on by one unless some active
        block has observed an epoch at or below the current one. */
    method TryAdvanceEpoch()
      requires Valid()
      modifies this
      ensures Valid()
      ensures blocks == old(blocks) && freed == old(freed) && handed == old(handed)
      ensures globalEpoch == old(globalEpoch) + (if CanAdvance(old(blocks), old(globalEpoch)) then 1 else 0)
    {
      var cur := globalEpoch;
      var i := 0;
      while i < |blocks|
        invariant 0 <= i <= |blocks|
        invariant forall j :: 0 <= j < i ==> !(blocks[j].active && blocks[j].localEpoch <= cur)
      {
        if blocks[i].active && blocks[i].localEpoch <= cur {
          return;
        }
        i := i + 1;
      }
      globalEpoch := cur + 1;
    }

    /** `try_reclaim`: delete exactly the entries two epochs old and keep the
        others in their order. */
    method TryReclaim(tcb: nat)
      requires Valid() && tcb < |blocks|
      modifies this
      ensures Valid()
      ensures globalEpoch == old(globalEpoch) && |blocks| == |old(blocks)|
      ensures blocks == old(blocks)[tcb := old(blocks)[tcb].(retired := Survivors(old(blocks)[tcb].retired, globalEpoch))]
      ensures freed == old(freed) + ReclaimedIds(old(blocks)[tcb].retired, globalEpoch)
      ensures handed == old(handed)
    {
      var rl := blocks[tcb].retired;
      var kept, gone, at := Sweep(rl, globalEpoch);
      freed := freed + gone;
      freedRetiredAt := freedRetiredAt + at;
      blocks := blocks[tcb := blocks[tcb].(retired := kept)];
      forall j, e | 0 <= j < |blocks| && e in blocks[j].retired
        ensures e.1 <= globalEpoch && e.0 in handed
      {
        if j == tcb {
          SurvivorsMembers(rl, globalEpoch, e);
        } else {
          assert e in old(blocks)[j].retired;
        }
      }
      forall n | n in gone
        ensures n in handed
      {
        ReclaimedIdsMembers(rl, globalEpoch, n);
        var e :| e in rl && Reclaimable(e, globalEpoch) && e.0 == n;
      }
    }

    /** The loop of `try_reclaim` over one retired list: the entries kept,
        the nodes deleted, and (for the proof) the epoch each deleted node had
        been retired at. */
    static method Sweep(rl: seq<Retired>, cur: int) returns (kept: seq<Retired>, gone: set<NodeId>, ghost at: map<NodeId, int>)
      ensures kept == Survivors(rl, cur)
      ensures gone == ReclaimedIds(rl, cur)
      ensures at.Keys == gone && forall n :: n in at ==> at[n] + 2 <= cur
    {
      kept, gone, at := [], {}, map[];
      var i := 0;
      while i < |rl|
        invariant 0 <= i <= |rl|
        invariant kept == Survivors(rl[..i], cur)
        invariant gone == ReclaimedIds(rl[..i], cur)
        invariant at.Keys == gone && forall n :: n in at ==> at[n] + 2 <= cur
      {
        assert rl[..i + 1][..i] == rl[..i];
        if Reclaimable(rl[i], cur) {
          gone := gone + {rl[i].0};
          at := at[rl[i].0 := rl[i].1];
        } else {
          kept := kept + [rl[i]];
        }
        i := i + 1;
      }
      assert rl[..i] == rl;
    }

    /** One round of the reclaimer thread's loop body: try to advance the
        epoch, then sweep every block. */
    method ReclaimerRound()
      requires Valid()
      modifies this
      ensures Valid()
      ensures |blocks| == |old(blocks)|
      ensures globalEpoch == old(globalEpoch) + (if CanAdvance(old(blocks), old(globalEpoch)) then 1 else 0)
      ensures forall i :: 0 <= i < |blocks| ==>
                blocks[i] == old(blocks)[i].(retired := Survivors(old(blocks)[i].retired, globalEpoch))
      ensures freed == old(freed) + SweptIds(old(blocks), |old(blocks)|, globalEpoch)
      ensures handed == old(handed)
    {
      TryAdvanceEpoch();
      SweepAll();
    }

    /** The sweep of every block that ends a reclaimer round. */
    method SweepAll()
      requires Valid()
      modifies this
      ensures Valid()
      ensures |blocks| == |old(blocks)| && globalEpoch == old(globalEpoch)
      ensures forall i :: 0 <= i < |blocks| ==>
                blocks[i] == old(blocks)[i].(retired := Survivors(old(blocks)[i].retired, globalEpoch))
      ensures freed == old(freed) + SweptIds(old(blocks), |old(blocks)|, globalEpoch)
      ensures handed == old(handed)
    {
      ghost var start := blocks;
      var i := 0;
      while i < |blocks|
        invariant 0 <= i <= |start| && Valid()
        invariant globalEpoch == old(globalEpoch) && handed == old(handed)
        invariant blocks == SweptPrefix(start, i, globalEpoch)
        invariant freed == old(freed) + SweptIds(start, i, globalEpoch)
      {
        SweptPrefixAt(start, i, globalEpoch, i);
        TryReclaim(i);
        i := i + 1;
      }
      forall j | 0 <= j < |blocks|
        ensures blocks[j] == start[j].(retired := Survivors(start[j].retired, globalEpoch))
      {
        SweptPrefixAt(start, |start|, globalEpoch, j);
      }
    }
  }

  /** `bs` with the first `k` blocks swept at epoch `cur`. */
  function SweptPrefix(bs: seq<ControlBlock>, k: nat, cur: int): (r: seq<ControlBlock>)
    requires k <= |bs|
    ensures |r| == |bs|
  {
    if k == 0 then bs
    else SweptPrefix(bs, k - 1, cur)[k - 1 := bs[k - 1].(retired := Survivors(bs[k - 1].retired, cur))]
  }

  /** Block `j` of `SweptPrefix`: swept when it is among the first `k`,
      untouched otherwise. */
  lemma {:induction false} SweptPrefixAt(bs: seq<ControlBlock>, k: nat, cur: int, j: nat)
    requires k <= |bs| && j < |bs|
    ensures SweptPrefix(bs, k, cur)[j] == if j < k then bs[j].(retired := Survivors(bs[j].retired, cur)) else bs[j]
  {
    if k > 0 && j != k - 1 {
      SweptPrefixAt(bs, k - 1, cur, j);
    }
  }

  /** A queue node: its value and the id of the next node, if any. */
  datatype Node<T> = Node(data: T, next: Option<NodeId>)

  /** `chain` lists distinct allocated nodes, each linked to the next, the
      last one ending the list, and the nodes after the first hold `xs`. */
  ghost predicate Spells<T>(nodes: map<NodeId, Node<T>>, chain: seq<NodeId>, xs: seq<T>, nextId: NodeId)
  {
    && 1 <= |chain|
    && (forall k :: 0 <= k < |chain| ==> chain[k] in nodes && chain[k] < nextId)
    && (forall i, j :: 0 <= i < j < |chain| ==> chain[i] != chain[j])
    && (forall k :: 0 <= k < |chain| - 1 ==> nodes[chain[k]].next == Some(chain[k + 1]))
    && nodes[chain[|chain| - 1]].next == None
    && |xs| == |chain| - 1
    && (forall k :: 0 <= k < |xs| ==> xs[k] == nodes[chain[k + 1]].data)
  }

  /** Linking a node with a fresh id after the last node extends the list by
      one value. */
  lemma LinkExtends<T>(nodes: map<NodeId, Node<T>>, chain: seq<NodeId>, xs: seq<T>, nextId: NodeId, item: T)
    requires Spells(nodes, chain, xs, nextId)
    ensures var last := chain[|chain| - 1];
            var nodes' := nodes[nextId := Node(item, None)];
            Spells(nodes'[last := nodes'[last].(next := Some(nextId))], chain + [nextId], xs + [item], nextId + 1)
  {
    var last := chain[|chain| - 1];
    var nodes' := nodes[nextId := Node(item, None)];
    var nodes'' := nodes'[last := nodes'[last].(next := Some(nextId))];
    var chain' := chain + [nextId];
    forall k | 0 <= k < |chain'| - 1
      ensures nodes''[chain'[k]].next == Some(chain'[k + 1])
    {
      if k < |chain| - 1 {
        assert chain'[k] == chain[k] != last;
      }
    }
    forall k | 0 <= k < |xs| + 1
      ensures (xs + [item])[k] == nodes''[chain'[k + 1]].data
    {
      if k < |xs| {
        assert chain'[k + 1] == chain[k + 1] != nextId;
      }
    }
  }

  /** `MPMCQueue<T>` of lockfreequeue.hpp: a sentinel-headed singly-linked
      list in an arena of nodes, with a `size` counter. */
  class MpmcQueue<T> {
    // public view
    ghost var Contents: seq<T>
    /** The node ids from the sentinel (`head`) to the last node (`tail`). */
    ghost var chain: seq<NodeId>
    /** Ids of the nodes unlinked so far (retired or already freed). */
    ghost var unlinked: set<NodeId>

    var nodes: map<NodeId, Node<T>>
    var head: NodeId
    var tail: NodeId
    var size: int
    /** Next id that `new Node` hands out. */
    var nextId: NodeId
    /** The thread-local `local_tcb`, per thread: index of its control block. */
    var localTcb: map<ThreadId, nat>
    const mgr: EbrManager

    /** The linked list from `head` to `tail` spells out `Contents`. */
    ghost predicate ListValid()
      reads this
    {
      && Spells(nodes, chain, Contents, nextId)
      && chain[0] == head && chain[|chain| - 1] == tail
      && size == |Contents|
      && (forall n :: n in unlinked ==> n < nextId && n !in chain)
    }

    ghost predicate Valid()
      reads this, mgr
    {
      && mgr.Valid()
      && ListValid()
      && (forall t :: t in localTcb ==> localTcb[t] < |mgr.blocks|)
      // every node handed to the manager has left the list
      && mgr.handed <= unlinked
    }

    /** The constructor: one sentinel node holding `T()`, head and tail on it. */
    constructor (blank: T, mgr: EbrManager)
      requires mgr.Valid() && mgr.handed == {}
      ensures Valid() && this.mgr == mgr
      ensures Contents == [] && size == 0 && localTcb == map[]
    {
      this.mgr := mgr;
      nodes := map[0 := Node(blank, None)];
      head, tail := 0, 0;
      size := 0;
      nextId := 1;
      localTcb := map[];
      chain := [0];
      Contents := [];
      unlinked := {};
    }

    /** `empty()` reads the size counter. */
    function Empty(): (e: bool)
      reads this, mgr
      requires Valid()
      ensures e <==> Contents == []
    {
      size == 0
    }

    /** `enqueue`: a fresh node is linked after the last one and the size
        counter goes up. The `MAX_SIZE` busy-wait is the precondition. */
    method Enqueue(item: T)
      requires Valid() && size < MaxSize
      modifies this
      ensures Valid()
      ensures Contents == old(Contents) + [item] && size == old(size) + 1
      ensures head == old(head) && localTcb == old(localTcb)
    {
      var node := nextId;
      LinkExtends(nodes, chain, Contents, nextId, item);
      nextId := nextId + 1;
      var last := tail;
      nodes := nodes[node := Node(item, None)];
      nodes := nodes[last := nodes[last].(next := Some(node))];
      size := size + 1;
      tail := node;
      chain := chain + [node];
      Contents := Contents + [item];
    }

    /** Registers the calling thread's control block on first use. */
    method LocalBlock(tid: ThreadId) returns (tcb: nat)
      requires Valid()
      modifies this, mgr
      ensures Valid()
      ensures tid in localTcb && tcb == localTcb[tid] && tcb < |mgr.blocks|
      ensures localTcb == old(localTcb)[tid := tcb]
      ensures tid in old(localTcb) ==> tcb == old(localTcb)[tid] && mgr.blocks == old(mgr.blocks)
      ensures tid !in old(localTcb) ==> mgr.blocks == old(mgr.blocks) + [FreshBlock]
      ensures tid !in old(localTcb) ==> tcb == |old(mgr.blocks)|
      ensures Contents == old(Contents) && chain == old(chain) && nodes == old(nodes) && unlinked == old(unlinked)
      ensures head == old(head) && tail == old(tail) && size == old(size) && nextId == old(nextId)
      ensures mgr.globalEpoch == old(mgr.globalEpoch) && mgr.freed == old(mgr.freed)
      ensures forall t :: t in old(localTcb) ==> t in localTcb && localTcb[t] == old(localTcb)[t]
    {
      if tid in localTcb {
        tcb := localTcb[tid];
      } else {
        tcb := mgr.RegisterThread();
        localTcb := localTcb[tid := tcb];
      }
    }

    /** Unlinks the sentinel: the first real node becomes the sentinel. */
    method Unlink() returns (first: NodeId, value: T)
      requires ListValid() && Contents != []
      modifies this
      ensures ListValid()
      ensures first == old(head) && value == old(Contents)[0]
      ensures Contents == old(Contents)[1..] && size == old(size) - 1
      ensures head == old(nodes)[old(head)].next.value
      ensures unlinked == old(unlinked) + {first}
      ensures localTcb == old(localTcb) && nextId == old(nextId)
    {
      first := head;
      var next := nodes[first].next;
      assert next == Some(chain[1]);
      head := next.value;
      value := nodes[next.value].data;
      size := size - 1;
      chain := chain[1..];
      Contents := Contents[1..];
      unlinked := unlinked + {first};
    }

    /** The opening of `dequeue`: look up (or register) the thread's block
        and enter the critical section. */
    method EnterDequeue(tid: ThreadId) returns (tcb: nat)
      requires Valid()
      modifies this, mgr
      ensures Valid()
      ensures tid in localTcb && tcb == localTcb[tid] && localTcb == old(localTcb)[tid := tcb]
      ensures tid in old(localTcb) ==> tcb == old(localTcb)[tid]
      ensures tid !in old(localTcb) ==> tcb == |old(mgr.blocks)|
      ensures Contents == old(Contents) && size == old(size) && head == old(head) && nodes == old(nodes)
      ensures mgr.globalEpoch == old(mgr.globalEpoch) && mgr.freed == old(mgr.freed)
      ensures tcb < |Registered(old(mgr.blocks), tid in old(localTcb))|
      ensures var registered := Registered(old(mgr.blocks), tid in old(localTcb));
              mgr.blocks == registered[tcb := registered[tcb].(localEpoch := mgr.globalEpoch, active := true)]
    {
      tcb := LocalBlock(tid);
      mgr.EnterCritical(tcb);
    }

    /** The successful path of `dequeue`: unlink the sentinel, retire it and
        leave the critical section. */
    method TakeFirst(tcb: nat) returns (value: T)
      requires Valid() && tcb < |mgr.blocks| && Contents != []
      modifies this, mgr
      ensures Valid()
      ensures value == old(Contents)[0] && Contents == old(Contents)[1..]
      ensures size == old(size) - 1 && head == old(nodes)[old(head)].next.value
      ensures mgr.globalEpoch == old(mgr.globalEpoch) && localTcb == old(localTcb)
      ensures mgr.blocks == old(mgr.blocks)[tcb := AfterRetire(old(mgr.blocks)[tcb], old(head), mgr.globalEpoch).(active := false)]
      ensures mgr.freed == old(mgr.freed) + FreedByRetire(old(mgr.blocks)[tcb], old(head), mgr.globalEpoch)
    {
      var first;
      first, value := Unlink();
      mgr.Retire(tcb, first);
      mgr.ExitCritical(tcb);
    }

    /** `dequeue` as written: the first value after the sentinel is copied
        out, the size counter goes down, the old sentinel is retired and the
        dequeued node becomes the new sentinel. On an empty queue it returns
        false WITHOUT leaving the critical section. */
    method Dequeue(tid: ThreadId, result: T) returns (ok: bool, result': T)
      requires Valid()
      modifies this, mgr
      ensures Valid() && tid in localTcb && localTcb == old(localTcb)[tid := localTcb[tid]]
      ensures tid in old(localTcb) ==> localTcb[tid] == old(localTcb)[tid]
      ensures tid !in old(localTcb) ==> localTcb[tid] == |old(mgr.blocks)|
      ensures ok <==> old(Contents) != []
      ensures ok ==> result' == old(Contents)[0] && Contents == old(Contents)[1..]
      ensures ok ==> size == old(size) - 1 && head == old(nodes)[old(head)].next.value
      ensures !ok ==> result' == result && Contents == old(Contents) && size == old(size)
      ensures mgr.globalEpoch == old(mgr.globalEpoch)
      ensures localTcb[tid] < |Registered(old(mgr.blocks), tid in old(localTcb))|
      ensures var registered := Registered(old(mgr.blocks), tid in old(localTcb));
              var tcb := localTcb[tid];
              var entered := registered[tcb].(localEpoch := mgr.globalEpoch, active := true);
              if ok then
                && mgr.blocks == registered[tcb := AfterRetire(entered, old(head), mgr.globalEpoch).(active := false)]
                && mgr.freed == old(mgr.freed) + FreedByRetire(entered, old(head), mgr.globalEpoch)
              else
                // the block stays active: nothing leaves the critical section
                && mgr.blocks == registered[tcb := entered]
                && mgr.freed == old(mgr.freed)
    {
      var tcb := EnterDequeue(tid);
      assert |chain| > 1 ==> nodes[chain[0]].next == Some(chain[1]);
      if nodes[head].next == None {
        return false, result;
      }
      result' := TakeFirst(tcb);
      ok := true;
    }

    /** `dequeue` as evidently intended: the empty path also leaves the
        critical section, as the unreachable `exit_critical` after the loop
        shows. The block is inactive afterwards on both paths. */
    method DequeueReleasing(tid: ThreadId, result: T) returns (ok: bool, result': T)
      requires Valid()
      modifies this, mgr
      ensures Valid() && tid in localTcb && localTcb == old(localTcb)[tid := localTcb[tid]]
      ensures tid in old(localTcb) ==> localTcb[tid] == old(localTcb)[tid]
      ensures tid !in old(localTcb) ==> localTcb[tid] == |old(mgr.blocks)|
      ensures ok <==> old(Contents) != []
      ensures ok ==> result' == old(Contents)[0] && Contents == old(Contents)[1..]
      ensures ok ==> size == old(size) - 1 && head == old(nodes)[old(head)].next.value
      ensures !ok ==> result' == result && Contents == old(Contents) && size == old(size)
      ensures mgr.globalEpoch == old(mgr.globalEpoch)
      ensures localTcb[tid] < |Registered(old(mgr.blocks), tid in old(localTcb))|
      ensures var registered := Registered(old(mgr.blocks), tid in old(localTcb));
              var tcb := localTcb[tid];
              var entered := registered[tcb].(localEpoch := mgr.globalEpoch, active := true);
              if ok then
                && mgr.blocks == registered[tcb := AfterRetire(entered, old(head), mgr.globalEpoch).(active := false)]
                && mgr.freed == old(mgr.freed) + FreedByRetire(entered, old(head), mgr.globalEpoch)
              else
                && mgr.blocks == registered[tcb := entered.(active := false)]
                && mgr.freed == old(mgr.freed)
    {
      var tcb := EnterDequeue(tid);
      assert |chain| > 1 ==> nodes[chain[0]].next == Some(chain[1]);
      if nodes[head].next == None {
        mgr.ExitCritical(tcb);
        return false, result;
      }
      result' := TakeFirst(tcb);
      ok := true;
    }
  }

  /** As written, one `dequeue` on an empty queue leaves the thread's block
      active, so the reclaimer cannot advance the epoch (and no retired node
      becomes old enough to free) until the same thread's next successful
      dequeue leaves the critical section. */
  method EmptyDequeueStallsEpoch<T>(blank: T) returns (before: int, after: int)
    ensures before == 0 && after == before
  {
    var mgr := new EbrManager();
    var q := new MpmcQueue(blank, mgr);
    var ok, _ := q.Dequeue(7, blank);
    // the thread's only block was entered and stays active
    assert q.localTcb[7] == 0 && mgr.blocks[0].active;
    before := mgr.globalEpoch;
    mgr.TryAdvanceEpoch();
    mgr.TryAdvanceEpoch();
    after := mgr.globalEpoch;
  }

  /** With the corrected dequeue the same sequence lets the epoch advance. */
  method ReleasingDequeueLetsEpochAdvance<T>(blank: T) returns (before: int, after: int)
    ensures before == 0 && after == before + 2
  {
    var mgr := new EbrManager();
    var q := new MpmcQueue(blank, mgr);
    var ok, _ := q.DequeueReleasing(7, blank);
    before := mgr.globalEpoch;
    mgr.TryAdvanceEpoch();
    mgr.TryAdvanceEpoch();
    after := mgr.globalEpoch;
  }
}
