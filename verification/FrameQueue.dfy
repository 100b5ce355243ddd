/** frame_que_v2.c in place: node objects, two linked lists and a buffer
    allocator, proved against the operations of QueueSpec. */
module FrameQueues {
  import opened Wrappers
  import opened QueueSpec
  import opened QueueLists
  import opened QueueLedger
  import opened ConsumerMask
  import opened FrameLists

  /** The buffer allocator: it hands out a buffer that is not live, or none, and
      takes back live buffers only. */
  class BufferPool {
    var live: set<Buffer>
    var next: Buffer

    ghost predicate Valid()
      reads this
    {
      forall b :: b in live ==> b < next
    }

    constructor ()
      ensures Valid() && live == {}
    {
      live, next := {}, 0;
    }

    /** What the next answer is: a buffer that is not live, if it is granted. */
    ghost function Answer(grant: bool): Option<Buffer>
      requires Valid()
      reads this
    {
      if grant then Some(next) else None
    }

    method Allocate(grant: bool) returns (b: Option<Buffer>)
      requires Valid()
      modifies this
      ensures Valid() && b == old(Answer(grant)) && (b.Some? <==> grant)
      ensures b.Some? ==> b.value !in old(live)
      ensures live == if grant then old(live) + {b.value} else old(live)
    {
      b := None;
      if grant {
        b := Some(next);
        live := live + {next};
        next := next + 1;
      }
    }

    method Free(b: Buffer)
      requires Valid() && b in live
      modifies this
      ensures Valid() && live == old(live) - {b}
    {
      live := live - {b};
    }
  }

  /** How many of the first n allocations are granted. */
  function Grants(memory: nat -> bool, n: nat): nat {
    if n == 0 then 0 else Grants(memory, n - 1) + if memory(n - 1) then 1 else 0
  }

  datatype ConsumerInfo = ConsumerInfo(consumerId: bv32, getCount: nat, releaseCount: nat, enabled: bool)

  ghost function EnabledIn(consumers: seq<ConsumerInfo>): set<Consumer> {
    set c: Consumer | c < 8 && c < |consumers| && consumers[c].enabled
  }

  /** One release more of consumer c. */
  function Counted(consumers: seq<ConsumerInfo>, c: Consumer): seq<ConsumerInfo>
    requires |consumers| == 8
  {
    consumers[c := consumers[c].(releaseCount := consumers[c].releaseCount + 1)]
  }

  /** The queue, the result and the consumers are as x says of a get by consumer c. */
  predicate Got(
    x: Effect, c: Consumer, before: seq<ConsumerInfo>, q: Queue, frame: Option<Buffer>, after: seq<ConsumerInfo>)
    requires |before| == 8
  {
    && q == x.q && frame == x.frame
    && after == if x.ok then before[c := before[c].(getCount := before[c].getCount + 1)] else before
  }

  lemma CompleteIs(q: Queue, b: Buffer, i: nat, stamp: nat)
    requires q.count != 0 && i == First(LentOut(b), q.free) < |q.free|
    ensures var s := q.free[i].(inUse := false, accessed := {}, mask := q.active, stamp := stamp);
      Complete(q, b, stamp) == Effect(
        q.(free := RemoveAt(q.free, i), ready := q.ready + [s], totalComplete := q.totalComplete + 1),
        true, None, [], [])
  {
  }

  lemma AddedAndRemoved<T>(a: set<T>, x: T)
    ensures x !in a ==> (a + {x}) - {x} == a
  {
  }

  lemma MovedMember<T>(a: set<T>, b: set<T>, x: T)
    ensures x in b ==> (a + {x}) + (b - {x}) == a + b
  {
  }

  /** What release does to the lists and to the buffers listed, by what it unlinks. */
  lemma ReleaseSettles(q: Queue, listed: set<Buffer>, b: Buffer, u: (Queue, Option<Slot>))
    requires Balances(q, listed) && u == Unlink(q, b)
    ensures u.1 != None ==> b in listed && u.1.value.frame == Some(b)
    ensures Release(q, b).q == if u.1 == None then u.0 else Reclaim(u.0, u.1.value).q
    ensures Ledger(listed, Release(q, b)) == if u.1 == None then listed else listed - {b}
    ensures Balances(Release(q, b).q, Ledger(listed, Release(q, b)))
  {
    UnlinkLedger(q, listed, b);
    ReleaseLedger(q, listed, b);
  }

  /** Release finds a ready node that carries b. */
  predicate Finds(q: Queue, b: Buffer) {
    q.count != 0 && First(Carries(b), q.ready) < |q.ready|
  }

  lemma FreshBalances(q: Queue)
    requires q == Fresh(q.format, |q.free|)
    ensures Balances(q, {})
  {
    forall b ensures Carriers(b, q) == 0 {
      CountPositive(Carries(b), q.free);
    }
  }

  /** The two lists: the ready nodes, what they say, what the free nodes say, and
      the count of freed frames. */
  datatype Lists = Lists(nodes: seq<FrameNode>, ready: seq<Slot>, free: seq<Slot>, freed: nat)

  /** The node objects a sweep leaves in the ready list. */
  ghost function KeptNodes(op: Sweep, s: seq<Slot>, nodes: seq<FrameNode>): (r: seq<FrameNode>)
    requires |s| == |nodes|
    ensures |r| == |Kept(op, s)|
  {
    if s == [] then [] else
      var n := |s| - 1;
      KeptNodes(op, s[..n], nodes[..n]) + if Goes(op, s[n]) then [] else [nodes[n]]
  }

  /** The lists when a sweep over `nodes` has visited i of them. */
  ghost function AfterSweep(op: Sweep, q: Queue, nodes: seq<FrameNode>, i: nat): Lists
    requires i <= |nodes| == |q.ready|
  {
    Lists(KeptNodes(op, q.ready[..i], nodes[..i]) + nodes[i..],
          Kept(op, q.ready[..i]) + q.ready[i..],
          q.free + Gone(op, q.ready[..i]),
          q.totalFree + if op.UnregisterSweep? then |Gone(op, q.ready[..i])| else 0)
  }

  /** Replacing and removing the element between two sequences. */
  lemma Middle<T>(a: seq<T>, s: seq<T>, i: nat, y: T)
    requires i < |s|
    ensures (a + s[i..])[|a| := y] == (a + [y]) + s[i + 1..]
    ensures (a + s[i..])[..|a|] + (a + s[i..])[|a| + 1..] == a + s[i + 1..]
    ensures (a + s[i..])[|a| := y][..|a|] + (a + s[i..])[|a| := y][|a| + 1..] == a + s[i + 1..]
    ensures a + s[i..] == (a + [s[i]]) + s[i + 1..]
  {
  }

  lemma KeptNodesStep(op: Sweep, s: seq<Slot>, nodes: seq<FrameNode>, x: Slot, n: FrameNode)
    requires |s| == |nodes|
    ensures KeptNodes(op, s + [x], nodes + [n]) ==
      if Goes(op, x) then KeptNodes(op, s, nodes) else KeptNodes(op, s, nodes) + [n]
  {
    assert (s + [x])[..|s|] == s && (nodes + [n])[..|s|] == nodes;
  }

  lemma SweepVisitNodes(op: Sweep, q: Queue, nodes: seq<FrameNode>, i: nat)
    requires i < |nodes| == |q.ready|
    ensures var l, m, k := AfterSweep(op, q, nodes, i), AfterSweep(op, q, nodes, i + 1), |Kept(op, q.ready[..i])|;
      && k < |l.nodes|
      && m.nodes == if Goes(op, q.ready[i]) then Drop(l.nodes, k) else l.nodes
  {
    KeptNodesStep(op, q.ready[..i], nodes[..i], q.ready[i], nodes[i]);
    assert q.ready[..i + 1] == q.ready[..i] + [q.ready[i]];
    assert nodes[..i + 1] == nodes[..i] + [nodes[i]];
    Middle(KeptNodes(op, q.ready[..i], nodes[..i]), nodes, i, nodes[i]);
  }

  lemma KeptAndGone(op: Sweep, s: seq<Slot>, i: nat)
    requires i < |s|
    ensures Kept(op, s[..i + 1]) == if Goes(op, s[i]) then Kept(op, s[..i]) else Kept(op, s[..i]) + [Touch(op, s[i])]
    ensures Gone(op, s[..i + 1]) ==
      if Goes(op, s[i]) then Gone(op, s[..i]) + [Touch(op, s[i]).Reset()] else Gone(op, s[..i])
  {
    SweepStep(op, s[..i], s[i]);
    assert s[..i + 1] == s[..i] + [s[i]];
  }

  lemma GoneSplit(a: seq<Slot>, b: seq<Slot>, x: Slot)
    ensures a + (b + [x]) == (a + b) + [x]
  {
  }

  lemma SweepVisitSlots(op: Sweep, q: Queue, nodes: seq<FrameNode>, i: nat)
    requires i < |nodes| == |q.ready|
    ensures var l, m := AfterSweep(op, q, nodes, i), AfterSweep(op, q, nodes, i + 1);
      var k, x := |Kept(op, q.ready[..i])|, q.ready[i];
      && k < |l.nodes| == |l.ready| && l.ready[k] == x
      && m.ready == (if Goes(op, x) then RemoveAt(l.ready, k) else l.ready[k := Touch(op, x)])
      && m.free == (if Goes(op, x) then l.free + [Touch(op, x).Reset()] else l.free)
      && m.freed == l.freed + if op.UnregisterSweep? && Goes(op, x) then 1 else 0
  {
    var x := q.ready[i];
    KeptAndGone(op, q.ready, i);
    Middle(Kept(op, q.ready[..i]), q.ready, i, Touch(op, x));
    GoneSplit(q.free, Gone(op, q.ready[..i]), Touch(op, x).Reset());
  }

  ghost function Removed(op: Sweep, l: Lists, k: nat): (r: Lists)
    requires k < |l.nodes| == |l.ready|
    ensures |r.nodes| == |r.ready| == |l.nodes| - 1
  {
    Lists(Drop(l.nodes, k), RemoveAt(l.ready, k), l.free + [Touch(op, l.ready[k]).Reset()],
          l.freed + if op.UnregisterSweep? then 1 else 0)
  }

  /** What visiting that node does to the lists. */
  lemma SweepVisit(op: Sweep, q: Queue, nodes: seq<FrameNode>, i: nat)
    requires i < |nodes| == |q.ready|
    ensures var l, m := AfterSweep(op, q, nodes, i), AfterSweep(op, q, nodes, i + 1);
      var k, x := |Kept(op, q.ready[..i])|, q.ready[i];
      && k < |l.nodes| == |l.ready| && l.ready[k] == x
      && m == if Goes(op, x) then Removed(op, l, k) else l.(ready := l.ready[k := Touch(op, x)])
  {
    SweepVisitNodes(op, q, nodes, i);
    SweepVisitSlots(op, q, nodes, i);
  }

  /** A sweep that goes on with the k-th ready node. */
  ghost function Finish(op: Sweep, l: Lists, k: nat): Lists
    requires k <= |l.nodes| == |l.ready|
    decreases |l.nodes| - k
  {
    if k == |l.nodes| then l else
      var x := l.ready[k];
      if Goes(op, x) then Finish(op, Removed(op, l, k), k)
      else Finish(op, l.(ready := l.ready[k := Touch(op, x)]), k + 1)
  }

  lemma FinishStep(op: Sweep, l: Lists, m: Lists, k: nat)
    requires k < |l.nodes| == |l.ready|
    requires m == if Goes(op, l.ready[k]) then Removed(op, l, k) else l.(ready := l.ready[k := Touch(op, l.ready[k])])
    ensures Finish(op, m, if Goes(op, l.ready[k]) then k else k + 1) == Finish(op, l, k)
  {
  }

  lemma KeptLength(op: Sweep, s: seq<Slot>, i: nat)
    requires i < |s|
    ensures |Kept(op, s[..i + 1])| == |Kept(op, s[..i])| + if Goes(op, s[i]) then 0 else 1
  {
    KeptAndGone(op, s, i);
  }

  /** Sweeping node by node is the filter of QueueSpec. */
  lemma {:induction false} FinishIs(op: Sweep, q: Queue, nodes: seq<FrameNode>, i: nat)
    requires i <= |nodes| == |q.ready|
    ensures var l, k := AfterSweep(op, q, nodes, i), |Kept(op, q.ready[..i])|;
      && k <= |l.nodes| == |l.ready|
      && Finish(op, l, k) == AfterSweep(op, q, nodes, |nodes|)
    decreases |nodes| - i
  {
    if i < |nodes| {
      SweepVisit(op, q, nodes, i);
      FinishStep(op, AfterSweep(op, q, nodes, i), AfterSweep(op, q, nodes, i + 1), |Kept(op, q.ready[..i])|);
      KeptLength(op, q.ready, i);
      FinishIs(op, q, nodes, i + 1);
    }
  }

  lemma SweepEnds(op: Sweep, q: Queue, nodes: seq<FrameNode>)
    requires |nodes| == |q.ready|
    ensures Kept(op, q.ready[..0]) == []
    ensures AfterSweep(op, q, nodes, 0) == Lists(nodes, q.ready, q.free, q.totalFree)
    ensures var l := AfterSweep(op, q, nodes, |nodes|);
      && l.ready == Kept(op, q.ready) && l.free == q.free + Gone(op, q.ready)
      && l.freed == q.totalFree + if op.UnregisterSweep? then |Gone(op, q.ready)| else 0
  {
    assert q.ready[..|nodes|] == q.ready;
  }

  lemma SweepIsFinish(op: Sweep, q: Queue, nodes: seq<FrameNode>)
    requires |nodes| == |q.ready|
    ensures var l := Finish(op, Lists(nodes, q.ready, q.free, q.totalFree), 0);
      && l.ready == SweepReady(op, q).ready && l.free == SweepReady(op, q).free
      && l.freed == q.totalFree + if op.UnregisterSweep? then |Gone(op, q.ready)| else 0
  {
    FinishIs(op, q, nodes, 0);
    SweepEnds(op, q, nodes);
  }

  lemma UpdateRemoved(s: seq<Slot>, k: nat, x: Slot)
    requires k < |s|
    ensures RemoveAt(s[k := x], k) == RemoveAt(s, k)
  {
  }

  lemma UpdateSame(s: seq<Slot>, k: nat)
    requires k < |s|
    ensures s[k := s[k]] == s
  {
  }

  lemma EnabledUpdate(consumers: seq<ConsumerInfo>, c: Consumer, info: ConsumerInfo)
    requires |consumers| == 8
    ensures EnabledIn(consumers[c := info]) ==
      if info.enabled then EnabledIn(consumers) + {c} else EnabledIn(consumers) - {c}
  {
  }

  class FrameQueue {
    var count: nat
    var format: Format
    const freeList: FrameList
    const readyList: FrameList
    var activeConsumers: Mask
    var consumers: seq<ConsumerInfo>
    var totalMalloc: nat
    var totalComplete: nat
    var totalFree: nat
    const buffers: BufferPool
    /** The live buffers in the lists, and those of nodes between the two parts of release. */
    ghost var listed: set<Buffer>
    ghost var limbo: set<Buffer>

    /** The two lists are well linked and share no node. */
    ghost predicate Linked()
      reads freeList, readyList, freeList.members, readyList.members
    {
      && freeList != readyList && freeList.Valid() && readyList.Valid()
      && freeList.members !! readyList.members
    }

    ghost predicate Split()
      reads this, buffers
    {
      buffers.Valid() && buffers.live == listed + limbo && listed !! limbo
    }

    /** The queue as QueueSpec sees it. */
    ghost function Abs(): Queue
      reads this, freeList, readyList
    {
      Queue(format, count, freeList.slots, readyList.slots,
            Members(activeConsumers), EnabledIn(consumers), totalMalloc, totalComplete, totalFree)
    }

    /** Each live buffer is in exactly one node of the lists, or in limbo. */
    ghost predicate Valid()
      reads this, freeList, readyList, freeList.members, readyList.members, buffers
    {
      && Linked() && |consumers| == 8 && (count == 0 ==> listed == {})
      && Split() && Balances(Abs(), listed)
    }

    /** The node objects, whichever list they are in. */
    ghost function NodePool(): set<FrameNode>
      reads this, freeList, readyList
    {
      freeList.members + readyList.members
    }

    // ----- the allocator -----

    method TakeBuffer(grant: bool) returns (b: Option<Buffer>)
      requires Split()
      modifies this`listed, buffers
      ensures Split() && b == old(buffers.Answer(grant)) && (b.Some? <==> grant)
      ensures b.Some? ==> b.value !in old(buffers.live)
      ensures listed == if b.Some? then old(listed) + {b.value} else old(listed)
    {
      b := buffers.Allocate(grant);
      if b.Some? {
        listed := listed + {b.value};
      }
    }

    method GiveBack(b: Buffer)
      requires Split() && b in listed
      modifies this`listed, buffers
      ensures Split() && listed == old(listed) - {b}
    {
      buffers.Free(b);
      listed := listed - {b};
    }

    // ----- life cycle -----

    /** The static memory before init. */
    constructor (format: Format)
      ensures Valid() && fresh(freeList) && fresh(readyList) && fresh(buffers) && NodePool() == {}
      ensures Abs() == Queue(format, 0, [], [], {}, {}, 0, 0, 0)
      ensures listed == limbo == {}
    {
      this.format, count := format, 0;
      freeList := new FrameList();
      readyList := new FrameList();
      buffers := new BufferPool();
      activeConsumers := 0;
      consumers := seq(8, _ => ConsumerInfo(0, 0, 0, false));
      totalMalloc, totalComplete, totalFree := 0, 0, 0;
      listed, limbo := {}, {};
      new;
      Empty(0);
    }

    /** Pre-allocate the nodes; a node that cannot be allocated is left out. */
    method CreateNodes(memory: nat -> bool)
      requires freeList.Valid() && freeList.members == {}
      modifies freeList
      ensures freeList.Valid() && |freeList.slots| == Grants(memory, count) && fresh(freeList.members)
      ensures freeList.slots == seq(|freeList.slots|, _ => EMPTY_SLOT)
    {
      for i := 0 to count
        invariant freeList.Valid() && |freeList.slots| == Grants(memory, i) && fresh(freeList.members)
        invariant forall k :: 0 <= k < |freeList.slots| ==> freeList.slots[k] == EMPTY_SLOT
      {
        if memory(i) {
          var node := new FrameNode(None);
          freeList.AddTail(node);
        }
      }
    }

    /** os_memset of the queue structure, and the two list initialisations. */
    method Zero()
      modifies this, freeList, readyList
      ensures freeList.Valid() && freeList.nodes == [] && freeList.members == {}
      ensures readyList.Valid() && readyList.nodes == [] && readyList.members == {}
      ensures |consumers| == 8 && EnabledIn(consumers) == {} && Members(activeConsumers) == {}
      ensures totalMalloc == totalComplete == totalFree == count == 0
      ensures format == old(format) && listed == old(listed) && limbo == old(limbo)
    {
      count := 0;
      activeConsumers := 0;
      consumers := seq(8, _ => ConsumerInfo(0, 0, 0, false));
      totalMalloc, totalComplete, totalFree := 0, 0, 0;
      freeList.Clear();
      readyList.Clear();
      Empty(0);
    }

    method Build(semaphore: bool, memory: nat -> bool)
      requires freeList != readyList
      modifies this, freeList, readyList
      ensures Linked() && |consumers| == 8 && fresh(NodePool())
      ensures listed == old(listed) && limbo == old(limbo)
      ensures Abs() == Fresh(old(format), if semaphore then Grants(memory, PoolSize(old(format))) else 0)
    {
      Zero();
      count := PoolSize(format);
      if semaphore {
        CreateNodes(memory);
      }
    }

    /** False when the semaphore cannot be created: then the queue counts as initialised,
        but has no nodes.  `semaphore` and `memory` say what the system grants. */
    method Init(semaphore: bool, memory: nat -> bool) returns (ok: bool)
      requires Valid()
      modifies this, freeList, readyList
      ensures Valid() && listed == old(listed) && limbo == old(limbo)
      ensures fresh(NodePool() - old(NodePool()))
      ensures if old(count) > 0 then ok && Abs() == old(Abs())
              else
                && ok == semaphore
                && Abs() == Fresh(old(format), if semaphore then Grants(memory, PoolSize(old(format))) else 0)
                && count == match format case Mjpeg => 4 case H264 => 6 case Yuv => 3
    {
      if count > 0 {
        return true;
      }
      Build(semaphore, memory);
      ok := semaphore;
      FreshBalances(Abs());
    }

    // ----- producers -----

    method MarkIdle(node: FrameNode, ghost i: nat)
      requires Linked() && i < |freeList.nodes| && node == freeList.nodes[i]
      modifies node`inUse, freeList`slots
      ensures Linked()
      ensures Abs() == old(Abs()).(free := old(Abs()).free[i := old(Abs()).free[i].(inUse := true)])
    {
      node.inUse := true;
      freeList.Record(i);
    }

    /** Take the j-th node out of the ready list. */
    method TakeReady(node: FrameNode, ghost j: nat)
      requires Linked() && j < |readyList.nodes| && node == readyList.nodes[j]
      modifies readyList, readyList.members`next, readyList.members`prev
      ensures Linked() && readyList.members == old(readyList.members) - {node}
      ensures readyList.nodes == Drop(old(readyList.nodes), j)
      ensures node in old(readyList.members) && node !in freeList.members
      ensures Abs() == old(Abs()).(ready := RemoveAt(old(Abs()).ready, j)) && node.Slot() == old(Abs()).ready[j]
    {
      readyList.Remove(node, j);
    }

    /** Take the i-th node out of the free list. */
    method TakeFree(node: FrameNode, ghost i: nat)
      requires Linked() && i < |freeList.nodes| && node == freeList.nodes[i]
      modifies freeList, freeList.members`next, freeList.members`prev
      ensures Linked() && freeList.members == old(freeList.members) - {node}
      ensures node in old(freeList.members) && node !in readyList.members
      ensures Abs() == old(Abs()).(free := RemoveAt(old(Abs()).free, i)) && node.Slot() == old(Abs()).free[i]
    {
      freeList.Remove(node, i);
    }

    /** Put a node of neither list at the tail of the ready list. */
    method PutReady(node: FrameNode)
      requires Linked() && node !in freeList.members && node !in readyList.members
      modifies readyList, node`next, node`prev, readyList.members`next
      ensures Linked() && readyList.members == old(readyList.members) + {node}
      ensures Abs() == old(Abs()).(ready := old(Abs()).ready + [old(node.Slot())])
    {
      readyList.AddTail(node);
    }

    /** Put a node of neither list at the head of the free list. */
    method PutFirst(node: FrameNode)
      requires Linked() && node !in freeList.members && node !in readyList.members
      modifies freeList, node`next, node`prev, freeList.members`prev
      ensures Linked() && freeList.members == old(freeList.members) + {node}
      ensures freeList.nodes == [node] + old(freeList.nodes)
      ensures Abs() == old(Abs()).(free := [old(node.Slot())] + old(Abs()).free)
    {
      freeList.AddHead(node);
    }

    /** Put a node of neither list at the tail of the free list. */
    method PutLast(node: FrameNode)
      requires Linked() && node !in freeList.members && node !in readyList.members
      modifies freeList, node`next, node`prev, freeList.members`next
      ensures Linked() && freeList.members == old(freeList.members) + {node}
      ensures freeList.nodes == old(freeList.nodes) + [node]
      ensures Abs() == old(Abs()).(free := old(Abs()).free + [old(node.Slot())])
    {
      freeList.AddTail(node);
    }

    /** Take the j-th ready node for a producer. */
    method Steal(node: FrameNode, ghost j: nat)
      requires Linked() && j < |readyList.nodes| && node == readyList.nodes[j]
      modifies freeList, readyList, freeList.members, readyList.members
      ensures Linked() && freeList.members + readyList.members == old(freeList.members + readyList.members)
      ensures freeList.nodes == [node] + old(freeList.nodes)
      ensures var q := old(Abs());
              Abs() == q.(free := [q.ready[j].(inUse := true)] + q.free, ready := RemoveAt(q.ready, j))
    {
      TakeReady(node, j);
      node.inUse := true;
      PutFirst(node);
    }

    /** The critical section of malloc. */
    method SelectNode() returns (node: FrameNode?, ghost i: nat)
      requires Linked()
      modifies freeList, readyList, NodePool()
      ensures Linked() && NodePool() == old(NodePool())
      ensures match Select(old(Abs()))
              case None => node == null && Abs() == old(Abs())
              case Some((q, k)) => i == k < |freeList.nodes| && node == freeList.nodes[i] && Abs() == q
    {
      ghost var j: nat;
      node, i := freeList.FindIdle();
      if node != null {
        MarkIdle(node, i);
      } else if format == Mjpeg || format == Yuv {
        node, j := readyList.FindUnheld();
        if node != null {
          Steal(node, j);
          i := 0;
        }
      }
    }

    /** Malloc found no buffer for the node. */
    method Unmark(node: FrameNode, ghost i: nat)
      requires Linked() && i < |freeList.nodes| && node == freeList.nodes[i]
      modifies node`inUse, freeList`slots
      ensures Linked()
      ensures Abs() == old(Abs()).(free := old(Abs()).free[i := old(Abs()).free[i].(inUse := false)])
    {
      node.inUse := false;
      freeList.Record(i);
    }

    /** Malloc hands out the node's buffer b. */
    method HandOut(node: FrameNode, ghost i: nat, b: Buffer)
      requires Linked() && i < |freeList.nodes| && node == freeList.nodes[i]
      modifies this`totalMalloc, freeList`slots, node`frame, node`refCount, node`accessedMask
      ensures Linked()
      ensures var q, s := old(Abs()), old(Abs()).free[i];
        Abs() == q.(free := q.free[i := s.(frame := Some(b), refCount := 0, accessed := {})],
                    totalMalloc := q.totalMalloc + 1)
    {
      node.Prepare(b);
      totalMalloc := totalMalloc + 1;
      freeList.Record(i);
    }

    /** The part of malloc after its critical section. */
    method FillNode(node: FrameNode, ghost i: nat, grant: bool) returns (frame: Option<Buffer>)
      requires Linked() && Split() && i < |freeList.nodes| && node == freeList.nodes[i]
      modifies this`totalMalloc, freeList`slots, node, this`listed, buffers
      ensures Linked() && Split()
      ensures var x := Fill(old(Abs()), i, old(buffers.Answer(grant)));
              Abs() == x.q && frame == x.frame && listed == old(listed) + set b | b in x.taken
    {
      frame := node.frame;
      if frame == None {
        frame := TakeBuffer(grant);
      }
      if frame == None {
        Unmark(node, i);
      } else {
        HandOut(node, i, frame.value);
      }
    }

    method MallocNode(grant: bool) returns (frame: Option<Buffer>)
      requires Linked() && Split()
      modifies this`totalMalloc, freeList, readyList, NodePool(), this`listed, buffers
      ensures Linked() && Split() && NodePool() == old(NodePool())
      ensures var x := QueueSpec.Malloc(old(Abs()), old(buffers.Answer(grant)));
        Abs() == x.q && frame == x.frame && listed == old(listed) + set b | b in x.taken
    {
      frame := None;
      if count != 0 {
        var node, i := SelectNode();
        if node != null {
          frame := FillNode(node, i, grant);
        }
      }
    }

    /** malloc, when the allocator would grant a buffer or not: `grant` is its answer if it
        is asked. */
    method Malloc(grant: bool) returns (frame: Option<Buffer>)
      requires Valid()
      modifies this`totalMalloc, freeList, readyList, NodePool(), this`listed, buffers
      ensures Valid() && NodePool() == old(NodePool())
      ensures var alloc := old(buffers.Answer(grant));
        var x := QueueSpec.Malloc(old(Abs()), alloc);
        && (alloc.Some? <==> grant) && (grant ==> alloc.value !in old(buffers.live))
        && Abs() == x.q && frame == x.frame && listed == Ledger(old(listed), x)
    {
      ghost var q, live, alloc := Abs(), listed, buffers.Answer(grant);
      frame := MallocNode(grant);
      MallocLedger(q, live, alloc);
    }

    /** Move the i-th free node to the tail of the ready list. */
    method MoveToReady(node: FrameNode, ghost i: nat, ghost stamp: nat)
      requires Linked() && i < |freeList.nodes| && node == freeList.nodes[i]
      modifies freeList, readyList, freeList.members, readyList.members
      ensures Linked() && freeList.members + readyList.members == old(freeList.members + readyList.members)
      ensures var q := old(Abs());
        var s := q.free[i].(inUse := false, accessed := {}, mask := q.active, stamp := stamp);
        Abs() == q.(free := RemoveAt(q.free, i), ready := q.ready + [s])
    {
      TakeFree(node, i);
      node.Publish(activeConsumers, stamp);
      PutReady(node);
    }

    method CompleteNode(b: Buffer, ghost stamp: nat) returns (ok: bool)
      requires Linked()
      modifies this`totalComplete, freeList, readyList, freeList.members, readyList.members
      ensures Linked() && freeList.members + readyList.members == old(freeList.members + readyList.members)
      ensures var x := QueueSpec.Complete(old(Abs()), b, stamp); Abs() == x.q && ok == x.ok
    {
      ok := false;
      if count != 0 {
        var node, i := freeList.FindLent(b);
        if node != null {
          CompleteIs(Abs(), b, i, stamp);
          MoveToReady(node, i, stamp);
          totalComplete := totalComplete + 1;
          ok := true;
        }
      }
    }

    method Complete(frame: Option<Buffer>, ghost stamp: nat) returns (ok: bool)
      requires Valid()
      modifies this`totalComplete, freeList, readyList, NodePool()
      ensures Valid() && NodePool() == old(NodePool())
      ensures frame.None? ==> !ok && Abs() == old(Abs())
      ensures frame.Some? ==>
        var x := QueueSpec.Complete(old(Abs()), frame.value, stamp); Abs() == x.q && ok == x.ok
    {
      if frame == None {
        return false;
      }
      CompleteLedger(Abs(), listed, frame.value, stamp);
      ok := CompleteNode(frame.value, stamp);
    }

    /** Take the buffer away from the i-th free node. */
    method Strip(node: FrameNode, ghost i: nat)
      requires Linked() && i < |freeList.nodes| && node == freeList.nodes[i]
      modifies this`totalFree, freeList`slots, node`frame, node`inUse
      ensures Linked()
      ensures var q, s := old(Abs()), old(Abs()).free[i];
        Abs() == q.(free := q.free[i := s.(frame := None, inUse := false)], totalFree := q.totalFree + 1)
    {
      node.frame := None;
      node.inUse := false;
      totalFree := totalFree + 1;
      freeList.Record(i);
    }

    method CancelNode(b: Buffer) returns (ok: bool)
      requires Linked() && Split()
      requires QueueSpec.Cancel(Abs(), b).ok ==> b in listed
      modifies this`totalFree, freeList`slots, freeList.members, this`listed, buffers
      ensures Linked() && Split()
      ensures var x := QueueSpec.Cancel(old(Abs()), b);
        Abs() == x.q && ok == x.ok && listed == if ok then old(listed) - {b} else old(listed)
    {
      ok := false;
      if count != 0 {
        var node, i := freeList.FindLent(b);
        if node != null {
          Strip(node, i);
          GiveBack(b);
          ok := true;
        }
      }
    }

    method Cancel(frame: Option<Buffer>) returns (ok: bool)
      requires Valid()
      modifies this`totalFree, freeList`slots, NodePool(), this`listed, buffers
      ensures Valid() && NodePool() == old(NodePool())
      ensures frame.None? ==> !ok && Abs() == old(Abs()) && listed == old(listed)
      ensures frame.Some? ==>
        var x := QueueSpec.Cancel(old(Abs()), frame.value);
        Abs() == x.q && ok == x.ok && listed == Ledger(old(listed), x)
    {
      if frame == None {
        return false;
      }
      CancelLedger(Abs(), listed, frame.value);
      ok := CancelNode(frame.value);
    }

    // ----- consumers -----

    /** Consumer c takes the i-th ready node. */
    method Take(node: FrameNode, ghost i: nat, c: Consumer)
      requires Linked() && |consumers| == 8 && i < |readyList.nodes| && node == readyList.nodes[i]
      modifies this`consumers, readyList`slots, node`refCount, node`accessedMask
      ensures Linked() && |consumers| == 8
      ensures consumers == old(consumers)[c := old(consumers)[c].(getCount := old(consumers)[c].getCount + 1)]
      ensures var q, s := old(Abs()), old(Abs()).ready[i];
        Abs() == q.(ready := q.ready[i := s.(refCount := s.refCount + 1, accessed := s.accessed + {c})])
    {
      node.Grab(c);
      consumers := consumers[c := consumers[c].(getCount := consumers[c].getCount + 1)];
      readyList.Record(i);
    }

    method GetNode(c: Consumer) returns (frame: Option<Buffer>)
      requires Linked() && |consumers| == 8
      modifies this`consumers, readyList`slots, readyList.members
      ensures Linked() && |consumers| == 8
      ensures Got(Get(old(Abs()), c), c, old(consumers), Abs(), frame, consumers)
    {
      frame := None;
      if count != 0 && consumers[c].enabled {
        var node, i := readyList.FindPending(c);
        if node != null {
          Take(node, i, c);
          frame := node.frame;
        }
      }
    }

    /** get_frame with the search done once: the frame, or none if none is there. */
    method GetFrame(consumerId: bv32) returns (frame: Option<Buffer>)
      requires Valid() && OneConsumer(consumerId)
      modifies this`consumers, readyList`slots, NodePool()
      ensures Valid() && NodePool() == old(NodePool())
      ensures consumerId & 0xFF == 0 ==> frame == None && Abs() == old(Abs()) && consumers == old(consumers)
      ensures forall c: Consumer :: consumerId == Bit(c) ==>
        Got(Get(old(Abs()), c), c, old(consumers), Abs(), frame, consumers)
    {
      var idx := ConsumerIndex(consumerId);
      if idx < 0 {
        return None;
      }
      OneBit(consumerId, idx);
      GetLedger(Abs(), listed, idx);
      frame := GetNode(idx);
    }

    /** Drop one reference of the i-th ready node. */
    method Unref(node: FrameNode, ghost i: nat)
      requires Linked() && i < |readyList.nodes| && node == readyList.nodes[i]
      modifies readyList`slots, node`refCount
      ensures Linked()
      ensures var q, s := old(Abs()), old(Abs()).ready[i];
        Abs() == q.(ready := q.ready[i := s.(refCount := if s.refCount > 0 then s.refCount - 1 else 0)])
    {
      if node.refCount > 0 {
        node.refCount := node.refCount - 1;
      }
      readyList.Record(i);
    }

    method CountRelease(c: Consumer)
      requires |consumers| == 8
      modifies this`consumers
      ensures consumers == Counted(old(consumers), c) && Abs() == old(Abs())
    {
      EnabledUpdate(consumers, c, consumers[c].(releaseCount := consumers[c].releaseCount + 1));
      consumers := consumers[c := consumers[c].(releaseCount := consumers[c].releaseCount + 1)];
    }

    /** Unlink the i-th ready node if its last holder has released it. */
    method TakeIfDone(node: FrameNode, ghost i: nat) returns (done: bool)
      requires Linked() && i < |readyList.nodes| && node == readyList.nodes[i]
      modifies readyList, readyList.members`next, readyList.members`prev
      ensures Linked() && node in old(readyList.members) && node.Slot() == old(Abs()).ready[i]
      ensures done <==> old(Abs()).ready[i].refCount == 0 && old(Abs()).ready[i].AllAccessed()
      ensures if done then
          && Abs() == old(Abs()).(ready := RemoveAt(old(Abs()).ready, i))
          && readyList.members == old(readyList.members) - {node} && node !in freeList.members
        else
          Abs() == old(Abs()) && readyList.members == old(readyList.members)
    {
      var all := node.AllAccessed();
      done := node.refCount == 0 && all;
      if done {
        TakeReady(node, i);
      }
    }

    /** Consumer c releases the i-th ready node. */
    method DropReference(node: FrameNode, ghost i: nat, c: Consumer)
      requires Linked() && |consumers| == 8 && i < |readyList.nodes| && node == readyList.nodes[i]
      modifies this`consumers, readyList`slots, node`refCount
      ensures Linked() && consumers == Counted(old(consumers), c)
      ensures var q, s := old(Abs()), old(Abs()).ready[i];
        Abs() == q.(ready := q.ready[i := s.(refCount := if s.refCount > 0 then s.refCount - 1 else 0)])
    {
      Unref(node, i);
      CountRelease(c);
    }

    /** The first critical section of release: the node it unlinked, if any. */
    method UnlinkNode(b: Buffer, c: Consumer) returns (last: FrameNode?)
      requires Linked() && |consumers| == 8
      modifies this`consumers, readyList, readyList.members
      ensures Linked() && Abs() == Unlink(old(Abs()), b).0
      ensures consumers == if Finds(old(Abs()), b) then Counted(old(consumers), c) else old(consumers)
      ensures match Unlink(old(Abs()), b).1
              case None => last == null && readyList.members == old(readyList.members)
              case Some(s) =>
                (last != null && last.Slot() == s && last in old(readyList.members)
                && readyList.members == old(readyList.members) - {last} && last !in freeList.members)
    {
      last := null;
      if count != 0 {
        var node, i := readyList.FindFrame(b);
        if node != null {
          ghost var q := Abs();
          DropReference(node, i, c);
          UpdateRemoved(q.ready, i, Abs().ready[i]);
          var done := TakeIfDone(node, i);
          if done {
            last := node;
          }
        }
      }
    }

    /** Reset a node of neither list. */
    method ResetApart(node: FrameNode)
      requires Linked() && node !in freeList.members && node !in readyList.members
      modifies node`refCount, node`consumerMask, node`accessedMask, node`inUse
      ensures Linked() && Abs() == old(Abs()) && node.Slot() == old(node.Slot()).Reset()
    {
      node.Reset();
    }

    /** Free the buffer of a node of neither list. */
    method FreeApart(node: FrameNode)
      requires Linked() && Split() && node !in freeList.members && node !in readyList.members
      requires node.frame.Some? && node.frame.value in limbo
      modifies this`limbo, node`frame, buffers
      ensures Linked() && Split() && Abs() == old(Abs())
      ensures node.Slot() == old(node.Slot()).(frame := None) && limbo == old(limbo) - {old(node.frame).value}
    {
      buffers.Free(node.frame.value);
      limbo := limbo - {node.frame.value};
      node.frame := None;
    }

    /** The second part of release: free the buffer, reset the node, put it back. */
    method ReclaimNode(node: FrameNode)
      requires Linked() && Split() && node !in freeList.members && node !in readyList.members
      requires node.frame.Some? && node.frame.value in limbo
      modifies this`totalFree, this`limbo, freeList, node, freeList.members`next, buffers
      ensures Linked() && Split() && freeList.members == old(freeList.members) + {node}
      ensures Abs() == Reclaim(old(Abs()), old(node.Slot())).q && limbo == old(limbo) - {old(node.frame).value}
    {
      FreeApart(node);
      ResetApart(node);
      PutLast(node);
      totalFree := totalFree + 1;
    }

    /** The consumers after a release of b by consumer c. */
    ghost function Tallied(b: Buffer, c: Consumer): seq<ConsumerInfo>
      requires |consumers| == 8
      reads this, freeList, readyList
    {
      if Finds(Abs(), b) then Counted(consumers, c) else consumers
    }

    /** Unlink the node of b if this was its last release; its buffer goes to limbo.  `u`
        is what QueueSpec makes of the queue, and `after` of the consumers. */
    method UnlinkAside(b: Buffer, c: Consumer, ghost u: (Queue, Option<Slot>), ghost after: seq<ConsumerInfo>)
      returns (last: FrameNode?)
      requires Linked() && Split() && |consumers| == 8
      requires u == Unlink(Abs(), b) && (u.1 != None ==> b in listed)
      requires after == Tallied(b, c)
      modifies this`consumers, this`listed, this`limbo, readyList, readyList.members
      ensures Linked() && Split() && Abs() == u.0 && consumers == after
      ensures last == null <==> u.1 == None
      ensures last != null ==> u.1 == Some(last.Slot())
      ensures if last == null then
          readyList.members == old(readyList.members) && listed == old(listed) && limbo == old(limbo)
        else
          && last in old(readyList.members) && last !in freeList.members
          && readyList.members == old(readyList.members) - {last}
          && listed == old(listed) - {b} && limbo == old(limbo) + {b}
    {
      last := UnlinkNode(b, c);
      if last != null {
        listed, limbo := listed - {b}, limbo + {b};
      }
    }

    /** The first part of release_frame, up to the end of its critical section: the node
        to reclaim, if any. */
    method BeginRelease(consumerId: bv32, frame: Option<Buffer>) returns (last: FrameNode?)
      requires Valid()
      modifies this`consumers, this`listed, this`limbo, readyList, readyList.members
      ensures Valid()
      ensures LowestOf(consumerId).None? || frame.None? ==>
        last == null && Abs() == old(Abs()) && consumers == old(consumers)
      ensures LowestOf(consumerId).Some? && frame.Some? ==>
        && Abs() == Unlink(old(Abs()), frame.value).0
        && (last == null <==> Unlink(old(Abs()), frame.value).1 == None)
        && consumers == if Finds(old(Abs()), frame.value)
             then Counted(old(consumers), LowestOf(consumerId).value) else old(consumers)
      ensures last == null ==>
        listed == old(listed) && limbo == old(limbo) && readyList.members == old(readyList.members)
      ensures last != null ==>
        && frame.Some? && Unlink(old(Abs()), frame.value).1 == Some(last.Slot()) && last.frame == frame
        && listed == old(listed) - {frame.value} && limbo == old(limbo) + {frame.value}
        && last in old(readyList.members) && readyList.members == old(readyList.members) - {last}
        && last !in freeList.members
    {
      last := null;
      var idx := ConsumerIndex(consumerId);
      if frame != None && idx >= 0 {
        UnlinkLedger(Abs(), listed, frame.value);
        last := UnlinkAside(frame.value, idx, Unlink(Abs(), frame.value), Tallied(frame.value, idx));
      }
    }

    /** The rest of release_frame, outside the critical section: whatever happened to the
        queue since, deinit included. */
    method EndRelease(node: FrameNode)
      requires Valid() && node !in freeList.members && node !in readyList.members
      requires node.frame.Some? && node.frame.value in limbo
      modifies this`totalFree, this`limbo, freeList, node, freeList.members`next, buffers
      ensures Valid() && freeList.members == old(freeList.members) + {node}
      ensures Abs() == Reclaim(old(Abs()), old(node.Slot())).q && limbo == old(limbo) - {old(node.frame).value}
    {
      ReclaimLedger(Abs(), listed, node.Slot());
      ReclaimNode(node);
    }

    method ReleaseNode(b: Buffer, c: Consumer, ghost u: (Queue, Option<Slot>), ghost after: seq<ConsumerInfo>)
      requires Linked() && Split() && |consumers| == 8
      requires u == Unlink(Abs(), b) && (u.1 != None ==> b in listed && u.1.value.frame == Some(b))
      requires after == Tallied(b, c)
      modifies this`consumers, this`listed, this`limbo, this`totalFree
      modifies freeList, readyList, freeList.members, readyList.members, buffers
      ensures Linked() && Split() && freeList.members + readyList.members == old(freeList.members + readyList.members)
      ensures Abs() == (if u.1 == None then u.0 else Reclaim(u.0, u.1.value).q)
      ensures consumers == after && limbo == old(limbo)
      ensures listed == if u.1 == None then old(listed) else old(listed) - {b}
    {
      ghost var kept, free, ready := limbo, freeList.members, readyList.members;
      var node := UnlinkAside(b, c, u, after);
      if node != null {
        AddedAndRemoved(kept, b);
        MovedMember(free, ready, node);
        ReclaimNode(node);
      }
    }

    method ReleaseFrame(consumerId: bv32, frame: Option<Buffer>)
      requires Valid()
      modifies this`consumers, this`listed, this`limbo, this`totalFree, freeList, readyList, NodePool(), buffers
      ensures Valid() && NodePool() == old(NodePool()) && limbo == old(limbo)
      ensures LowestOf(consumerId).None? || frame.None? ==>
        Abs() == old(Abs()) && consumers == old(consumers) && listed == old(listed)
      ensures LowestOf(consumerId).Some? && frame.Some? ==>
        && Abs() == Release(old(Abs()), frame.value).q
        && listed == Ledger(old(listed), Release(old(Abs()), frame.value))
        && consumers == if Finds(old(Abs()), frame.value)
             then Counted(old(consumers), LowestOf(consumerId).value) else old(consumers)
    {
      var idx := ConsumerIndex(consumerId);
      if frame != None && idx >= 0 {
        ghost var u := Unlink(Abs(), frame.value);
        ReleaseSettles(Abs(), listed, frame.value, u);
        ReleaseNode(frame.value, idx, u, Tallied(frame.value, idx));
      }
    }

    // ----- sweeps -----

    /** Move the k-th ready node to the tail of the free list, reset. */
    method Recycle(node: FrameNode, ghost k: nat)
      requires Linked() && k < |readyList.nodes| && node == readyList.nodes[k]
      modifies freeList, readyList, freeList.members, readyList.members
      ensures Linked() && freeList.members + readyList.members == old(freeList.members + readyList.members)
      ensures readyList.nodes == Drop(old(readyList.nodes), k)
      ensures var q := old(Abs());
              Abs() == q.(ready := RemoveAt(q.ready, k), free := q.free + [q.ready[k].Reset()])
    {
      TakeReady(node, k);
      ResetApart(node);
      PutLast(node);
    }

    ghost function Now(): Lists
      reads this, freeList, readyList
    {
      Lists(readyList.nodes, readyList.slots, freeList.slots, totalFree)
    }

    method VisitToClear(node: FrameNode, ghost k: nat) returns (nextNode: FrameNode?, ghost k': nat)
      requires Linked() && k < |readyList.nodes| && node == readyList.nodes[k]
      modifies freeList, readyList, freeList.members, readyList.members
      ensures Linked() && freeList.members + readyList.members == old(freeList.members + readyList.members)
      ensures k' <= |readyList.nodes| && |readyList.nodes| - k' < |old(readyList.nodes)| - k
      ensures nextNode == if k' < |readyList.nodes| then readyList.nodes[k'] else null
      ensures Finish(ClearSweep, Now(), k') == Finish(ClearSweep, old(Now()), k)
    {
      ghost var l := Now();
      nextNode := node.next;
      k' := k + 1;
      UpdateSame(l.ready, k);
      if node.refCount == 0 {
        Recycle(node, k);
        k' := k;
      }
    }

    /** The first pass of clear_all. */
    method ClearReadyNodes()
      requires Linked()
      modifies freeList, readyList, freeList.members, readyList.members
      ensures Linked() && freeList.members + readyList.members == old(freeList.members + readyList.members)
      ensures Abs() == SweepReady(ClearSweep, old(Abs()))
    {
      ghost var q, l := Abs(), Now();
      ghost var k: nat := 0;
      SweepIsFinish(ClearSweep, q, readyList.nodes);
      var node := readyList.head;
      while node != null
        invariant Linked() && freeList.members + readyList.members == old(freeList.members + readyList.members)
        invariant k <= |readyList.nodes| && Finish(ClearSweep, Now(), k) == Finish(ClearSweep, l, 0)
        invariant node == if k < |readyList.nodes| then readyList.nodes[k] else null
        decreases |readyList.nodes| - k
      {
        node, k := VisitToClear(node, k);
      }
    }

    method VisitToClean(node: FrameNode, ghost k: nat) returns (nextNode: FrameNode?, ghost k': nat)
      requires Linked() && k < |readyList.nodes| && node == readyList.nodes[k]
      modifies freeList, readyList, freeList.members, readyList.members
      ensures Linked() && freeList.members + readyList.members == old(freeList.members + readyList.members)
      ensures k' <= |readyList.nodes| && |readyList.nodes| - k' < |old(readyList.nodes)| - k
      ensures nextNode == if k' < |readyList.nodes| then readyList.nodes[k'] else null
      ensures Finish(RegisterSweep, Now(), k') == Finish(RegisterSweep, old(Now()), k)
    {
      ghost var l := Now();
      nextNode := node.next;
      k' := k + 1;
      UpdateSame(l.ready, k);
      var nobody := node.WantedByNobody();
      if nobody && node.refCount == 0 {
        Recycle(node, k);
        k' := k;
      }
    }

    /** The pass of register over the ready list. */
    method CleanReadyNodes()
      requires Linked()
      modifies freeList, readyList, freeList.members, readyList.members
      ensures Linked() && freeList.members + readyList.members == old(freeList.members + readyList.members)
      ensures Abs() == SweepReady(RegisterSweep, old(Abs()))
    {
      ghost var q, l := Abs(), Now();
      ghost var k: nat := 0;
      SweepIsFinish(RegisterSweep, q, readyList.nodes);
      var node := readyList.head;
      while node != null
        invariant Linked() && freeList.members + readyList.members == old(freeList.members + readyList.members)
        invariant k <= |readyList.nodes| && Finish(RegisterSweep, Now(), k) == Finish(RegisterSweep, l, 0)
        invariant node == if k < |readyList.nodes| then readyList.nodes[k] else null
        decreases |readyList.nodes| - k
      {
        node, k := VisitToClean(node, k);
      }
    }

    /** Consumer c will not see the k-th ready node any more. */
    method ForgetNode(c: Consumer, node: FrameNode, ghost k: nat)
      requires Linked() && k < |readyList.nodes| && node == readyList.nodes[k]
      modifies readyList`slots, node`consumerMask
      ensures Linked()
      ensures var q, s := old(Abs()), old(Abs()).ready[k];
        Abs() == q.(ready := q.ready[k := s.(mask := s.mask - {c})]) && node.Slot() == s.(mask := s.mask - {c})
    {
      node.Forget(c);
      readyList.Record(k);
    }

    method RecycleCounted(node: FrameNode, ghost k: nat)
      requires Linked() && k < |readyList.nodes| && node == readyList.nodes[k]
      modifies this`totalFree, freeList, readyList, freeList.members, readyList.members
      ensures Linked() && freeList.members + readyList.members == old(freeList.members + readyList.members)
      ensures readyList.nodes == Drop(old(readyList.nodes), k)
      ensures var q, s := old(Abs()), old(Abs()).ready[k];
        Abs() == q.(ready := RemoveAt(q.ready, k), free := q.free + [s.Reset()], totalFree := q.totalFree + 1)
    {
      Recycle(node, k);
      totalFree := totalFree + 1;
    }

    /** The k-th ready node goes if nobody holds it and nobody has still to see it. */
    method RecycleUnwanted(node: FrameNode, ghost k: nat) returns (gone: bool)
      requires Linked() && k < |readyList.nodes| && node == readyList.nodes[k]
      modifies this`totalFree, freeList, readyList, freeList.members, readyList.members
      ensures Linked() && freeList.members + readyList.members == old(freeList.members + readyList.members)
      ensures var s := old(Abs()).ready[k]; gone <==> s.refCount == 0 && (s.mask == {} || s.AllAccessed())
      ensures var q, s := old(Abs()), old(Abs()).ready[k];
        if gone then
          && readyList.nodes == Drop(old(readyList.nodes), k)
          && Abs() == q.(ready := RemoveAt(q.ready, k), free := q.free + [s.Reset()], totalFree := q.totalFree + 1)
        else
          readyList.nodes == old(readyList.nodes) && Abs() == q
    {
      var nobody := node.WantedByNobody();
      var all := node.AllAccessed();
      gone := node.refCount == 0 && (nobody || all);
      if gone {
        RecycleCounted(node, k);
      }
    }

    /** Consumer c will not see the k-th ready node; the node goes if it waited for c only. */
    method DropConsumer(c: Consumer, node: FrameNode, ghost k: nat) returns (gone: bool)
      requires Linked() && k < |readyList.nodes| && node == readyList.nodes[k]
      modifies this`totalFree, freeList, readyList, freeList.members, readyList.members
      ensures Linked() && freeList.members + readyList.members == old(freeList.members + readyList.members)
      ensures gone <==> Goes(UnregisterSweep(c), old(Abs()).ready[k])
      ensures var q, op := old(Abs()), UnregisterSweep(c);
        if Goes(op, q.ready[k]) then
          && readyList.nodes == Drop(old(readyList.nodes), k)
          && Abs() == q.(ready := RemoveAt(q.ready[k := Touch(op, q.ready[k])], k),
                         free := q.free + [Touch(op, q.ready[k]).Reset()], totalFree := q.totalFree + 1)
        else
          readyList.nodes == old(readyList.nodes) && Abs() == q.(ready := q.ready[k := Touch(op, q.ready[k])])
    {
      gone := false;
      var wants := node.Wants(c);
      if wants {
        ForgetNode(c, node, k);
        gone := RecycleUnwanted(node, k);
      }
    }

    method VisitToUnregister(c: Consumer, node: FrameNode, ghost k: nat) returns (nextNode: FrameNode?, ghost k': nat)
      requires Linked() && k < |readyList.nodes| && node == readyList.nodes[k]
      modifies this`totalFree, freeList, readyList, freeList.members, readyList.members
      ensures Linked() && freeList.members + readyList.members == old(freeList.members + readyList.members)
      ensures k' <= |readyList.nodes| && |readyList.nodes| - k' < |old(readyList.nodes)| - k
      ensures nextNode == if k' < |readyList.nodes| then readyList.nodes[k'] else null
      ensures Finish(UnregisterSweep(c), Now(), k') == Finish(UnregisterSweep(c), old(Now()), k)
    {
      nextNode := node.next;
      k' := k + 1;
      ghost var l := Now();
      var gone := DropConsumer(c, node, k);
      if gone {
        k' := k;
        UpdateRemoved(l.ready, k, Touch(UnregisterSweep(c), l.ready[k]));
      }
      FinishStep(UnregisterSweep(c), l, Now(), k);
    }

    /** The pass of unregister over the ready list. */
    method UnregisterReadyNodes(c: Consumer)
      requires Linked()
      modifies this`totalFree, freeList, readyList, freeList.members, readyList.members
      ensures Linked() && freeList.members + readyList.members == old(freeList.members + readyList.members)
      ensures var q := old(Abs());
        Abs() == SweepReady(UnregisterSweep(c), q).(totalFree := q.totalFree + |Gone(UnregisterSweep(c), q.ready)|)
    {
      ghost var q, l := Abs(), Now();
      ghost var k: nat := 0;
      SweepIsFinish(UnregisterSweep(c), q, readyList.nodes);
      var node := readyList.head;
      while node != null
        invariant Linked() && freeList.members + readyList.members == old(freeList.members + readyList.members)
        invariant k <= |readyList.nodes| && Finish(UnregisterSweep(c), Now(), k) == Finish(UnregisterSweep(c), l, 0)
        invariant node == if k < |readyList.nodes| then readyList.nodes[k] else null
        decreases |readyList.nodes| - k
      {
        node, k := VisitToUnregister(c, node, k);
      }
    }

    // ----- registration -----

    method EnableConsumer(c: Consumer, consumerId: bv32)
      requires |consumers| == 8 && consumerId == Bit(c)
      modifies this`consumers, this`activeConsumers
      ensures consumers == old(consumers)[c := ConsumerInfo(consumerId, 0, 0, true)]
      ensures var q := old(Abs()); Abs() == q.(active := q.active + {c}, enabled := q.enabled + {c})
    {
      EnabledUpdate(consumers, c, ConsumerInfo(consumerId, 0, 0, true));
      consumers := consumers[c := ConsumerInfo(consumerId, 0, 0, true)];
      activeConsumers := With(activeConsumers, c, consumerId);
    }

    method DisableConsumer(c: Consumer, consumerId: bv32)
      requires |consumers| == 8 && consumerId == Bit(c)
      modifies this`consumers, this`activeConsumers
      ensures consumers == old(consumers)[c := old(consumers)[c].(enabled := false)]
      ensures var q := old(Abs()); Abs() == q.(active := q.active - {c}, enabled := q.enabled - {c})
    {
      activeConsumers := Without(activeConsumers, c, consumerId);
      EnabledUpdate(consumers, c, consumers[c].(enabled := false));
      consumers := consumers[c := consumers[c].(enabled := false)];
    }

    method RegisterSteps(c: Consumer, consumerId: bv32)
      requires Valid() && consumerId == Bit(c) && count != 0
      modifies this`consumers, this`activeConsumers, freeList, readyList, NodePool()
      ensures Valid() && NodePool() == old(NodePool())
      ensures consumers == old(consumers)[c := ConsumerInfo(consumerId, 0, 0, true)]
      ensures Abs() == Register(old(Abs()), c).q && Register(old(Abs()), c).ok
    {
      RegisterLedger(Abs(), listed, c);
      ghost var after := Register(Abs(), c).q;
      EnableConsumer(c, consumerId);
      CleanReadyNodes();
      assert Abs() == after;
    }

    method RegisterConsumer(consumerId: bv32) returns (ok: bool)
      requires Valid() && OneConsumer(consumerId)
      modifies this`consumers, this`activeConsumers, freeList, readyList, NodePool()
      ensures Valid() && NodePool() == old(NodePool())
      ensures !ok ==> Abs() == old(Abs()) && consumers == old(consumers)
      ensures consumerId & 0xFF == 0 ==> !ok
      ensures forall c: Consumer :: consumerId == Bit(c) ==>
        && Abs() == Register(old(Abs()), c).q && ok == Register(old(Abs()), c).ok
        && (ok ==> consumers == old(consumers)[c := ConsumerInfo(consumerId, 0, 0, true)])
    {
      var idx := ConsumerIndex(consumerId);
      if count == 0 || idx < 0 {
        return false;
      }
      OneBit(consumerId, idx);
      RegisterSteps(idx, consumerId);
      ok := true;
    }

    method DisableAndSweep(c: Consumer, consumerId: bv32, ghost after: Queue)
      requires Linked() && |consumers| == 8 && consumerId == Bit(c) && count != 0
      requires after == Unregister(Abs(), c).q
      modifies this`consumers, this`activeConsumers, this`totalFree
      modifies freeList, readyList, freeList.members, readyList.members
      ensures Linked() && freeList.members + readyList.members == old(freeList.members + readyList.members)
      ensures consumers == old(consumers)[c := old(consumers)[c].(enabled := false)]
      ensures Abs() == after
    {
      DisableConsumer(c, consumerId);
      UnregisterReadyNodes(c);
    }

    method UnregisterSteps(c: Consumer, consumerId: bv32)
      requires Valid() && consumerId == Bit(c) && count != 0
      modifies this`consumers, this`activeConsumers, this`totalFree, freeList, readyList, NodePool()
      ensures Valid() && NodePool() == old(NodePool())
      ensures consumers == old(consumers)[c := old(consumers)[c].(enabled := false)]
      ensures Abs() == Unregister(old(Abs()), c).q && Unregister(old(Abs()), c).ok
    {
      UnregisterLedger(Abs(), listed, c);
      DisableAndSweep(c, consumerId, Unregister(Abs(), c).q);
    }

    method UnregisterConsumer(consumerId: bv32) returns (ok: bool)
      requires Valid() && OneConsumer(consumerId)
      modifies this`consumers, this`activeConsumers, this`totalFree, freeList, readyList, NodePool()
      ensures Valid() && NodePool() == old(NodePool())
      ensures !ok ==> Abs() == old(Abs()) && consumers == old(consumers)
      ensures consumerId & 0xFF == 0 ==> !ok
      ensures forall c: Consumer :: consumerId == Bit(c) ==>
        && Abs() == Unregister(old(Abs()), c).q && ok == Unregister(old(Abs()), c).ok
        && (ok ==> consumers == old(consumers)[c := old(consumers)[c].(enabled := false)])
    {
      var idx := ConsumerIndex(consumerId);
      if count == 0 || idx < 0 {
        return false;
      }
      OneBit(consumerId, idx);
      UnregisterSteps(idx, consumerId);
      ok := true;
    }

    // ----- clear_all and deinit -----

    method FreeFrame(node: FrameNode)
      requires Split() && (node.frame.Some? ==> node.frame.value in listed)
      modifies node`frame, this`listed, buffers
      ensures Split() && node.frame == None
      ensures listed == if old(node.frame).Some? then old(listed) - {old(node.frame).value} else old(listed)
    {
      if node.frame != None {
        GiveBack(node.frame.value);
        node.frame := None;
      }
    }

    /** Reset the producer flag of the i-th free node and free its buffer. */
    method EmptyNode(node: FrameNode, ghost i: nat)
      requires Linked() && Split() && i < |freeList.nodes| && node == freeList.nodes[i]
      requires node.frame.Some? ==> node.frame.value in listed
      modifies freeList`slots, node`inUse, node`frame, this`listed, buffers
      ensures Linked() && Split()
      ensures var q, s := old(Abs()), old(Abs()).free[i];
        && Abs() == q.(free := q.free[i := s.(inUse := false, frame := None)])
        && listed == if s.frame.Some? then old(listed) - {s.frame.value} else old(listed)
    {
      if node.inUse {
        node.inUse := false;
      }
      FreeFrame(node);
      freeList.Record(i);
    }

    method VisitToEmpty(node: FrameNode, ghost q: Queue, ghost i: nat) returns (nextNode: FrameNode?)
      requires Linked() && Split() && Balances(Abs(), listed)
      requires i < |freeList.nodes| == |q.free| && node == freeList.nodes[i]
      requires Abs() == q.(free := Emptied(q.free[..i]) + q.free[i..])
      modifies freeList`slots, freeList.members`inUse, freeList.members`frame, this`listed, buffers
      ensures Linked() && Split() && Balances(Abs(), listed)
      ensures Abs() == q.(free := Emptied(q.free[..i + 1]) + q.free[i + 1..])
      ensures nextNode == if i + 1 < |freeList.nodes| then freeList.nodes[i + 1] else null
    {
      EmptiedStep(q.free, i);
      EmptyLedger(Abs(), listed, i);
      EmptyNode(node, i);
      nextNode := node.next;
    }

    /** The second pass of clear_all. */
    method ClearFreeNodes()
      requires Linked() && Split() && Balances(Abs(), listed)
      modifies freeList`slots, freeList.members, this`listed, buffers
      ensures Linked() && Split() && Balances(Abs(), listed)
      ensures Abs() == old(Abs()).(free := Emptied(old(Abs()).free))
    {
      ghost var q, i := Abs(), 0;
      var node := freeList.head;
      EmptiedEnds(q.free);
      while node != null
        invariant Linked() && Split() && Balances(Abs(), listed)
        invariant i <= |freeList.nodes| == |q.free|
        invariant Abs() == q.(free := Emptied(q.free[..i]) + q.free[i..])
        invariant node == if i < |freeList.nodes| then freeList.nodes[i] else null
        decreases |freeList.nodes| - i
      {
        node := VisitToEmpty(node, q, i);
        i := i + 1;
      }
    }

    /** clear_all on this queue. */
    method Clear()
      requires Valid()
      modifies freeList, readyList, NodePool(), this`listed, buffers
      ensures Valid() && NodePool() == old(NodePool())
      ensures Abs() == ClearAll(old(Abs())).q
      ensures listed == Ledger(old(listed), ClearAll(old(Abs())))
    {
      if count == 0 {
        return;
      }
      ghost var q, live := Abs(), listed;
      ClearReadyLedger(q, live);
      ClearReadyNodes();
      ClearFreeNodes();
      SameLive(q, live, listed);
    }

    /** frame_node_destroy of the head of the free list. */
    method DestroyFree()
      requires Linked() && Split() && Balances(Abs(), listed) && freeList.head != null
      modifies freeList, freeList.members`next, freeList.members`prev, this`listed, buffers
      ensures Linked() && Split() && Balances(Abs(), listed)
      ensures freeList.members <= old(freeList.members)
      ensures old(Abs()).free != [] && Abs() == old(Abs()).(free := old(Abs()).free[1..])
    {
      PopLedger(Abs(), listed, true);
      var node := freeList.PopHead();
      if node.frame != None {
        GiveBack(node.frame.value);
      }
    }

    /** frame_node_destroy of the head of the ready list. */
    method DestroyReady()
      requires Linked() && Split() && Balances(Abs(), listed) && readyList.head != null
      modifies readyList, readyList.members`next, readyList.members`prev, this`listed, buffers
      ensures Linked() && Split() && Balances(Abs(), listed)
      ensures readyList.members <= old(readyList.members)
      ensures old(Abs()).ready != [] && Abs() == old(Abs()).(ready := old(Abs()).ready[1..])
    {
      PopLedger(Abs(), listed, false);
      var node := readyList.PopHead();
      if node.frame != None {
        GiveBack(node.frame.value);
      }
    }

    /** The two loops of deinit. */
    method DestroyAll()
      requires Linked() && Split() && Balances(Abs(), listed)
      modifies freeList, readyList, freeList.members, readyList.members, this`listed, buffers
      ensures Linked() && Split() && listed == {}
    {
      while freeList.head != null
        invariant Linked() && Split() && Balances(Abs(), listed)
        invariant freeList.members <= old(freeList.members) && readyList.members <= old(readyList.members)
        decreases |freeList.slots|
      {
        DestroyFree();
      }
      while readyList.head != null
        invariant Linked() && Split() && Balances(Abs(), listed) && freeList.slots == []
        invariant freeList.members <= old(freeList.members) && readyList.members <= old(readyList.members)
        decreases |readyList.slots|
      {
        DestroyReady();
      }
      NoneLive(Abs(), listed);
    }

    /** deinit: afterwards no buffer is live but those of half-done releases. */
    method Deinit()
      requires Valid()
      modifies this, freeList, readyList, NodePool(), buffers
      ensures Valid() && Abs() == QueueSpec.Deinit(old(Abs())).q
      ensures listed == {} && limbo == old(limbo)
    {
      if count == 0 {
        return;
      }
      DestroyAll();
      Zero();
      NoneCarried(Abs());
    }
  }
}
