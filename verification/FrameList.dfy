/** The nodes of frame_que_v2.c and its intrusive doubly linked lists. */
module FrameLists {
  import opened Wrappers
  import opened QueueSpec
  import opened ConsumerMask

  class FrameNode {
    var frame: Option<Buffer>
    var next: FrameNode?
    var prev: FrameNode?
    var refCount: nat
    var consumerMask: Mask
    var accessedMask: Mask
    var inUse: bool
    ghost var stamp: nat

    /** frame_node_create: a zeroed node. */
    constructor (frame: Option<Buffer>)
      ensures this.frame == frame && next == null && prev == null
      ensures Slot() == EMPTY_SLOT.(frame := frame)
    {
      this.frame := frame;
      next, prev := null, null;
      refCount, consumerMask, accessedMask, inUse, stamp := 0, 0, 0, false, 0;
      new;
      Empty(0);
    }

    ghost function Slot(): Slot
      reads `frame, `refCount, `consumerMask, `accessedMask, `inUse, `stamp
    {
      QueueSpec.Slot(frame, refCount, Members(consumerMask), Members(accessedMask), inUse, stamp)
    }

    /** consumer_mask & id, and not accessed_mask & id */
    method Wants(c: Consumer) returns (r: bool)
      ensures r <==> Slot().Pending(c)
    {
      MemberHas(consumerMask, c);
      MemberHas(accessedMask, c);
      r := consumerMask & Bit(c) != 0 && accessedMask & Bit(c) == 0;
    }

    /** (accessed_mask & consumer_mask) == consumer_mask */
    method AllAccessed() returns (r: bool)
      ensures r <==> Slot().AllAccessed()
    {
      Covers(accessedMask, consumerMask);
      r := accessedMask & consumerMask == consumerMask;
    }

    /** consumer_mask == 0 */
    method WantedByNobody() returns (r: bool)
      ensures r <==> Slot().mask == {}
    {
      Empty(consumerMask);
      r := consumerMask == 0;
    }

    /** accessed_mask |= id */
    method MarkAccessed(c: Consumer)
      modifies this`accessedMask
      ensures Slot() == old(Slot()).(accessed := old(Slot()).accessed + {c})
    {
      accessedMask := With(accessedMask, c, Bit(c));
    }

    /** accessed_mask = 0 */
    method ClearAccessed()
      modifies this`accessedMask
      ensures Slot() == old(Slot()).(accessed := {})
    {
      Empty(0);
      accessedMask := 0;
    }

    /** consumer_mask &= ~id */
    method Forget(c: Consumer)
      modifies this`consumerMask
      ensures Slot() == old(Slot()).(mask := old(Slot()).mask - {c})
    {
      consumerMask := Without(consumerMask, c, Bit(c));
    }

    /** What malloc writes to the node it hands out. */
    method Prepare(b: Buffer)
      modifies `frame, `refCount, `accessedMask
      ensures Slot() == old(Slot()).(frame := Some(b), refCount := 0, accessed := {})
    {
      frame := Some(b);
      refCount := 0;
      ClearAccessed();
    }

    /** What complete writes to the node it publishes. */
    method Publish(active: Mask, ghost stamp: nat)
      modifies `inUse, `accessedMask, `consumerMask, `stamp
      ensures Slot() == old(Slot()).(inUse := false, accessed := {}, mask := Members(active), stamp := stamp)
    {
      inUse := false;
      ClearAccessed();
      consumerMask := active;
      this.stamp := stamp;
    }

    /** What get_frame writes to the node it finds. */
    method Grab(c: Consumer)
      modifies `refCount, `accessedMask
      ensures Slot() == old(Slot()).(refCount := old(Slot()).refCount + 1, accessed := old(Slot()).accessed + {c})
    {
      refCount := refCount + 1;
      MarkAccessed(c);
    }

    /** The assignments that reset a node on its way to the free list. */
    method Reset()
      modifies this`refCount, this`consumerMask, this`accessedMask, this`inUse
      ensures Slot() == old(Slot()).Reset()
    {
      Empty(0);
      refCount, consumerMask, accessedMask, inUse := 0, 0, 0, false;
    }
  }

  ghost predicate Distinct(s: seq<FrameNode>) {
    forall i, j :: 0 <= i < j < |s| ==> s[i] != s[j]
  }

  ghost function Drop(s: seq<FrameNode>, k: nat): seq<FrameNode>
    requires k < |s|
  {
    s[..k] + s[k + 1..]
  }

  lemma DropDistinct(s: seq<FrameNode>, k: nat)
    requires k < |s| && Distinct(s)
    ensures Distinct(Drop(s, k)) && s[k] !in Drop(s, k)
  {
  }

  lemma DropMembers(s: seq<FrameNode>, k: nat, members: set<FrameNode>)
    requires k < |s| == |members| && Distinct(s) && forall i :: 0 <= i < |s| ==> s[i] in members
    ensures |members - {s[k]}| == |Drop(s, k)|
    ensures forall i :: 0 <= i < |Drop(s, k)| ==> Drop(s, k)[i] in members - {s[k]}
  {
  }

  /** A search from the head that stopped at i found the first match. */
  lemma FoundFirst(q: Query, s: seq<Slot>, i: nat)
    requires i <= |s| && (i < |s| ==> Matches(q, s[i]))
    requires forall j :: 0 <= j < i ==> !Matches(q, s[j])
    ensures First(q, s) == i
  {
  }

  class FrameList {
    var head: FrameNode?
    var tail: FrameNode?
    var count: nat
    ghost var nodes: seq<FrameNode>     // from head to tail
    ghost var members: set<FrameNode>   // the same nodes
    ghost var slots: seq<Slot>          // what the nodes say

    ghost predicate Ends()
      reads this, members`next, members`prev
      requires nodes != [] ==> nodes[0] in members && nodes[|nodes| - 1] in members
    {
      if nodes == [] then head == null && tail == null else
        && head == nodes[0] && head.prev == null
        && tail == nodes[|nodes| - 1] && tail.next == null
    }

    /** prev, next, head, tail and count describe the sequence of nodes. */
    ghost predicate Linked()
      reads this, members`next, members`prev
    {
      && count == |nodes| == |members| && Distinct(nodes)
      && (forall i {:trigger nodes[i] in members} :: 0 <= i < |nodes| ==> nodes[i] in members)
      && Ends()
      && (forall i {:trigger nodes[i].next} :: 0 <= i < |nodes| - 1 ==> nodes[i].next == nodes[i + 1])
      && (forall i {:trigger nodes[i].prev} :: 0 < i < |nodes| ==> nodes[i].prev == nodes[i - 1])
    }

    /** All nodes but the k-th say what `slots` records. */
    ghost predicate RecordedBut(k: int)
      reads this, members
    {
      && |slots| == |nodes|
      && (forall i {:trigger slots[i]} {:trigger nodes[i].Slot()} :: 0 <= i < |nodes| && i != k ==>
            nodes[i] in members && nodes[i].Slot() == slots[i])
    }

    ghost predicate Valid()
      reads this, members
    {
      Linked() && RecordedBut(-1)
    }

    constructor ()
      ensures Valid() && nodes == [] && members == {} && slots == []
    {
      head, tail, count, nodes, members, slots := null, null, 0, [], {}, [];
    }

    /** frame_list_init and frame_list_deinit. */
    method Clear()
      modifies this
      ensures Valid() && nodes == [] && members == {} && slots == []
    {
      head, tail, count, nodes, members, slots := null, null, 0, [], {}, [];
    }

    /** Record what the k-th node says after its fields were assigned. */
    ghost method Record(k: nat)
      requires Linked() && RecordedBut(k) && k < |nodes|
      modifies `slots
      ensures Valid() && slots == old(slots)[k := nodes[k].Slot()]
    {
      slots := slots[k := nodes[k].Slot()];
    }

    /** The linking of AddTail. */
    method LinkTail(node: FrameNode)
      requires Linked() && node !in members
      modifies `head, `tail, `count, `nodes, `members, node`next, node`prev, members`next
      ensures Linked() && nodes == old(nodes) + [node] && members == old(members) + {node}
    {
      node.next := null;
      node.prev := tail;
      if tail != null {
        tail.next := node;
      }
      tail := node;
      if head == null {
        head := node;
      }
      count := count + 1;
      nodes, members := nodes + [node], members + {node};
    }

    method AddTail(node: FrameNode)
      requires Valid() && node !in members
      modifies this, node`next, node`prev, members`next
      ensures Valid() && nodes == old(nodes) + [node] && members == old(members) + {node}
      ensures slots == old(slots) + [node.Slot()] && node.Slot() == old(node.Slot())
    {
      LinkTail(node);
      slots := slots + [node.Slot()];
    }

    /** The linking of AddHead. */
    method LinkHead(node: FrameNode)
      requires Linked() && node !in members
      modifies `head, `tail, `count, `nodes, `members, node`next, node`prev, members`prev
      ensures Linked() && nodes == [node] + old(nodes) && members == old(members) + {node}
    {
      node.next := head;
      node.prev := null;
      if head != null {
        head.prev := node;
      }
      head := node;
      if tail == null {
        tail := node;
      }
      count := count + 1;
      nodes, members := [node] + nodes, members + {node};
    }

    method AddHead(node: FrameNode)
      requires Valid() && node !in members
      modifies this, node`next, node`prev, members`prev
      ensures Valid() && nodes == [node] + old(nodes) && members == old(members) + {node}
      ensures slots == [node.Slot()] + old(slots) && node.Slot() == old(node.Slot())
    {
      LinkHead(node);
      slots := [node.Slot()] + slots;
    }

    /** The relinking of Remove. */
    method Bypass(node: FrameNode, ghost k: nat)
      requires Linked() && k < |nodes| && nodes[k] == node
      modifies `head, `tail, members`next, members`prev
      ensures head == if k > 0 then old(head) else old(node.next)
      ensures tail == if k < |nodes| - 1 then old(tail) else old(node.prev)
      ensures forall i {:trigger nodes[i].next} :: 0 <= i < |nodes| && i != k ==>
        nodes[i].next == if i == k - 1 then old(node.next) else old(nodes[i].next)
      ensures forall i {:trigger nodes[i].prev} :: 0 <= i < |nodes| && i != k ==>
        nodes[i].prev == if i == k + 1 then old(node.prev) else old(nodes[i].prev)
    {
      if node.prev != null {
        node.prev.next := node.next;
      } else {
        head := node.next;
      }
      if node.next != null {
        node.next.prev := node.prev;
      } else {
        tail := node.prev;
      }
      node.next := null;
      node.prev := null;
    }

    method Unlink(node: FrameNode, ghost k: nat)
      requires Linked() && k < |nodes| && nodes[k] == node
      modifies `head, `tail, `count, `nodes, `members, members`next, members`prev
      ensures Linked() && nodes == Drop(old(nodes), k) && members == old(members) - {node}
    {
      ghost var before := nodes;
      Bypass(node, k);
      count := count - 1;
      DropMembers(before, k, members);
      DropDistinct(before, k);
      nodes, members := Drop(before, k), members - {node};
      forall i {:trigger nodes[i].next} | 0 <= i < |nodes| - 1 ensures nodes[i].next == nodes[i + 1] {
        var m := if i < k then i else i + 1;
        assert nodes[i] == before[m];
      }
      forall i {:trigger nodes[i].prev} | 0 < i < |nodes| ensures nodes[i].prev == nodes[i - 1] {
        var m := if i < k then i else i + 1;
        assert nodes[i] == before[m];
      }
    }

    method Remove(node: FrameNode, ghost k: nat)
      requires Valid() && k < |nodes| && nodes[k] == node
      modifies this, members`next, members`prev
      ensures Valid() && nodes == Drop(old(nodes), k) && members == old(members) - {node}
      ensures slots == RemoveAt(old(slots), k) && node.Slot() == old(slots)[k]
    {
      ghost var before, was := nodes, slots;
      Unlink(node, k);
      slots := RemoveAt(slots, k);
      forall i | 0 <= i < |nodes| ensures nodes[i].Slot() == slots[i] {
        var m := if i < k then i else i + 1;
        assert nodes[i] == before[m] && slots[i] == was[m];
      }
    }

    method PopHead() returns (node: FrameNode?)
      requires Valid()
      modifies this, members`next, members`prev
      ensures Valid()
      ensures old(nodes) == [] ==> node == null && nodes == []
      ensures old(nodes) != [] ==>
        && node == old(nodes)[0] && nodes == old(nodes)[1..] && members == old(members) - {node}
        && slots == old(slots)[1..] && node.Slot() == old(slots)[0]
    {
      node := head;
      if node != null {
        head := node.next;
        if head != null {
          head.prev := null;
        } else {
          tail := null;
        }
        count := count - 1;
        node.next := null;
        node.prev := null;
        nodes, members, slots := nodes[1..], members - {node}, slots[1..];
      }
    }

    // ----- searches -----

    /** The k-th node, or null behind the last. */
    ghost function NodeAt(k: nat): FrameNode?
      reads this
    {
      if k < |nodes| then nodes[k] else null
    }

    method FindIdle() returns (node: FrameNode?, ghost i: nat)
      requires Valid()
      ensures i == First(Idle, slots) && node == NodeAt(First(Idle, slots))
    {
      i := 0;
      node := head;
      while node != null && node.inUse
        invariant i <= |nodes|
        invariant node == if i < |nodes| then nodes[i] else null
        invariant forall j :: 0 <= j < i ==> nodes[j].inUse
        decreases |nodes| - i
      {
        node := node.next;
        i := i + 1;
      }
      FoundFirst(Idle, slots, i);
    }

    method FindUnheld() returns (node: FrameNode?, ghost i: nat)
      requires Valid()
      ensures i == First(Unheld, slots) && node == NodeAt(First(Unheld, slots))
    {
      i := 0;
      node := head;
      while node != null && node.refCount != 0
        invariant i <= |nodes|
        invariant node == if i < |nodes| then nodes[i] else null
        invariant forall j :: 0 <= j < i ==> nodes[j].refCount != 0
        decreases |nodes| - i
      {
        node := node.next;
        i := i + 1;
      }
      FoundFirst(Unheld, slots, i);
    }

    method FindLent(b: Buffer) returns (node: FrameNode?, ghost i: nat)
      requires Valid()
      ensures i == First(LentOut(b), slots) && node == NodeAt(First(LentOut(b), slots))
    {
      i := 0;
      node := head;
      while node != null && !(node.inUse && node.frame == Some(b))
        invariant i <= |nodes|
        invariant node == if i < |nodes| then nodes[i] else null
        invariant forall j :: 0 <= j < i ==> !(nodes[j].inUse && nodes[j].frame == Some(b))
        decreases |nodes| - i
      {
        node := node.next;
        i := i + 1;
      }
      FoundFirst(LentOut(b), slots, i);
    }

    method FindFrame(b: Buffer) returns (node: FrameNode?, ghost i: nat)
      requires Valid()
      ensures i == First(Carries(b), slots) && node == NodeAt(First(Carries(b), slots))
    {
      i := 0;
      node := head;
      while node != null && node.frame != Some(b)
        invariant i <= |nodes|
        invariant node == if i < |nodes| then nodes[i] else null
        invariant forall j :: 0 <= j < i ==> nodes[j].frame != Some(b)
        decreases |nodes| - i
      {
        node := node.next;
        i := i + 1;
      }
      FoundFirst(Carries(b), slots, i);
    }

    method FindPending(c: Consumer) returns (node: FrameNode?, ghost i: nat)
      requires Valid()
      ensures i == First(PendingFor(c), slots) && node == NodeAt(First(PendingFor(c), slots))
    {
      i := 0;
      node := head;
      while node != null
        invariant i <= |nodes|
        invariant node == if i < |nodes| then nodes[i] else null
        invariant forall j :: 0 <= j < i ==> !slots[j].Pending(c)
        decreases |nodes| - i
      {
        var wants := node.Wants(c);
        if wants {
          break;
        }
        node := node.next;
        i := i + 1;
      }
      FoundFirst(PendingFor(c), slots, i);
    }
  }
}
