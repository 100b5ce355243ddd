/**
 The multi-consumer frame queue on values: what every critical section of
 frame_que_v2.c does to its two lists, its masks and its counters.

 A set of consumers stands for a consumer mask; module ConsumerMask proves that
 the bit expressions of the code are these set operations.
 */
module QueueSpec {
  import opened Wrappers

  /** The number of a consumer's bit: the code looks at bits 0 to 7 only. */
  type Consumer = c: nat | c < 8

  /** The address of a frame buffer. */
  type Buffer = nat

  datatype Format = Mjpeg | H264 | Yuv

  function PoolSize(f: Format): nat {
    match f
    case Mjpeg => 4
    case H264 => 6
    case Yuv => 3
  }

  /** The fields of a frame node.  `stamp` is a history variable: the number of
      frames completed before this one was. */
  datatype Slot = Slot(
    frame: Option<Buffer>, refCount: nat, mask: set<Consumer>, accessed: set<Consumer>, inUse: bool, stamp: nat)
  {
    predicate Pending(c: Consumer) {
      c in mask && c !in accessed
    }

    predicate AllAccessed() {
      mask <= accessed
    }

    function Reset(): Slot {
      this.(refCount := 0, mask := {}, accessed := {}, inUse := false)
    }
  }

  const EMPTY_SLOT := Slot(None, 0, {}, {}, false, 0)

  datatype Queue = Queue(
    format: Format, count: nat, free: seq<Slot>, ready: seq<Slot>,
    active: set<Consumer>, enabled: set<Consumer>,
    totalMalloc: nat, totalComplete: nat, totalFree: nat)

  // ----- searching a list from its head -----

  /** The conditions under which the code stops at a node. */
  datatype Query =
    | Idle                       // a node no producer occupies
    | Unheld                     // a node no consumer holds
    | PendingFor(c: Consumer)    // a node consumer c must still see
    | LentOut(b: Buffer)         // the node of a producer filling b
    | Carries(b: Buffer)         // the node whose buffer is b

  predicate Matches(q: Query, s: Slot) {
    match q
    case Idle => !s.inUse
    case Unheld => s.refCount == 0
    case PendingFor(c) => s.Pending(c)
    case LentOut(b) => s.inUse && s.frame == Some(b)
    case Carries(b) => s.frame == Some(b)
  }

  /** The position of the first match, or the length of the list. */
  function First(q: Query, s: seq<Slot>): (i: nat)
    ensures i <= |s|
    ensures i < |s| ==> Matches(q, s[i])
    ensures forall j :: 0 <= j < i ==> !Matches(q, s[j])
  {
    if s == [] || Matches(q, s[0]) then 0 else 1 + First(q, s[1..])
  }

  function RemoveAt(s: seq<Slot>, i: nat): (r: seq<Slot>)
    requires i < |s|
  {
    s[..i] + s[i + 1..]
  }

  // ----- sweeps: the three loops that unlink nodes while they iterate -----

  datatype Sweep = ClearSweep | RegisterSweep | UnregisterSweep(c: Consumer)

  /** What a sweep writes to a node it visits. */
  function Touch(op: Sweep, s: Slot): Slot {
    if op.UnregisterSweep? && s.Pending(op.c) then s.(mask := s.mask - {op.c}) else s
  }

  /** Whether the sweep moves the node to the free list. */
  predicate Goes(op: Sweep, s: Slot) {
    match op
    case ClearSweep => s.refCount == 0
    case RegisterSweep => s.mask == {} && s.refCount == 0
    case UnregisterSweep(c) =>
      s.Pending(c) && s.refCount == 0 && (Touch(op, s).mask == {} || Touch(op, s).AllAccessed())
  }

  /** What a sweep leaves in the ready list. */
  function Kept(op: Sweep, s: seq<Slot>): seq<Slot> {
    if s == [] then [] else
      var n := |s| - 1;
      Kept(op, s[..n]) + if Goes(op, s[n]) then [] else [Touch(op, s[n])]
  }

  /** What a sweep appends to the free list. */
  function Gone(op: Sweep, s: seq<Slot>): seq<Slot> {
    if s == [] then [] else
      var n := |s| - 1;
      Gone(op, s[..n]) + if Goes(op, s[n]) then [Touch(op, s[n]).Reset()] else []
  }

  function SweepReady(op: Sweep, q: Queue): Queue {
    q.(ready := Kept(op, q.ready), free := q.free + Gone(op, q.ready))
  }

  // ----- the operations -----

  /** What an operation does: the new queue, whether it succeeded, the frame it
      returns, the buffers it takes from the allocator and gives back to it. */
  datatype Effect = Effect(q: Queue, ok: bool, frame: Option<Buffer>, taken: seq<Buffer>, freed: seq<Buffer>)

  function Failed(q: Queue): Effect {
    Effect(q, false, None, [], [])
  }

  function Fresh(f: Format, nodes: nat): Queue {
    Queue(f, PoolSize(f), seq(nodes, _ => EMPTY_SLOT), [], {}, {}, 0, 0, 0)
  }

  function Register(q: Queue, c: Consumer): Effect {
    if q.count == 0 then Failed(q) else
      var joined := q.(active := q.active + {c}, enabled := q.enabled + {c});
      Effect(SweepReady(RegisterSweep, joined), true, None, [], [])
  }

  function Unregister(q: Queue, c: Consumer): Effect {
    if q.count == 0 then Failed(q) else
      var left := q.(active := q.active - {c}, enabled := q.enabled - {c});
      var swept := SweepReady(UnregisterSweep(c), left);
      Effect(swept.(totalFree := q.totalFree + |Gone(UnregisterSweep(c), q.ready)|), true, None, [], [])
  }

  /** The node selection of malloc: the queue with the chosen node marked, and
      its position in the free list. */
  function Select(q: Queue): (r: Option<(Queue, nat)>)
    ensures r.Some? ==> r.value.1 < |r.value.0.free|
  {
    var i := First(Idle, q.free);
    if i < |q.free| then
      Some((q.(free := q.free[i := q.free[i].(inUse := true)]), i))
    else if q.format == H264 then
      None
    else
      var j := First(Unheld, q.ready);
      if j == |q.ready| then None
      else Some((q.(free := [q.ready[j].(inUse := true)] + q.free, ready := RemoveAt(q.ready, j)), 0))
  }

  /** The rest of malloc: give the chosen node a buffer if it has none. */
  function Fill(q: Queue, i: nat, alloc: Option<Buffer>): Effect
    requires i < |q.free|
  {
    var s := q.free[i];
    if s.frame.None? && alloc.None? then
      Failed(q.(free := q.free[i := s.(inUse := false)]))
    else
      var b := if s.frame.Some? then s.frame.value else alloc.value;
      var filled := s.(frame := Some(b), refCount := 0, accessed := {});
      Effect(q.(free := q.free[i := filled], totalMalloc := q.totalMalloc + 1),
             true, Some(b), if s.frame.Some? then [] else [b], [])
  }

  /** `alloc` is what the buffer allocator answers if it is asked. */
  function Malloc(q: Queue, alloc: Option<Buffer>): Effect {
    if q.count == 0 then Failed(q) else
      match Select(q)
      case None => Failed(q)
      case Some((chosen, i)) => Fill(chosen, i, alloc)
  }

  function Complete(q: Queue, b: Buffer, stamp: nat): Effect {
    var i := First(LentOut(b), q.free);
    if q.count == 0 || i == |q.free| then Failed(q) else
      var s := q.free[i].(inUse := false, accessed := {}, mask := q.active, stamp := stamp);
      Effect(q.(free := RemoveAt(q.free, i), ready := q.ready + [s], totalComplete := q.totalComplete + 1),
             true, None, [], [])
  }

  function Cancel(q: Queue, b: Buffer): Effect {
    var i := First(LentOut(b), q.free);
    if q.count == 0 || i == |q.free| then Failed(q) else
      var s := q.free[i].(frame := None, inUse := false);
      Effect(q.(free := q.free[i := s], totalFree := q.totalFree + 1), true, None, [], [b])
  }

  function Get(q: Queue, c: Consumer): Effect {
    var i := First(PendingFor(c), q.ready);
    if q.count == 0 || c !in q.enabled || i == |q.ready| then Failed(q) else
      var s := q.ready[i];
      var seen := s.(refCount := s.refCount + 1, accessed := s.accessed + {c});
      Effect(q.(ready := q.ready[i := seen]), true, s.frame, [], [])
  }

  /** The first critical section of release: the new queue, and the node it
      unlinked when that was the last release. */
  function Unlink(q: Queue, b: Buffer): (Queue, Option<Slot>) {
    var i := First(Carries(b), q.ready);
    if q.count == 0 || i == |q.ready| then (q, None) else
      var s := q.ready[i];
      var less := s.(refCount := if s.refCount > 0 then s.refCount - 1 else 0);
      if less.refCount == 0 && less.AllAccessed() then (q.(ready := RemoveAt(q.ready, i)), Some(less))
      else (q.(ready := q.ready[i := less]), None)
  }

  /** The second part of release: free the buffer of the unlinked node and put
      the node back into the free list. */
  function Reclaim(q: Queue, s: Slot): Effect {
    Effect(q.(free := q.free + [s.Reset().(frame := None)], totalFree := q.totalFree + 1),
           true, None, [], if s.frame.Some? then [s.frame.value] else [])
  }

  /** The whole of release when nothing runs between its two parts. */
  function Release(q: Queue, b: Buffer): Effect {
    var (unlinked, last) := Unlink(q, b);
    if last.Some? then Reclaim(unlinked, last.value) else Effect(unlinked, true, None, [], [])
  }

  /** The buffers of a list, from head to tail. */
  function Frames(s: seq<Slot>): seq<Buffer> {
    if s == [] then [] else
      var n := |s| - 1;
      Frames(s[..n]) + if s[n].frame.Some? then [s[n].frame.value] else []
  }

  function ClearReady(q: Queue): Effect {
    Effect(if q.count == 0 then q else SweepReady(ClearSweep, q), true, None, [], [])
  }

  function Emptied(s: seq<Slot>): seq<Slot> {
    seq(|s|, i requires 0 <= i < |s| => s[i].(inUse := false, frame := None))
  }

  function ClearFree(q: Queue): Effect {
    if q.count == 0 then Effect(q, true, None, [], []) else
      Effect(q.(free := Emptied(q.free)), true, None, [], Frames(q.free))
  }

  /** clear_all on one queue: its two critical sections in a row. */
  function ClearAll(q: Queue): Effect {
    ClearFree(ClearReady(q).q)
  }

  /** deinit destroys every node of the two lists, with its buffer. */
  function Deinit(q: Queue): Effect {
    if q.count == 0 then Effect(q, true, None, [], []) else
      Effect(Queue(q.format, 0, [], [], {}, {}, 0, 0, 0), true, None, [], Frames(q.free) + Frames(q.ready))
  }
}
