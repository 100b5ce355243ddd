/**
 Runs of one frame queue shared by any number of producers and consumers.

 Every event is one critical section of frame_que_v2.c, except that malloc and
 cancel include the allocator call that follows theirs.  The state adds history to the queue: who
 holds which frame, what each consumer received, and what became of every
 completed frame.  None of it influences the queue.
 */
module QueueWorld {
  import opened Wrappers
  import opened QueueSpec
  import opened QueueLists
  import opened QueueLedger

  /** Consumer `who` was given the buffer of the frame completed as number `stamp`. */
  datatype Holding = Holding(who: Consumer, stamp: nat, buf: Buffer)

  /** How a completed frame left the ready list. */
  datatype Fate =
    | Released   // the last consumer released it
    | Recycled   // a consumer that had not seen it unregistered
    | Cleaned    // it was completed for nobody, and a consumer registered
    | Stolen     // malloc took it for a producer
    | Cleared    // clear_all removed it

  datatype World = World(
    q: Queue,
    limbo: seq<Slot>,            // nodes between the two parts of release
    live: set<Buffer>,           // buffers the allocator has handed out
    clock: nat,                  // frames completed so far
    held: set<Holding>,
    fate: map<nat, Fate>,
    got: seq<seq<nat>>,          // per consumer: the frames it received
    joined: seq<nat>,            // per consumer: clock when it last became active
    base: seq<nat>,              // per consumer: frames received before that
    idle: nat,                   // clock when the last active consumer left
    cancels: nat,
    abandoned: nat,              // producer frames clear_all took back
    inherited: nat)              // releases begun before init

  datatype Event =
    | RegisterEvent(c: Consumer)
    | UnregisterEvent(c: Consumer)
    | MallocEvent(alloc: Option<Buffer>)
    | CompleteEvent(b: Buffer)
    | CancelEvent(b: Buffer)
    | GetEvent(c: Consumer)
    | UnlinkEvent(h: Holding)      // a consumer releases what it holds
    | ReclaimEvent(i: nat)         // the second part of the release of limbo[i]
    | ClearReadyEvent
    | ClearFreeEvent

  /** One history per consumer bit. */
  ghost predicate Sized(w: World) {
    |w.got| == |w.joined| == |w.base| == 8
  }

  /** What callers and the allocator respect: a consumer releases a frame only
      while it holds it, and the allocator answers with a buffer it has not
      handed out. */
  ghost predicate Can(w: World, e: Event) {
    match e
    case MallocEvent(alloc) => alloc.Some? ==> alloc.value !in w.live
    case UnlinkEvent(h) => h in w.held
    case ReclaimEvent(i) => i < |w.limbo|
    case _ => true
  }

  ghost function Retire(fate: map<nat, Fate>, stamps: set<nat>, f: Fate): map<nat, Fate> {
    fate + (map t | t in stamps :: f)
  }

  /** The queue operation an event performs. */
  ghost function Perform(w: World, e: Event): Effect
    requires Can(w, e)
  {
    match e
    case RegisterEvent(c) => Register(w.q, c)
    case UnregisterEvent(c) => Unregister(w.q, c)
    case MallocEvent(alloc) => Malloc(w.q, alloc)
    case CompleteEvent(b) => Complete(w.q, b, w.clock)
    case CancelEvent(b) => Cancel(w.q, b)
    case GetEvent(c) => Get(w.q, c)
    case UnlinkEvent(h) => Effect(Unlink(w.q, h.buf).0, true, None, [], [])
    case ReclaimEvent(i) => Reclaim(w.q, w.limbo[i])
    case ClearReadyEvent => ClearReady(w.q)
    case ClearFreeEvent => ClearFree(w.q)
  }

  /** The frames malloc would take away from consumers. */
  ghost function StolenBy(q: Queue): set<nat> {
    if q.count == 0 || First(Idle, q.free) < |q.free| || q.format == H264 then {} else
      var j := First(Unheld, q.ready);
      if j == |q.ready| then {} else {q.ready[j].stamp}
  }

  /** One step of the system. */
  ghost function Do(w: World, e: Event): World
    requires Sized(w) && Can(w, e)
    ensures Sized(Do(w, e))
  {
    var x := Perform(w, e);
    var w' := w.(q := x.q, live := Ledger(w.live, x));
    match e
    case RegisterEvent(c) =>
      var r := w'.(fate := Retire(w.fate, if x.ok then Stamps(Gone(RegisterSweep, w.q.ready)) else {}, Cleaned));
      if x.ok && c !in w.q.active then r.(joined := w.joined[c := w.clock], base := w.base[c := |w.got[c]|]) else r
    case UnregisterEvent(c) =>
      w'.(fate := Retire(w.fate, if x.ok then Stamps(Gone(UnregisterSweep(c), w.q.ready)) else {}, Recycled),
          idle := if w.q.active != {} && x.q.active == {} then w.clock else w.idle)
    case MallocEvent(alloc) => w'.(fate := Retire(w.fate, StolenBy(w.q), Stolen))
    case CompleteEvent(b) => if x.ok then w'.(clock := w.clock + 1) else w'
    case CancelEvent(b) => if x.ok then w'.(cancels := w.cancels + 1) else w'
    case GetEvent(c) =>
      if !x.ok || x.frame.None? then w' else
        var t := w.q.ready[First(PendingFor(c), w.q.ready)].stamp;
        w'.(held := w.held + {Holding(c, t, x.frame.value)}, got := w.got[c := w.got[c] + [t]])
    case UnlinkEvent(h) =>
      var last := Unlink(w.q, h.buf).1;
      var r := w'.(held := w.held - {h});
      if last.None? then r else
        r.(limbo := w.limbo + [last.value], fate := Retire(w.fate, {last.value.stamp}, Released))
    case ReclaimEvent(i) => w'.(limbo := RemoveAt(w.limbo, i))
    case ClearReadyEvent =>
      w'.(fate := Retire(w.fate, if w.q.count == 0 then {} else Stamps(Gone(ClearSweep, w.q.ready)), Cleared))
    case ClearFreeEvent =>
      w'.(abandoned := w.abandoned + if w.q.count == 0 then 0 else Lent(w.q.free))
  }

  /** The events can happen in this order, each one being possible when its turn comes. */
  ghost predicate CanRun(w: World, es: seq<Event>)
    requires Sized(w)
    decreases |es|
  {
    es == [] || (Can(w, es[0]) && CanRun(Do(w, es[0]), es[1..]))
  }

  ghost function Run(w: World, es: seq<Event>): World
    requires Sized(w) && CanRun(w, es)
    ensures Sized(Run(w, es))
    decreases |es|
  {
    if es == [] then w else Run(Do(w, es[0]), es[1..])
  }

  // ----- init and deinit -----

  /** How a queue came to be initialised with `nodes` nodes: for the first time, or again
      after a run and deinit.  Of the releases that were half done at deinit, those of the
      nodes in `left` still are at init. */
  datatype Origin =
    | Boot(format: Format, nodes: nat)
    | Reinit(before: Origin, run: seq<Event>, left: seq<Slot>, nodes: nat)

  function FormatOf(o: Origin): Format {
    if o.Boot? then o.format else FormatOf(o.before)
  }

  function Left(o: Origin): seq<Slot> {
    if o.Boot? then [] else o.left
  }

  /** The queue right after init: nobody holds a frame, and the live buffers are those of
      the releases half done. */
  ghost function Start(o: Origin): World {
    var left := Left(o);
    World(Fresh(FormatOf(o), o.nodes), left, set b | b in Frames(left), 0, {}, map[],
          seq(8, _ => []), seq(8, _ => 0), seq(8, _ => 0), 0, 0, 0, |left|)
  }

  ghost predicate Possible(o: Origin) {
    o.Reinit? ==>
      && Possible(o.before) && CanRun(Start(o.before), o.run)
      && multiset(o.left) <= multiset(Run(Start(o.before), o.run).limbo)
  }
}
