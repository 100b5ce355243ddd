/** What every step of every run keeps. */
module QueueInvariants {
  import opened Wrappers
  import opened QueueSpec
  import opened QueueLists
  import opened QueueLedger
  import opened QueueWorld

  // ----- the invariants -----

  /** A completed node.  A node nobody holds is awaited by an active consumer,
      or was completed for nobody since the last consumer left. */
  ghost predicate ReadyOk(s: Slot, active: set<Consumer>, clock: nat, idle: nat) {
    && s.frame.Some? && !s.inUse && s.stamp < clock
    && s.accessed <= s.mask
    && s.mask - s.accessed <= active
    && s.refCount <= |s.accessed|
    && (s.refCount == 0 && s.mask != {} ==> !s.AllAccessed())
    && (s.mask == {} ==> active == {} && idle <= s.stamp)
  }

  ghost predicate FreeOk(s: Slot) {
    s.refCount == 0 && (s.inUse ==> s.frame.Some?)
  }

  ghost predicate LimboOk(s: Slot) {
    s.refCount == 0 && s.frame.Some?
  }

  ghost predicate Shape(w: World) {
    && Sized(w)
    && w.q.count == PoolSize(w.q.format)
    && w.q.enabled == w.q.active
    && w.idle <= w.clock
    && (forall s :: s in w.q.ready ==> ReadyOk(s, w.q.active, w.clock, w.idle))
    && (forall s :: s in w.q.free ==> FreeOk(s))
    && (forall s :: s in w.limbo ==> LimboOk(s))
  }

  /** How many nodes carry buffer b. */
  ghost function Owners(w: World, b: Buffer): nat {
    Count(Carries(b), w.q.free) + Count(Carries(b), w.q.ready) + Count(Carries(b), w.limbo)
  }

  /** The live buffers are those in the nodes, each in exactly one. */
  ghost predicate Owned(w: World) {
    forall b :: Owners(w, b) == if b in w.live then 1 else 0
  }

  /** Every completed frame is ready or has had exactly one fate, and the ready
      list is in completion order. */
  ghost predicate Dated(w: World) {
    && Ordered(w.q.ready)
    && (forall t: nat :: t in w.fate <==> t < w.clock && t !in Stamps(w.q.ready))
  }

  ghost function Holders(held: set<Holding>, stamp: nat): set<Holding> {
    set h | h in held && h.stamp == stamp
  }

  /** The node a holder was given is still there, with its buffer. */
  ghost predicate StillThere(h: Holding, ready: seq<Slot>) {
    exists s :: s in ready && s.stamp == h.stamp && s.frame == Some(h.buf) && h.who in s.accessed
  }

  /** A reference count is the number of consumers that hold the frame. */
  ghost predicate Counted(held: set<Holding>, ready: seq<Slot>) {
    && (forall h :: h in held ==> StillThere(h, ready))
    && (forall s :: s in ready ==> s.refCount == |Holders(held, s.stamp)|)
  }

  ghost predicate Increasing(s: seq<nat>) {
    forall i, j :: 0 <= i < j < |s| ==> s[i] < s[j]
  }

  /** Frame t is ready and consumer c has still to see it. */
  ghost predicate Awaits(ready: seq<Slot>, c: Consumer, t: nat) {
    exists s :: s in ready && s.Pending(c) && s.stamp == t
  }

  /** What a consumer received is in completion order and before all that awaits it. */
  ghost predicate Logged(w: World, c: Consumer)
    requires Sized(w)
  {
    && Increasing(w.got[c])
    && (forall t :: t in w.got[c] ==> t < w.clock)
    && (forall t, u :: t in w.got[c] && Awaits(w.q.ready, c, u) ==> t < u)
  }

  /** Frame t was taken from the consumers by malloc or by clear_all. */
  ghost predicate Lost(fate: map<nat, Fate>, t: nat) {
    t in fate && fate[t] in {Stolen, Cleared}
  }

  /** Of the frames completed since it joined, a consumer got, awaits, or lost to
      malloc or clear_all each one. */
  ghost predicate Covered(w: World, c: Consumer)
    requires Sized(w)
  {
    && w.base[c] <= |w.got[c]|
    && w.joined[c] <= w.clock
    && (forall k :: 0 <= k < w.base[c] ==> w.got[c][k] < w.joined[c])
    && (forall k :: w.base[c] <= k < |w.got[c]| ==> w.joined[c] <= w.got[c][k])
    && (forall t :: Awaits(w.q.ready, c, t) ==> w.joined[c] <= t)
    && (forall t: nat :: w.joined[c] <= t < w.clock ==>
          t in w.got[c] || Awaits(w.q.ready, c, t) || Lost(w.fate, t))
  }

  ghost predicate Histories(w: World) {
    && Sized(w)
    && (forall c: Consumer :: Logged(w, c))
    && (forall c: Consumer :: c in w.q.active ==> Covered(w, c))
  }

  // ----- nodes -----

  lemma ShapeSweep(w: World, op: Sweep, active: set<Consumer>, idle: nat)
    requires Shape(w)
    requires match op
             case ClearSweep => active == w.q.active
             case RegisterSweep => w.q.active <= active && active != {}
             case UnregisterSweep(c) => active == w.q.active - {c}
    requires if op.UnregisterSweep? && w.q.active != {} && active == {} then idle == w.clock else idle == w.idle
    ensures forall s :: s in Kept(op, w.q.ready) ==> ReadyOk(s, active, w.clock, idle)
    ensures forall s :: s in Gone(op, w.q.ready) ==> FreeOk(s)
  {
    forall y | y in Kept(op, w.q.ready) ensures ReadyOk(y, active, w.clock, idle) {
      var x := KeptFrom(op, w.q.ready, y);
      assert ReadyOk(x, w.q.active, w.clock, w.idle);
    }
    forall y | y in Gone(op, w.q.ready) ensures FreeOk(y) {
      var x := GoneFrom(op, w.q.ready, y);
    }
  }

  lemma ShapeSelect(w: World)
    requires Shape(w) && Select(w.q).Some?
    ensures var (q1, i) := Select(w.q).value;
      && (forall s :: s in q1.free && s != q1.free[i] ==> FreeOk(s))
      && q1.free[i].refCount == 0
      && (forall s :: s in q1.ready ==> s in w.q.ready)
      && q1 == w.q.(free := q1.free, ready := q1.ready)
  {
    var (q1, i) := Select(w.q).value;
    var k := First(Idle, w.q.free);
    if k < |w.q.free| {
      UpdateMembers(w.q.free, k, q1.free[k]);
    }
  }

  lemma ShapeMalloc(w: World, alloc: Option<Buffer>)
    requires Shape(w) && Can(w, MallocEvent(alloc))
    ensures Shape(Do(w, MallocEvent(alloc)))
  {
    if Select(w.q).Some? {
      var (q1, i) := Select(w.q).value;
      ShapeSelect(w);
      UpdateMembers(q1.free, i, Fill(q1, i, alloc).q.free[i]);
    }
  }

  lemma ShapeComplete(w: World, b: Buffer)
    requires Shape(w)
    ensures Shape(Do(w, CompleteEvent(b)))
  {
    var i := First(LentOut(b), w.q.free);
    if i < |w.q.free| {
      assert FreeOk(w.q.free[i]);
    }
  }

  lemma ShapeCancel(w: World, b: Buffer)
    requires Shape(w)
    ensures Shape(Do(w, CancelEvent(b)))
  {
    var i := First(LentOut(b), w.q.free);
    if i < |w.q.free| {
      UpdateMembers(w.q.free, i, Cancel(w.q, b).q.free[i]);
    }
  }

  lemma ShapeGet(w: World, c: Consumer)
    requires Shape(w)
    ensures Shape(Do(w, GetEvent(c)))
  {
    if Get(w.q, c).ok {
      var i := First(PendingFor(c), w.q.ready);
      assert ReadyOk(w.q.ready[i], w.q.active, w.clock, w.idle);
      UpdateMembers(w.q.ready, i, Get(w.q, c).q.ready[i]);
    }
  }

  lemma ShapeUnlink(w: World, h: Holding)
    requires Shape(w) && Can(w, UnlinkEvent(h))
    ensures Shape(Do(w, UnlinkEvent(h)))
  {
    var i := First(Carries(h.buf), w.q.ready);
    if i < |w.q.ready| {
      assert ReadyOk(w.q.ready[i], w.q.active, w.clock, w.idle);
      var (q', last) := Unlink(w.q, h.buf);
      if last.None? {
        UpdateMembers(w.q.ready, i, q'.ready[i]);
      }
    }
  }

  lemma ShapeStep(w: World, e: Event)
    requires Shape(w) && Can(w, e)
    ensures Shape(Do(w, e))
  {
    match e
    case RegisterEvent(c) => ShapeSweep(w, RegisterSweep, w.q.active + {c}, w.idle);
    case UnregisterEvent(c) => ShapeSweep(w, UnregisterSweep(c), w.q.active - {c}, Do(w, e).idle);
    case ClearReadyEvent => ShapeSweep(w, ClearSweep, w.q.active, w.idle);
    case ClearFreeEvent =>
      forall s | s in Emptied(w.q.free) ensures FreeOk(s) {
        var k :| 0 <= k < |w.q.free| && s == Emptied(w.q.free)[k];
        assert FreeOk(w.q.free[k]);
      }
    case MallocEvent(alloc) => ShapeMalloc(w, alloc);
    case CompleteEvent(b) => ShapeComplete(w, b);
    case CancelEvent(b) => ShapeCancel(w, b);
    case GetEvent(c) => ShapeGet(w, c);
    case UnlinkEvent(h) => ShapeUnlink(w, h);
    case ReclaimEvent(_) =>
  }

  // ----- buffers -----

  lemma OwnersStep(w: World, e: Event, b: Buffer)
    requires Sized(w) && Can(w, e)
    ensures var x := Perform(w, e);
            Owners(Do(w, e), b) + multiset(x.freed)[b] == Owners(w, b) + multiset(x.taken)[b]
  {
    match e
    case RegisterEvent(c) => RegisterBalance(b, w.q, c);
    case UnregisterEvent(c) => UnregisterBalance(b, w.q, c);
    case MallocEvent(alloc) => MallocBalance(b, w.q, alloc);
    case CompleteEvent(d) => CompleteBalance(b, w.q, d, w.clock);
    case CancelEvent(d) => CancelBalance(b, w.q, d);
    case GetEvent(c) => GetBalance(b, w.q, c);
    case UnlinkEvent(h) =>
      UnlinkBalance(b, w.q, h.buf);
      var last := Unlink(w.q, h.buf).1;
      if last.Some? {
        CountSnoc(Carries(b), w.limbo, last.value);
      }
    case ReclaimEvent(i) =>
      ReclaimBalance(b, w.q, w.limbo[i]);
      CountRemove(Carries(b), w.limbo, i);
    case ClearReadyEvent => ClearReadyBalance(b, w.q);
    case ClearFreeEvent => ClearFreeBalance(b, w.q);
  }

  lemma LedgerStep(w: World, e: Event)
    requires Sized(w) && Can(w, e)
    ensures Do(w, e).live == Ledger(w.live, Perform(w, e))
    ensures Thrifty(w.live, Perform(w, e))
  {
  }

  /** A buffer is taken from the allocator only when it is not live, and given
      back only when it is live, once. */
  lemma OwnedStep(w: World, e: Event)
    requires Sized(w) && Owned(w) && Can(w, e)
    ensures Owned(Do(w, e))
    ensures var x := Perform(w, e);
            && (forall b :: b in x.taken ==> b !in w.live)
            && (forall b :: b in x.freed ==> b in w.live && multiset(x.freed)[b] == 1)
  {
    LedgerStep(w, e);
    var w', x := Do(w, e), Perform(w, e);
    forall b
      ensures Owners(w', b) == if b in w'.live then 1 else 0
      ensures (b in x.taken ==> b !in w.live) && (b in x.freed ==> b in w.live && multiset(x.freed)[b] == 1)
    {
      OwnersStep(w, e, b);
      LedgerEntry(w.live, x, Owners(w, b), Owners(w', b), b);
    }
  }

  // ----- the fate of completed frames -----

  lemma DatedRetire(w: World, ready: seq<Slot>, stamps: set<nat>, f: Fate)
    requires Dated(w) && Ordered(ready)
    requires Stamps(ready) + stamps == Stamps(w.q.ready) && Stamps(ready) !! stamps
    requires forall s :: s in w.q.ready ==> s.stamp < w.clock
    ensures forall t: nat :: t in Retire(w.fate, stamps, f) <==> t < w.clock && t !in Stamps(ready)
  {
    forall t: nat ensures t in Retire(w.fate, stamps, f) <==> t < w.clock && t !in Stamps(ready) {
      assert t in w.fate <==> t < w.clock && t !in Stamps(w.q.ready);
    }
  }

  lemma DatedSweep(w: World, op: Sweep, f: Fate)
    requires Shape(w) && Dated(w)
    ensures Ordered(Kept(op, w.q.ready))
    ensures forall t: nat :: t in Retire(w.fate, Stamps(Gone(op, w.q.ready)), f)
              <==> t < w.clock && t !in Stamps(Kept(op, w.q.ready))
  {
    KeptOrdered(op, w.q.ready);
    SweepStamps(op, w.q.ready);
    DatedRetire(w, Kept(op, w.q.ready), Stamps(Gone(op, w.q.ready)), f);
  }

  lemma DatedRemove(w: World, i: nat, f: Fate)
    requires Shape(w) && Dated(w) && i < |w.q.ready|
    ensures var r := RemoveAt(w.q.ready, i);
            && Ordered(r)
            && forall t: nat :: t in Retire(w.fate, {w.q.ready[i].stamp}, f) <==> t < w.clock && t !in Stamps(r)
  {
    RemoveOrdered(w.q.ready, i);
    assert w.q.ready[i].stamp in Stamps(w.q.ready);
    DatedRetire(w, RemoveAt(w.q.ready, i), {w.q.ready[i].stamp}, f);
  }

  lemma DatedComplete(w: World, b: Buffer)
    requires Shape(w) && Dated(w)
    ensures Dated(Do(w, CompleteEvent(b)))
  {
    var i := First(LentOut(b), w.q.free);
    if i < |w.q.free| {
      var w' := Do(w, CompleteEvent(b));
      var s := w'.q.ready[|w.q.ready|];
      forall k | 0 <= k < |w.q.ready| ensures w.q.ready[k].stamp < w.clock {
        assert ReadyOk(w.q.ready[k], w.q.active, w.clock, w.idle);
      }
      forall t: nat ensures t in w'.fate <==> t < w'.clock && t !in Stamps(w'.q.ready) {
        assert t in w.fate <==> t < w.clock && t !in Stamps(w.q.ready);
        if t in Stamps(w.q.ready) {
          var x :| x in w.q.ready && x.stamp == t;
          assert x in w'.q.ready;
        }
        assert s in w'.q.ready;
      }
    }
  }

  lemma DatedMalloc(w: World, alloc: Option<Buffer>)
    requires Shape(w) && Dated(w) && Can(w, MallocEvent(alloc))
    ensures Dated(Do(w, MallocEvent(alloc)))
  {
    if StolenBy(w.q) != {} {
      DatedRemove(w, First(Unheld, w.q.ready), Stolen);
    }
  }

  lemma DatedGet(w: World, c: Consumer)
    requires Shape(w) && Dated(w)
    ensures Dated(Do(w, GetEvent(c)))
  {
    if Get(w.q, c).ok {
      var i := First(PendingFor(c), w.q.ready);
      UpdateStamps(w.q.ready, i, Get(w.q, c).q.ready[i]);
    }
  }

  lemma DatedUnlink(w: World, h: Holding)
    requires Shape(w) && Dated(w) && Can(w, UnlinkEvent(h))
    ensures Dated(Do(w, UnlinkEvent(h)))
  {
    var i := First(Carries(h.buf), w.q.ready);
    if i < |w.q.ready| {
      var (q', last) := Unlink(w.q, h.buf);
      if last.Some? {
        DatedRemove(w, i, Released);
      } else {
        UpdateStamps(w.q.ready, i, q'.ready[i]);
      }
    }
  }

  lemma DatedStep(w: World, e: Event)
    requires Shape(w) && Dated(w) && Can(w, e)
    ensures Dated(Do(w, e))
  {
    match e
    case RegisterEvent(c) => DatedSweep(w, RegisterSweep, Cleaned);
    case UnregisterEvent(c) => DatedSweep(w, UnregisterSweep(c), Recycled);
    case ClearReadyEvent => DatedSweep(w, ClearSweep, Cleared);
    case MallocEvent(alloc) => DatedMalloc(w, alloc);
    case CompleteEvent(b) => DatedComplete(w, b);
    case GetEvent(c) => DatedGet(w, c);
    case UnlinkEvent(h) => DatedUnlink(w, h);
    case _ =>
  }

  // ----- reference counts -----

  lemma HolderSlot(held: set<Holding>, ready: seq<Slot>, h: Holding) returns (i: nat)
    requires Counted(held, ready) && h in held
    ensures i < |ready| && ready[i].stamp == h.stamp && ready[i].frame == Some(h.buf) && h.who in ready[i].accessed
    ensures ready[i].refCount > 0
  {
    assert StillThere(h, ready);
    var s :| s in ready && s.stamp == h.stamp && s.frame == Some(h.buf) && h.who in s.accessed;
    assert h in Holders(held, s.stamp);
    i :| 0 <= i < |ready| && ready[i] == s;
  }

  /** Nodes nobody holds may leave; the others may lose pending consumers. */
  lemma CountedSweep(held: set<Holding>, op: Sweep, ready: seq<Slot>)
    requires Counted(held, ready)
    ensures Counted(held, Kept(op, ready))
  {
    forall h | h in held ensures StillThere(h, Kept(op, ready)) {
      var i := HolderSlot(held, ready, h);
      KeptHas(op, ready, ready[i]);
      assert Touch(op, ready[i]) in Kept(op, ready);
    }
    forall s | s in Kept(op, ready) ensures s.refCount == |Holders(held, s.stamp)| {
      var x := KeptFrom(op, ready, s);
    }
  }

  lemma CountedRemove(held: set<Holding>, ready: seq<Slot>, i: nat)
    requires Counted(held, ready) && i < |ready| && ready[i].refCount == 0
    ensures Counted(held, RemoveAt(ready, i))
  {
    forall h | h in held ensures StillThere(h, RemoveAt(ready, i)) {
      var k := HolderSlot(held, ready, h);
      assert ready[k] in RemoveAt(ready, i);
    }
  }

  lemma CountedAppend(held: set<Holding>, ready: seq<Slot>, s: Slot)
    requires Counted(held, ready) && s.refCount == 0
    requires forall x :: x in ready ==> x.stamp < s.stamp
    ensures Counted(held, ready + [s])
  {
    forall h | h in held ensures StillThere(h, ready + [s]) && h.stamp < s.stamp {
      var k := HolderSlot(held, ready, h);
      assert ready[k] in ready + [s];
    }
    assert Holders(held, s.stamp) == {};
  }

  /** The node at i changes its count, and so do its holders. */
  lemma CountedUpdate(held: set<Holding>, held': set<Holding>, ready: seq<Slot>, i: nat, x: Slot)
    requires Counted(held, ready) && Ordered(ready) && i < |ready|
    requires x.stamp == ready[i].stamp && x.frame == ready[i].frame && ready[i].accessed <= x.accessed
    requires x.refCount == |Holders(held', x.stamp)|
    requires forall h :: h in held' && h !in held ==>
      h.stamp == x.stamp && Some(h.buf) == x.frame && h.who in x.accessed
    requires forall h :: h in held && h !in held' ==> h.stamp == x.stamp
    ensures Counted(held', ready[i := x])
  {
    var r := ready[i := x];
    assert r[i] in r;
    forall h | h in held' ensures StillThere(h, r) {
      if h in held {
        var k := HolderSlot(held, ready, h);
        assert r[k] in r;
      }
    }
    forall s | s in r ensures s.refCount == |Holders(held', s.stamp)| {
      var k :| 0 <= k < |r| && r[k] == s;
      if k != i {
        assert Holders(held', s.stamp) == Holders(held, s.stamp);
        assert ready[k] in ready;
      }
    }
  }

  lemma NotYetHeld(held: set<Holding>, ready: seq<Slot>, i: nat, h: Holding)
    requires Counted(held, ready) && Ordered(ready) && i < |ready|
    requires ready[i].stamp == h.stamp && h.who !in ready[i].accessed
    ensures h !in held
  {
    if h in held {
      var k := HolderSlot(held, ready, h);
    }
  }

  lemma CountedGet(w: World, c: Consumer)
    requires Shape(w) && Ordered(w.q.ready) && Counted(w.held, w.q.ready)
    ensures var w' := Do(w, GetEvent(c)); Counted(w'.held, w'.q.ready)
  {
    if Get(w.q, c).ok {
      var i := First(PendingFor(c), w.q.ready);
      var s := w.q.ready[i];
      assert ReadyOk(s, w.q.active, w.clock, w.idle);
      var h := Holding(c, s.stamp, s.frame.value);
      NotYetHeld(w.held, w.q.ready, i, h);
      assert Holders(w.held + {h}, s.stamp) == Holders(w.held, s.stamp) + {h};
      CountedUpdate(w.held, w.held + {h}, w.q.ready, i, Get(w.q, c).q.ready[i]);
    }
  }

  /** Release finds the very node its caller was given. */
  lemma FoundIsHeld(w: World, h: Holding)
    requires Owned(w) && Counted(w.held, w.q.ready) && h in w.held
    ensures var i := First(Carries(h.buf), w.q.ready); 
            && i < |w.q.ready| && w.q.ready[i].stamp == h.stamp
            && h.who in w.q.ready[i].accessed && w.q.ready[i].refCount > 0
  {
    var i := First(Carries(h.buf), w.q.ready);
    var k := HolderSlot(w.held, w.q.ready, h);
    assert Owners(w, h.buf) <= 1;
    if i < k {
      CountTwice(Carries(h.buf), w.q.ready, i, k);
    }
  }

  lemma CountedRelease(held: set<Holding>, ready: seq<Slot>, i: nat, h: Holding)
    requires Counted(held, ready) && Ordered(ready) && h in held
    requires i < |ready| && ready[i].stamp == h.stamp && ready[i].refCount > 0
    ensures var less := ready[i].(refCount := ready[i].refCount - 1);
            && Counted(held - {h}, ready[i := less])
            && (less.refCount == 0 ==> Counted(held - {h}, RemoveAt(ready, i)))
  {
    var less := ready[i].(refCount := ready[i].refCount - 1);
    assert ready[i] in ready;
    assert h in Holders(held, h.stamp);
    assert Holders(held - {h}, h.stamp) == Holders(held, h.stamp) - {h};
    CountedUpdate(held, held - {h}, ready, i, less);
    if less.refCount == 0 {
      CountedRemove(held - {h}, ready[i := less], i);
      assert RemoveAt(ready[i := less], i) == RemoveAt(ready, i);
    }
  }

  lemma CountedUnlink(w: World, h: Holding)
    requires Shape(w) && Owned(w) && Ordered(w.q.ready) && Counted(w.held, w.q.ready) && h in w.held
    ensures Counted(w.held - {h}, Unlink(w.q, h.buf).0.ready)
  {
    FoundIsHeld(w, h);
    CountedRelease(w.held, w.q.ready, First(Carries(h.buf), w.q.ready), h);
  }

  lemma CountedMalloc(w: World, alloc: Option<Buffer>)
    requires Shape(w) && Counted(w.held, w.q.ready)
    ensures Counted(w.held, Malloc(w.q, alloc).q.ready)
  {
    if StolenBy(w.q) != {} {
      CountedRemove(w.held, w.q.ready, First(Unheld, w.q.ready));
    }
  }

  lemma CountedComplete(w: World, b: Buffer)
    requires Shape(w) && Counted(w.held, w.q.ready)
    ensures Counted(w.held, Complete(w.q, b, w.clock).q.ready)
  {
    var i := First(LentOut(b), w.q.free);
    if i < |w.q.free| {
      assert FreeOk(w.q.free[i]);
      CountedAppend(w.held, w.q.ready, Complete(w.q, b, w.clock).q.ready[|w.q.ready|]);
    }
  }

  lemma CountedStep(w: World, e: Event)
    requires Shape(w) && Owned(w) && Dated(w) && Counted(w.held, w.q.ready) && Can(w, e)
    ensures var w' := Do(w, e); Counted(w'.held, w'.q.ready)
  {
    match e
    case RegisterEvent(c) => CountedSweep(w.held, RegisterSweep, w.q.ready);
    case UnregisterEvent(c) => CountedSweep(w.held, UnregisterSweep(c), w.q.ready);
    case ClearReadyEvent => CountedSweep(w.held, ClearSweep, w.q.ready);
    case MallocEvent(alloc) => CountedMalloc(w, alloc);
    case CompleteEvent(b) => CountedComplete(w, b);
    case GetEvent(c) => CountedGet(w, c);
    case UnlinkEvent(h) => CountedUnlink(w, h);
    case _ =>
  }
}
