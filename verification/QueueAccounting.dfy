/** The statistics counters agree with what happened to the frames. */
module QueueAccounting {
  import opened Wrappers
  import opened QueueSpec
  import opened QueueLists
  import opened QueueWorld
  import opened QueueInvariants

  ghost function Fated(fate: map<nat, Fate>, f: Fate): set<nat> {
    set t | t in fate && fate[t] == f
  }

  /** What the three counters count. */
  ghost predicate Accounted(w: World) {
    && w.q.totalComplete == w.clock
    && w.q.totalMalloc == w.q.totalComplete + w.cancels + Lent(w.q.free) + w.abandoned
    && w.q.totalFree + |w.limbo| ==
         |Fated(w.fate, Released)| + |Fated(w.fate, Recycled)| + w.cancels + w.inherited
  }

  /** The nodes of the queue, wherever they are. */
  function Nodes(w: World): nat {
    |w.q.free| + |w.q.ready| + |w.limbo|
  }

  lemma FatedRetire(fate: map<nat, Fate>, stamps: set<nat>, f: Fate, g: Fate)
    requires stamps !! fate.Keys
    ensures |Fated(Retire(fate, stamps, f), g)| == |Fated(fate, g)| + if f == g then |stamps| else 0
  {
    var r := Retire(fate, stamps, f);
    if f == g {
      assert Fated(r, g) == Fated(fate, g) + stamps;
      assert Fated(fate, g) !! stamps;
    } else {
      assert Fated(r, g) == Fated(fate, g);
    }
  }

  /** A sweep retires as many frames as nodes, and none is in a producer's hands. */
  lemma {:induction false} GoneSize(op: Sweep, s: seq<Slot>)
    requires Ordered(s)
    ensures |Stamps(Gone(op, s))| == |Gone(op, s)|
    ensures Lent(Gone(op, s)) == 0
  {
    if s != [] {
      var t, x := s[..|s| - 1], s[|s| - 1];
      assert s == t + [x];
      GoneSize(op, t);
      SweepStep(op, t, x);
      if Goes(op, x) {
        var y := Touch(op, x).Reset();
        CountSnoc(Idle, Gone(op, t), y);
        assert Stamps(Gone(op, t) + [y]) == Stamps(Gone(op, t)) + {x.stamp};
        SweepStamps(op, t);
        assert x.stamp !in Stamps(t);
      }
    }
  }

  lemma AccountedSweep(w: World, op: Sweep, f: Fate)
    requires Shape(w) && Dated(w)
    ensures Lent(w.q.free + Gone(op, w.q.ready)) == Lent(w.q.free)
    ensures |Kept(op, w.q.ready)| + |Gone(op, w.q.ready)| == |w.q.ready|
    ensures forall g :: |Fated(Retire(w.fate, Stamps(Gone(op, w.q.ready)), f), g)|
              == |Fated(w.fate, g)| + if f == g then |Gone(op, w.q.ready)| else 0
  {
    GoneSize(op, w.q.ready);
    SweepLength(op, w.q.ready);
    CountConcat(Idle, w.q.free, Gone(op, w.q.ready));
    SweepStamps(op, w.q.ready);
    forall g ensures |Fated(Retire(w.fate, Stamps(Gone(op, w.q.ready)), f), g)|
              == |Fated(w.fate, g)| + if f == g then |Gone(op, w.q.ready)| else 0 {
      FatedRetire(w.fate, Stamps(Gone(op, w.q.ready)), f, g);
    }
  }

  lemma LentSelect(q: Queue)
    requires forall s :: s in q.ready ==> !s.inUse
    ensures Select(q).Some? ==>
      var (q1, i) := Select(q).value;
      && Lent(q1.free) == Lent(q.free) + 1 && |q1.free| + |q1.ready| == |q.free| + |q.ready|
      && q1.free[i].inUse && q1.totalMalloc == q.totalMalloc
      && q1.totalComplete == q.totalComplete && q1.totalFree == q.totalFree
  {
    var i := First(Idle, q.free);
    if i < |q.free| {
      CountUpdate(Idle, q.free, i, q.free[i].(inUse := true));
    } else if Select(q).Some? {
      var s := q.ready[First(Unheld, q.ready)].(inUse := true);
      CountConcat(Idle, [s], q.free);
      CountOne(Idle, s);
    }
  }

  lemma LentFill(q: Queue, i: nat, alloc: Option<Buffer>)
    requires i < |q.free| && q.free[i].inUse
    ensures var x := Fill(q, i, alloc);
      && Lent(x.q.free) + (if x.ok then 0 else 1) == Lent(q.free)
      && |x.q.free| == |q.free| && x.q.ready == q.ready
      && x.q.totalMalloc == q.totalMalloc + (if x.ok then 1 else 0)
      && x.q.totalComplete == q.totalComplete && x.q.totalFree == q.totalFree
  {
    CountUpdate(Idle, q.free, i, Fill(q, i, alloc).q.free[i]);
  }

  lemma LentMalloc(q: Queue, alloc: Option<Buffer>)
    requires forall s :: s in q.ready ==> !s.inUse
    ensures var x := Malloc(q, alloc);
      && Lent(x.q.free) == Lent(q.free) + (if x.ok then 1 else 0)
      && |x.q.free| + |x.q.ready| == |q.free| + |q.ready|
      && x.q.totalMalloc == q.totalMalloc + (if x.ok then 1 else 0)
      && x.q.totalComplete == q.totalComplete && x.q.totalFree == q.totalFree
  {
    LentSelect(q);
    if Select(q).Some? {
      LentFill(Select(q).value.0, Select(q).value.1, alloc);
    }
  }

  lemma AccountedMalloc(w: World, alloc: Option<Buffer>)
    requires Shape(w) && Dated(w) && Accounted(w) && Can(w, MallocEvent(alloc))
    ensures var w' := Do(w, MallocEvent(alloc)); Accounted(w') && Nodes(w') == Nodes(w)
  {
    FatedRetire(w.fate, StolenBy(w.q), Stolen, Released);
    FatedRetire(w.fate, StolenBy(w.q), Stolen, Recycled);
    assert StolenBy(w.q) <= Stamps(w.q.ready);
    LentMalloc(w.q, alloc);
  }

  lemma AccountedComplete(w: World, b: Buffer)
    requires Shape(w) && Accounted(w)
    ensures var w' := Do(w, CompleteEvent(b)); Accounted(w') && Nodes(w') == Nodes(w)
  {
    var i := First(LentOut(b), w.q.free);
    if i < |w.q.free| {
      CountRemove(Idle, w.q.free, i);
    }
  }

  lemma AccountedCancel(w: World, b: Buffer)
    requires Shape(w) && Accounted(w)
    ensures var w' := Do(w, CancelEvent(b)); Accounted(w') && Nodes(w') == Nodes(w)
  {
    var i := First(LentOut(b), w.q.free);
    if i < |w.q.free| {
      CountUpdate(Idle, w.q.free, i, Do(w, CancelEvent(b)).q.free[i]);
    }
  }

  lemma AccountedClear(w: World)
    requires Shape(w) && Accounted(w)
    ensures var w' := Do(w, ClearFreeEvent); Accounted(w') && Nodes(w') == Nodes(w)
  {
    CountBound(Idle, Emptied(w.q.free));
  }

  lemma AccountedGet(w: World, c: Consumer)
    requires Shape(w) && Accounted(w)
    ensures var w' := Do(w, GetEvent(c)); Accounted(w') && Nodes(w') == Nodes(w)
  {
  }

  lemma AccountedUnlink(w: World, h: Holding)
    requires Shape(w) && Dated(w) && Accounted(w) && Can(w, UnlinkEvent(h))
    ensures var w' := Do(w, UnlinkEvent(h)); Accounted(w') && Nodes(w') == Nodes(w)
  {
    var i := First(Carries(h.buf), w.q.ready);
    if i < |w.q.ready| {
      var t := w.q.ready[i].stamp;
      assert w.q.ready[i] in w.q.ready;
      assert t in Stamps(w.q.ready);
      FatedRetire(w.fate, {t}, Released, Released);
      FatedRetire(w.fate, {t}, Released, Recycled);
    }
  }

  lemma AccountedReclaim(w: World, i: nat)
    requires Accounted(w) && Sized(w) && i < |w.limbo|
    ensures var w' := Do(w, ReclaimEvent(i)); Accounted(w') && Nodes(w') == Nodes(w)
  {
    CountSnoc(Idle, w.q.free, Reclaim(w.q, w.limbo[i]).q.free[|w.q.free|]);
  }

  lemma AccountedStep(w: World, e: Event)
    requires Shape(w) && Dated(w) && Accounted(w) && Can(w, e)
    ensures Accounted(Do(w, e)) && Nodes(Do(w, e)) == Nodes(w)
  {
    match e
    case RegisterEvent(c) => AccountedSweep(w, RegisterSweep, Cleaned);
    case UnregisterEvent(c) => AccountedSweep(w, UnregisterSweep(c), Recycled);
    case ClearReadyEvent => AccountedSweep(w, ClearSweep, Cleared);
    case ClearFreeEvent => AccountedClear(w);
    case MallocEvent(alloc) => AccountedMalloc(w, alloc);
    case CompleteEvent(b) => AccountedComplete(w, b);
    case CancelEvent(b) => AccountedCancel(w, b);
    case GetEvent(c) => AccountedGet(w, c);
    case UnlinkEvent(h) => AccountedUnlink(w, h);
    case ReclaimEvent(i) => AccountedReclaim(w, i);
  }
}
