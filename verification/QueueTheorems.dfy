/** What the frame queue promises, over every run. */
module QueueTheorems {
  import opened Wrappers
  import opened QueueSpec
  import opened QueueLists
  import opened QueueLedger
  import opened QueueWorld
  import opened QueueInvariants
  import opened QueueHistories
  import opened QueueAccounting

  ghost predicate Inv(w: World) {
    && Shape(w) && Owned(w) && Dated(w) && Counted(w.held, w.q.ready) && Histories(w) && Accounted(w)
  }

  lemma StepInv(w: World, e: Event)
    requires Inv(w) && Can(w, e)
    ensures Inv(Do(w, e)) && Nodes(Do(w, e)) == Nodes(w)
  {
    ShapeStep(w, e);
    OwnedStep(w, e);
    DatedStep(w, e);
    CountedStep(w, e);
    HistoriesStep(w, e);
    AccountedStep(w, e);
  }

  lemma InheritedKept(w: World, e: Event)
    requires Sized(w) && Can(w, e)
    ensures Do(w, e).inherited == w.inherited
  {
  }

  lemma {:induction false} RunInv(w: World, es: seq<Event>)
    requires Inv(w) && CanRun(w, es)
    ensures Inv(Run(w, es)) && Nodes(Run(w, es)) == Nodes(w) && Run(w, es).inherited == w.inherited
    decreases |es|
  {
    if es != [] {
      StepInv(w, es[0]);
      InheritedKept(w, es[0]);
      RunInv(Do(w, es[0]), es[1..]);
    }
  }

  /** The worlds some run reaches from an init, the first or a later one. */
  ghost predicate Reaches(o: Origin, es: seq<Event>, w: World) {
    Possible(o) && CanRun(Start(o), es) && w == Run(Start(o), es)
  }

  lemma LeftOwned(o: Origin, w: World, b: Buffer)
    requires Inv(w) && multiset(Left(o)) <= multiset(w.limbo)
    ensures Owners(Start(o), b) == if b in Start(o).live then 1 else 0
  {
    CountPositive(Carries(b), Start(o).q.free);
    CountWithin(Carries(b), Left(o), w.limbo);
    FramesCount(b, Left(o));
    assert Owners(w, b) <= 1;
  }

  lemma LeftInv(o: Origin, w: World)
    requires Inv(w) && multiset(Left(o)) <= multiset(w.limbo)
    ensures Inv(Start(o))
  {
    forall b ensures Owners(Start(o), b) == if b in Start(o).live then 1 else 0 {
      LeftOwned(o, w, b);
    }
    forall s | s in Left(o) ensures LimboOk(s) {
      assert s in multiset(Left(o)) && s in multiset(w.limbo);
    }
    CountBound(Idle, Start(o).q.free);
    assert Fated(map[], Released) == {} && Fated(map[], Recycled) == {};
  }

  lemma BootInv(o: Origin)
    requires o.Boot?
    ensures Inv(Start(o))
  {
    var w := Start(o);
    forall b ensures Owners(w, b) == 0 {
      CountPositive(Carries(b), w.q.free);
    }
    CountBound(Idle, w.q.free);
    assert Fated(w.fate, Released) == {} && Fated(w.fate, Recycled) == {};
  }

  /** The invariant holds from the first init on, and again from every later one. */
  lemma {:induction false} ReachInv(o: Origin, es: seq<Event>, w: World)
    requires Reaches(o, es, w)
    ensures Inv(w) && Nodes(w) == o.nodes + |Left(o)| && w.inherited == |Left(o)|
    decreases o
  {
    if o.Boot? {
      BootInv(o);
    } else {
      var v := Run(Start(o.before), o.run);
      ReachInv(o.before, o.run, v);
      LeftInv(o, v);
    }
    RunInv(Start(o), es);
  }

  // ----- delivery -----

  /** The frames that await consumer c, in the order it will be given them. */
  function Awaited(ready: seq<Slot>, c: Consumer): seq<nat> {
    if ready == [] then [] else
      var n := |ready| - 1;
      Awaited(ready[..n], c) + if ready[n].Pending(c) then [ready[n].stamp] else []
  }

  lemma {:induction false} AwaitedAre(ready: seq<Slot>, c: Consumer, t: nat)
    ensures t in Awaited(ready, c) <==> Awaits(ready, c, t)
  {
    if ready != [] {
      var n := |ready| - 1;
      AwaitedAre(ready[..n], c, t);
      assert ready == ready[..n] + [ready[n]];
    }
  }

  lemma {:induction false} AwaitedIncreasing(ready: seq<Slot>, c: Consumer)
    requires Ordered(ready)
    ensures Increasing(Awaited(ready, c))
  {
    if ready != [] {
      var n := |ready| - 1;
      AwaitedIncreasing(ready[..n], c);
      var a := Awaited(ready[..n], c);
      forall i | 0 <= i < |a| ensures a[i] < ready[n].stamp {
        AwaitedAre(ready[..n], c, a[i]);
      }
    }
  }

  /** All frames completed from number lo up to number hi. */
  function Range(lo: nat, hi: nat): (r: seq<nat>)
    requires lo <= hi
  {
    seq(hi - lo, i => lo + i)
  }

  lemma HeadIsMember(s: seq<nat>)
    ensures s == [] || s[0] in s
  {
  }

  /** An increasing sequence is determined by its members. */
  lemma {:induction false} IncreasingIsRange(s: seq<nat>, lo: nat, hi: nat)
    requires lo <= hi && Increasing(s)
    requires forall t: nat :: t in s <==> lo <= t < hi
    ensures s == Range(lo, hi)
    decreases hi
  {
    if lo == hi {
      HeadIsMember(s);
    } else {
      var n := |s| - 1;
      assert hi - 1 in s;
      assert s[n] in s;
      var k :| 0 <= k < |s| && s[k] == hi - 1;
      assert k == n;
      var p := s[..n];
      assert s == p + [s[n]];
      forall t: nat ensures t in p <==> lo <= t < hi - 1 {
        assert t in s <==> lo <= t < hi;
        if t in p {
          var j :| 0 <= j < n && p[j] == t;
          assert s[j] < s[n];
        }
      }
      IncreasingIsRange(p, lo, hi - 1);
    }
  }

  /** What consumer c received since it last became active, and what awaits it. */
  ghost function Delivered(w: World, c: Consumer): seq<nat>
    requires Sized(w) && w.base[c] <= |w.got[c]|
  {
    w.got[c][w.base[c]..] + Awaited(w.q.ready, c)
  }

  lemma DeliveredMembers(w: World, c: Consumer, t: nat)
    requires Inv(w) && c in w.q.active
    ensures w.base[c] <= |w.got[c]|
    ensures t in Delivered(w, c) ==> w.joined[c] <= t < w.clock
    ensures w.joined[c] <= t < w.clock ==> t in Delivered(w, c) || Lost(w.fate, t)
  {
    assert Covered(w, c) && Logged(w, c);
    AwaitedAre(w.q.ready, c, t);
    var g := w.got[c];
    if t in g[w.base[c]..] {
      var k :| 0 <= k < |g| - w.base[c] && g[w.base[c]..][k] == t;
      assert g[w.base[c] + k] == t;
    }
    if Awaits(w.q.ready, c, t) {
      var s :| s in w.q.ready && s.Pending(c) && s.stamp == t;
      assert ReadyOk(s, w.q.active, w.clock, w.idle);
    }
    if t in g && w.joined[c] <= t {
      var k :| 0 <= k < |g| && g[k] == t;
      assert g[w.base[c]..][k - w.base[c]] == t;
    }
  }

  lemma DeliveredIncreasing(w: World, c: Consumer)
    requires Inv(w) && c in w.q.active && w.base[c] <= |w.got[c]|
    ensures Increasing(Delivered(w, c))
  {
    assert Logged(w, c);
    var g, a := w.got[c][w.base[c]..], Awaited(w.q.ready, c);
    AwaitedIncreasing(w.q.ready, c);
    forall i, j | 0 <= i < |g| && 0 <= j < |a| ensures g[i] < a[j] {
      AwaitedAre(w.q.ready, c, a[j]);
      assert g[i] == w.got[c][w.base[c] + i];
      assert g[i] in w.got[c];
    }
  }

  /** Delivery, for every format and every run: a consumer is given frames in
      completion order, none twice and none from before it joined, and a frame it
      is never given was taken by malloc or by clear_all. */
  lemma OrderedDelivery(o: Origin, es: seq<Event>, w: World, c: Consumer)
    requires Reaches(o, es, w)
    ensures Sized(w) && Increasing(w.got[c])
    ensures c in w.q.active ==>
      && w.base[c] <= |w.got[c]|
      && Increasing(Delivered(w, c))
      && (forall t :: t in Delivered(w, c) ==> w.joined[c] <= t < w.clock)
      && (forall t: nat :: w.joined[c] <= t < w.clock && t !in Delivered(w, c) ==> Lost(w.fate, t))
  {
    ReachInv(o, es, w);
    assert Logged(w, c);
    if c in w.q.active {
      forall t: nat
        ensures w.base[c] <= |w.got[c]|
        ensures t in Delivered(w, c) ==> w.joined[c] <= t < w.clock
        ensures w.joined[c] <= t < w.clock ==> t in Delivered(w, c) || Lost(w.fate, t)
      {
        DeliveredMembers(w, c, t);
      }
      DeliveredIncreasing(w, c);
    }
  }

  /** Neither malloc nor clear_all has taken a frame from the consumers. */
  ghost predicate Lossless(w: World) {
    forall t :: t in w.fate ==> !Lost(w.fate, t)
  }

  lemma LosslessStep(w: World, e: Event)
    requires Sized(w) && Can(w, e) && Lossless(w) && w.q.format == H264 && e != ClearReadyEvent
    ensures var w' := Do(w, e); Lossless(w') && w'.q.format == H264
  {
  }

  lemma {:induction false} LosslessRun(w: World, es: seq<Event>)
    requires Sized(w) && CanRun(w, es) && Lossless(w) && w.q.format == H264 && ClearReadyEvent !in es
    ensures Lossless(Run(w, es))
    decreases |es|
  {
    if es != [] {
      LosslessStep(w, es[0]);
      LosslessRun(Do(w, es[0]), es[1..]);
    }
  }

  /** H264 delivery is lossless FIFO: whatever the other consumers and the producers
      do, what an active consumer received followed by what awaits it is every frame
      completed since it joined, in order. */
  lemma LosslessFifo(o: Origin, es: seq<Event>, w: World, c: Consumer)
    requires Reaches(o, es, w) && FormatOf(o) == H264 && ClearReadyEvent !in es && c in w.q.active
    ensures Sized(w) && w.base[c] <= |w.got[c]| && w.joined[c] <= w.clock
    ensures Delivered(w, c) == Range(w.joined[c], w.clock)
  {
    ReachInv(o, es, w);
    LosslessRun(Start(o), es);
    OrderedDelivery(o, es, w, c);
    assert Covered(w, c);
    forall t: nat ensures t in Delivered(w, c) <==> w.joined[c] <= t < w.clock {
      assert !Lost(w.fate, t);
    }
    IncreasingIsRange(Delivered(w, c), w.joined[c], w.clock);
  }

  /** Without clear_all, every frame a consumer stays without was stolen by malloc. */
  ghost predicate NeverCleared(w: World) {
    forall t :: t in w.fate ==> w.fate[t] != Cleared
  }

  lemma NeverClearedStep(w: World, e: Event)
    requires Sized(w) && Can(w, e) && NeverCleared(w) && e != ClearReadyEvent
    ensures NeverCleared(Do(w, e))
  {
  }

  lemma {:induction false} NeverClearedRun(w: World, es: seq<Event>)
    requires Sized(w) && CanRun(w, es) && NeverCleared(w) && ClearReadyEvent !in es
    ensures NeverCleared(Run(w, es))
    decreases |es|
  {
    if es != [] {
      assert es[0] != ClearReadyEvent;
      NeverClearedStep(w, es[0]);
      NeverClearedRun(Do(w, es[0]), es[1..]);
    }
  }

  lemma StolenIndex(q: Queue, t: nat)
    requires t in StolenBy(q)
    ensures q.format != H264 && (forall s :: s in q.free ==> s.inUse)
    ensures var j := First(Unheld, q.ready);
      j < |q.ready| && q.ready[j].stamp == t && q.ready[j].refCount == 0 && q.ready[j] in q.ready
  {
  }

  /** The nodes before the first one nobody holds are older than it, and held. */
  lemma HeldBefore(held: set<Holding>, ready: seq<Slot>, j: nat)
    requires Counted(held, ready) && Ordered(ready) && j == First(Unheld, ready) < |ready|
    ensures Holders(held, ready[j].stamp) == {}
    ensures forall u :: u in Stamps(ready) && u < ready[j].stamp ==> Holders(held, u) != {}
  {
    assert ready[j] in ready;
    forall u | u in Stamps(ready) && u < ready[j].stamp ensures Holders(held, u) != {} {
      var s :| s in ready && s.stamp == u;
      var k :| 0 <= k < |ready| && ready[k] == s;
      assert k < j;
    }
  }

  lemma {:induction false} FormatRun(w: World, es: seq<Event>)
    requires Sized(w) && CanRun(w, es)
    ensures Run(w, es).q.format == w.q.format
    decreases |es|
  {
    if es != [] {
      assert Do(w, es[0]).q.format == w.q.format;
      FormatRun(Do(w, es[0]), es[1..]);
    }
  }

  /** malloc steals only when every free node is a producer's, and then the oldest
      frame no consumer holds: whatever is older is held. */
  lemma StolenIsOldest(o: Origin, es: seq<Event>, w: World, t: nat)
    requires Reaches(o, es, w) && t in StolenBy(w.q)
    ensures FormatOf(o) != H264
    ensures forall s :: s in w.q.free ==> s.inUse
    ensures t in Stamps(w.q.ready) && Holders(w.held, t) == {}
    ensures forall u :: u in Stamps(w.q.ready) && u < t ==> Holders(w.held, u) != {}
  {
    ReachInv(o, es, w);
    FormatRun(Start(o), es);
    StolenIndex(w.q, t);
    var j := First(Unheld, w.q.ready);
    HeldBefore(w.held, w.q.ready, j);
  }

  lemma {:induction false} RunSnoc(w: World, es: seq<Event>, e: Event)
    requires Sized(w) && CanRun(w, es + [e])
    ensures CanRun(w, es) && Can(Run(w, es), e) && Run(w, es + [e]) == Do(Run(w, es), e)
    decreases |es|
  {
    if es == [] {
      assert (es + [e])[0] == e && (es + [e])[1..] == [];
    } else {
      assert (es + [e])[0] == es[0] && (es + [e])[1..] == es[1..] + [e];
      RunSnoc(Do(w, es[0]), es[1..], e);
    }
  }

  lemma StolenNow(v: World, e: Event, t: nat)
    requires Sized(v) && Can(v, e) && !(t in v.fate && v.fate[t] == Stolen)
    requires t in Do(v, e).fate && Do(v, e).fate[t] == Stolen
    ensures e.MallocEvent? && t in StolenBy(v.q)
  {
  }

  /** A frame whose fate is Stolen was taken by a malloc of the run. */
  lemma {:induction false} StolenByMalloc(w: World, es: seq<Event>, t: nat) returns (i: nat)
    requires Sized(w) && CanRun(w, es) && t !in w.fate
    requires t in Run(w, es).fate && Run(w, es).fate[t] == Stolen
    ensures i < |es| && es[i].MallocEvent? && CanRun(w, es[..i]) && t in StolenBy(Run(w, es[..i]).q)
    decreases |es|
  {
    var p, e := es[..|es| - 1], es[|es| - 1];
    assert es == p + [e];
    RunSnoc(w, p, e);
    var v := Run(w, p);
    if t in v.fate && v.fate[t] == Stolen {
      i := StolenByMalloc(w, p, t);
      assert p[..i] == es[..i];
    } else {
      StolenNow(v, e, t);
      i := |p|;
    }
  }

  /** At some point of the run a malloc took frame t, which nobody held, when every free
      node was a producer's and every older ready frame was held. */
  ghost predicate TakenByMalloc(o: Origin, es: seq<Event>, t: nat, i: nat) {
    && i < |es| && es[i].MallocEvent? && CanRun(Start(o), es[..i])
    && var v := Run(Start(o), es[..i]);
       && FormatOf(o) != H264 && (forall s :: s in v.q.free ==> s.inUse)
       && t in Stamps(v.q.ready) && Holders(v.held, t) == {}
       && (forall u :: u in Stamps(v.q.ready) && u < t ==> Holders(v.held, u) != {})
       && Can(v, es[i]) && t !in Stamps(Do(v, es[i]).q.ready)
  }

  lemma {:induction false} PrefixCanStep(w: World, es: seq<Event>, i: nat)
    requires Sized(w) && CanRun(w, es) && i < |es|
    ensures CanRun(w, es[..i]) && Can(Run(w, es[..i]), es[i])
    decreases |es|
  {
    var p := es[..|es| - 1];
    assert es == p + [es[|es| - 1]];
    RunSnoc(w, p, es[|es| - 1]);
    if i < |p| {
      PrefixCanStep(w, p, i);
      assert p[..i] == es[..i];
    }
  }

  /** The frame malloc takes is no longer ready. */
  lemma StolenLeaves(o: Origin, es: seq<Event>, v: World, e: Event, t: nat)
    requires Reaches(o, es, v) && Can(v, e) && e.MallocEvent? && t in StolenBy(v.q)
    ensures t !in Stamps(Do(v, e).q.ready)
  {
    ReachInv(o, es, v);
    StepInv(v, e);
    assert t in Do(v, e).fate;
  }

  /** Without clear_all, every frame an active consumer goes without was taken by a malloc,
      as the oldest ready frame nobody held. */
  lemma SkippedWereStolen(o: Origin, es: seq<Event>, w: World, c: Consumer, t: nat)
    requires Reaches(o, es, w) && ClearReadyEvent !in es && c in w.q.active
    ensures Sized(w) && w.base[c] <= |w.got[c]|
    ensures w.joined[c] <= t < w.clock && t !in Delivered(w, c) ==>
      exists i :: TakenByMalloc(o, es, t, i)
  {
    OrderedDelivery(o, es, w, c);
    NeverClearedRun(Start(o), es);
    if w.joined[c] <= t < w.clock && t !in Delivered(w, c) {
      var i := StolenByMalloc(Start(o), es, t);
      var v := Run(Start(o), es[..i]);
      StolenIsOldest(o, es[..i], v, t);
      PrefixCanStep(Start(o), es, i);
      StolenLeaves(o, es[..i], v, es[i], t);
      assert TakenByMalloc(o, es, t, i);
    }
  }

  // ----- held frames -----

  lemma HeldNode(w: World, h: Holding)
    requires Inv(w) && h in w.held
    ensures exists s :: s in w.q.ready && s.stamp == h.stamp && s.frame == Some(h.buf) && s.refCount > 0 && !s.inUse
    ensures h.buf in w.live
  {
    var k := HolderSlot(w.held, w.q.ready, h);
    assert ReadyOk(w.q.ready[k], w.q.active, w.clock, w.idle);
    CountPositive(Carries(h.buf), w.q.ready);
    assert Owners(w, h.buf) == if h.buf in w.live then 1 else 0;
  }

  /** A held buffer is in no node of the free list. */
  lemma MallocGivesOther(w: World, h: Holding)
    requires Inv(w) && h in w.held
    ensures forall s :: s in w.q.free ==> s.frame != Some(h.buf)
  {
    var k := HolderSlot(w.held, w.q.ready, h);
    CountPositive(Carries(h.buf), w.q.ready);
    CountPositive(Carries(h.buf), w.q.free);
    assert Owners(w, h.buf) <= 1;
  }

  lemma HeldSurvives(w: World, e: Event, h: Holding)
    requires Sized(w) && Can(w, e) && h in w.held && e != UnlinkEvent(h)
    ensures h in Do(w, e).held
  {
  }

  /** The frame malloc returns is in a node marked as a producer's. */
  lemma MallocResult(q: Queue, alloc: Option<Buffer>)
    ensures var x := Malloc(q, alloc);
      && (x.ok <==> x.frame.Some?)
      && (x.ok ==> exists s :: s in x.q.free && s.inUse && s.frame == x.frame)
  {
    var x := Malloc(q, alloc);
    if x.ok {
      var i := Select(q).value.1;
      assert x.q.free[i] in x.q.free;
    }
  }

  /** No step but its own release takes a frame from its holder: the buffer stays
      live, in a ready node with a positive count, and malloc gives it to nobody. */
  lemma HeldIsSafe(o: Origin, es: seq<Event>, w: World, e: Event, h: Holding)
    requires Reaches(o, es, w) && Can(w, e) && h in w.held && e != UnlinkEvent(h)
    ensures var w' := Do(w, e);
      && h in w'.held && h.buf in w'.live && h.buf !in Perform(w, e).freed
      && (exists s :: s in w'.q.ready && s.stamp == h.stamp && s.frame == Some(h.buf) && s.refCount > 0 && !s.inUse)
      && (e.MallocEvent? ==> Perform(w, e).frame != Some(h.buf))
  {
    ReachInv(o, es, w);
    StepInv(w, e);
    HeldSurvives(w, e, h);
    HeldNode(Do(w, e), h);
    OwnedStep(w, e);
    LedgerStep(w, e);
    if e.MallocEvent? {
      MallocResult(w.q, e.alloc);
      MallocGivesOther(Do(w, e), h);
    }
  }

  /** Counts, masks and holders agree: a frame nobody holds is awaited by an active
      consumer, unless it was completed while there was none. */
  lemma NoStuckFrames(o: Origin, es: seq<Event>, w: World, s: Slot)
    requires Reaches(o, es, w) && s in w.q.ready
    ensures s.accessed <= s.mask && s.mask - s.accessed <= w.q.active
    ensures s.refCount == |Holders(w.held, s.stamp)| <= |s.accessed|
    ensures s.refCount == 0 ==> (exists c :: c in w.q.active && s.Pending(c)) || (s.mask == {} && w.q.active == {})
    ensures s.mask == {} ==> w.q.active == {} && s.refCount == 0
  {
    ReachInv(o, es, w);
    assert ReadyOk(s, w.q.active, w.clock, w.idle);
    if s.refCount == 0 && s.mask != {} {
      var c :| c in s.mask && c !in s.accessed;
      assert s.Pending(c) && c in s.mask - s.accessed;
    }
  }

  lemma UnclaimedFrame(w: World, s: Slot)
    requires Inv(w) && s in w.q.ready && w.q.active == {} && w.held == {}
    ensures s.mask == {} && w.idle <= s.stamp < w.clock
  {
    assert ReadyOk(s, w.q.active, w.clock, w.idle);
    assert Holders(w.held, s.stamp) == {};
    assert s.mask - s.accessed == {};
  }

  /** Once every consumer has left and released what it held, and nothing was
      completed since the last one left, the ready list is empty. */
  lemma AllDrained(o: Origin, es: seq<Event>, w: World)
    requires Reaches(o, es, w) && w.q.active == {} && w.held == {} && w.idle == w.clock
    ensures w.q.ready == []
  {
    ReachInv(o, es, w);
    if w.q.ready != [] {
      UnclaimedFrame(w, w.q.ready[0]);
    }
  }

  // ----- malloc -----

  /** malloc finds no node exactly when every node is a producer's or, unless the
      format is H264, held by a consumer. */
  lemma SelectFails(q: Queue)
    ensures Select(q).None? <==>
      (forall s :: s in q.free ==> s.inUse) && (q.format == H264 || forall s :: s in q.ready ==> s.refCount > 0)
  {
    var i, j := First(Idle, q.free), First(Unheld, q.ready);
    assert i < |q.free| ==> q.free[i] in q.free;
    assert j < |q.ready| ==> q.ready[j] in q.ready;
  }

  lemma ReplacedOne<T>(a: seq<T>, r: seq<T>, i: nat, x: T)
    requires i < |a|
    ensures multiset(a[i := x] + r) == multiset(a + r) - multiset{a[i]} + multiset{x}
  {
    assert (a + r)[i := x] == a[i := x] + r;
  }

  lemma MovedOne<T>(a: seq<T>, r: seq<T>, j: nat, x: T)
    requires j < |r|
    ensures multiset(([x] + a) + (r[..j] + r[j + 1..])) == multiset(a + r) - multiset{r[j]} + multiset{x}
  {
    assert r == r[..j] + [r[j]] + r[j + 1..];
  }

  /** malloc marks one node that no producer occupies, or that no consumer holds; all other
      nodes stay what they are. */
  lemma SelectMarksOne(q: Queue) returns (s: Slot)
    requires Select(q).Some?
    ensures var (q', k) := Select(q).value;
      && q'.free[k] == s.(inUse := true)
      && ((s in q.free && !s.inUse) || (s in q.ready && s.refCount == 0))
      && multiset(q'.free + q'.ready) == multiset(q.free + q.ready) - multiset{s} + multiset{s.(inUse := true)}
  {
    var i, j := First(Idle, q.free), First(Unheld, q.ready);
    if i < |q.free| {
      s := q.free[i];
      ReplacedOne(q.free, q.ready, i, s.(inUse := true));
    } else {
      s := q.ready[j];
      MovedOne(q.free, q.ready, j, s.(inUse := true));
    }
  }

  /** Held frames are different frames. */
  lemma {:induction false} HeldNodes(held: set<Holding>, ready: seq<Slot>)
    requires Ordered(ready)
    requires forall s :: s in ready ==> Holders(held, s.stamp) != {}
    ensures |ready| <= |held|
  {
    if ready != [] {
      var r, s := ready[..|ready| - 1], ready[|ready| - 1];
      var h :| h in Holders(held, s.stamp);
      forall x | x in r ensures Holders(held - {h}, x.stamp) != {} {
        var k :| 0 <= k < |r| && r[k] == x;
        assert x.stamp < s.stamp && x in ready;
        var g :| g in Holders(held, x.stamp);
        assert g in Holders(held - {h}, x.stamp);
      }
      HeldNodes(held - {h}, r);
    }
  }

  /** A slow consumer cannot starve a producer: while producers and consumers hold
      fewer frames than there are nodes, malloc of MJPEG or YUV finds a node. */
  lemma NoStarvation(o: Origin, es: seq<Event>, w: World, alloc: Option<Buffer>)
    requires Reaches(o, es, w) && FormatOf(o) != H264
    requires Lent(w.q.free) + |w.limbo| + |w.held| < o.nodes + |Left(o)|
    ensures Select(w.q).Some?
    ensures alloc.Some? ==> Malloc(w.q, alloc).ok
  {
    ReachInv(o, es, w);
    FormatRun(Start(o), es);
    SelectFails(w.q);
    if Select(w.q).None? {
      CountPositive(Idle, w.q.free);
      forall s | s in w.q.ready ensures Holders(w.held, s.stamp) != {} {
        assert s.refCount > 0;
      }
      HeldNodes(w.held, w.q.ready);
    }
  }

  // ----- buffers -----

  /** The allocator's live buffers are exactly those of the nodes, each in one node. */
  lemma BuffersConserved(o: Origin, es: seq<Event>, w: World, e: Event)
    requires Reaches(o, es, w) && Can(w, e)
    ensures forall b :: Owners(w, b) == if b in w.live then 1 else 0
    ensures forall b :: b in Perform(w, e).freed ==> b in w.live && multiset(Perform(w, e).freed)[b] == 1
    ensures Nodes(w) == o.nodes + |Left(o)|
  {
    ReachInv(o, es, w);
    OwnedStep(w, e);
  }

  lemma DeinitBooks(w: World, b: Buffer)
    requires Inv(w)
    ensures multiset(Deinit(w.q).freed)[b] + Count(Carries(b), w.limbo) == if b in w.live then 1 else 0
    ensures b in Deinit(w.q).freed <==> b in w.live && Count(Carries(b), w.limbo) == 0
  {
    DeinitBalance(b, w.q);
    assert Owners(w, b) == if b in w.live then 1 else 0;
    assert b in multiset(Deinit(w.q).freed) <==> b in Deinit(w.q).freed;
  }

  lemma LimboCarries(w: World) returns (b: Buffer)
    requires Shape(w) && w.limbo != []
    ensures Count(Carries(b), w.limbo) > 0
  {
    assert LimboOk(w.limbo[0]);
    b := w.limbo[0].frame.value;
    assert w.limbo[0] in w.limbo && Matches(Carries(b), w.limbo[0]);
    CountPositive(Carries(b), w.limbo);
  }

  /** deinit gives back every live buffer once, but those of half-done releases; so it
      gives back all exactly when no release is half done. */
  lemma DeinitFreesAll(o: Origin, es: seq<Event>, w: World)
    requires Reaches(o, es, w)
    ensures forall b ::
      multiset(Deinit(w.q).freed)[b] + Count(Carries(b), w.limbo) == if b in w.live then 1 else 0
    ensures (forall b :: b in w.live ==> b in Deinit(w.q).freed) <==> w.limbo == []
    ensures Deinit(w.q).q.free == Deinit(w.q).q.ready == []
  {
    ReachInv(o, es, w);
    forall b: Buffer
      ensures multiset(Deinit(w.q).freed)[b] + Count(Carries(b), w.limbo) == if b in w.live then 1 else 0
      ensures b in Deinit(w.q).freed <==> b in w.live && Count(Carries(b), w.limbo) == 0
    {
      DeinitBooks(w, b);
    }
    if w.limbo != [] {
      var b := LimboCarries(w);
    }
  }

  lemma LeftLive(o: Origin, w: World, b: Buffer)
    requires Inv(w) && multiset(Left(o)) <= multiset(w.limbo)
    ensures Count(Carries(b), Left(o)) == if b in Start(o).live then 1 else 0
    ensures Count(Carries(b), Left(o)) <= Count(Carries(b), w.limbo)
  {
    LeftOwned(o, w, b);
    CountPositive(Carries(b), Start(o).q.free);
    CountWithin(Carries(b), Left(o), w.limbo);
  }

  /** Across deinit and the next init: each live buffer is freed by deinit, freed by a
      release that ends in between, or still live and in a release that is half done. */
  lemma DeinitThenInit(o: Origin, es: seq<Event>, w: World, left: seq<Slot>, nodes: nat, b: Buffer)
    requires Reaches(o, es, w) && multiset(left) <= multiset(w.limbo)
    ensures Count(Carries(b), left) <= Count(Carries(b), w.limbo)
    ensures
      multiset(Deinit(w.q).freed)[b] + (Count(Carries(b), w.limbo) - Count(Carries(b), left))
        + (if b in Start(Reinit(o, es, left, nodes)).live then 1 else 0)
      == if b in w.live then 1 else 0
  {
    ReachInv(o, es, w);
    DeinitBooks(w, b);
    LeftLive(Reinit(o, es, left, nodes), w, b);
  }

  // ----- accounting -----

  function Below(n: nat): (r: set<nat>)
    ensures |r| == n && forall t: nat :: t in r <==> t < n
  {
    if n == 0 then {} else Below(n - 1) + {n - 1}
  }

  lemma {:induction false} StampsSize(s: seq<Slot>)
    requires Ordered(s)
    ensures |Stamps(s)| == |s|
  {
    if s != [] {
      var t, x := s[..|s| - 1], s[|s| - 1];
      StampsSize(t);
      assert s == t + [x];
      assert Stamps(s) == Stamps(t) + {x.stamp};
      assert x.stamp !in Stamps(t);
    }
  }

  lemma DisjointSize(a: set<nat>, b: set<nat>)
    requires forall t :: t in a ==> t !in b
    ensures |a + b| == |a| + |b|
  {
    assert a !! b;
  }

  lemma FatesSize(fate: map<nat, Fate>)
    ensures |fate.Keys| == |Fated(fate, Released)| + |Fated(fate, Recycled)|
      + |Fated(fate, Cleaned)| + |Fated(fate, Stolen)| + |Fated(fate, Cleared)|
  {
    var a, b, c, d := Fated(fate, Released), Fated(fate, Recycled), Fated(fate, Cleaned), Fated(fate, Stolen);
    var e := Fated(fate, Cleared);
    DisjointSize(a, b);
    DisjointSize(a + b, c);
    DisjointSize(a + b + c, d);
    DisjointSize(a + b + c + d, e);
    assert fate.Keys == a + b + c + d + e;
  }

  /** Every completed frame is ready or has exactly one fate. */
  lemma FatesPartition(w: World)
    requires Dated(w) && Shape(w)
    ensures w.clock == |w.q.ready| + |w.fate.Keys|
    ensures |w.fate.Keys| == |Fated(w.fate, Released)| + |Fated(w.fate, Recycled)|
      + |Fated(w.fate, Cleaned)| + |Fated(w.fate, Stolen)| + |Fated(w.fate, Cleared)|
  {
    StampsSize(w.q.ready);
    forall s | s in w.q.ready ensures s.stamp < w.clock {
      assert ReadyOk(s, w.q.active, w.clock, w.idle);
    }
    DisjointSize(w.fate.Keys, Stamps(w.q.ready));
    assert w.fate.Keys + Stamps(w.q.ready) == Below(w.clock);
    FatesSize(w.fate);
  }

  /** The counters add up over every run. */
  lemma FrameAccounting(o: Origin, es: seq<Event>, w: World)
    requires Reaches(o, es, w)
    ensures w.q.totalMalloc == w.q.totalComplete + w.cancels + Lent(w.q.free) + w.abandoned
    ensures w.q.totalFree + |w.limbo| ==
      |Fated(w.fate, Released)| + |Fated(w.fate, Recycled)| + w.cancels + |Left(o)|
    ensures w.q.totalComplete ==
      |w.q.ready| + |Fated(w.fate, Released)| + |Fated(w.fate, Recycled)|
      + |Fated(w.fate, Cleaned)| + |Fated(w.fate, Stolen)| + |Fated(w.fate, Cleared)|
  {
    ReachInv(o, es, w);
    FatesPartition(w);
  }
}
