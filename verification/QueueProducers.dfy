/** What producers may rely on, and what consumers must not do. */
module QueueProducers {
  import opened Wrappers
  import opened QueueSpec
  import opened QueueLists
  import opened QueueWorld
  import opened QueueInvariants
  import opened QueueTheorems

  /** A producer is filling buffer b. */
  ghost predicate Lends(q: Queue, b: Buffer) {
    exists s :: s in q.free && s.inUse && s.frame == Some(b)
  }

  lemma LendsIs(q: Queue, b: Buffer)
    ensures Lends(q, b) <==> Count(LentOut(b), q.free) > 0
  {
    CountPositive(LentOut(b), q.free);
  }

  /** The lent buffer is in one node and nowhere else. */
  lemma LentAlone(w: World, b: Buffer)
    requires Inv(w) && Lends(w.q, b)
    ensures b in w.live
    ensures Count(Carries(b), w.q.free) == 1
    ensures Count(Carries(b), w.q.ready) == Count(Carries(b), w.limbo) == 0
  {
    CountPositive(Carries(b), w.q.free);
    assert Owners(w, b) == if b in w.live then 1 else 0;
  }

  lemma {:induction false} LentIsCarried(b: Buffer, s: seq<Slot>)
    ensures Count(LentOut(b), s) <= Count(Carries(b), s)
  {
    if s != [] {
      LentIsCarried(b, s[..|s| - 1]);
    }
  }

  /** A node that carries b where only one does is the lent one. */
  lemma OnlyLent(s: seq<Slot>, b: Buffer, i: nat)
    requires i < |s| && Count(Carries(b), s) == 1 && Count(LentOut(b), s) > 0
    ensures s[i].frame == Some(b) ==> s[i].inUse && Count(LentOut(b), RemoveAt(s, i)) == 0
    ensures s[i].frame != Some(b) ==> Count(LentOut(b), RemoveAt(s, i)) > 0
  {
    CountRemove(Carries(b), s, i);
    CountRemove(LentOut(b), s, i);
    LentIsCarried(b, RemoveAt(s, i));
  }

  /** Of the events, only these end the loan of b. */
  predicate Ends(e: Event, b: Buffer) {
    e == CompleteEvent(b) || e == CancelEvent(b) || e == ClearFreeEvent
  }

  lemma FillKeepsLent(q: Queue, k: nat, alloc: Option<Buffer>, b: Buffer)
    requires k < |q.free| && q.free[k].frame != Some(b) && Count(LentOut(b), q.free) > 0 && alloc != Some(b)
    ensures var x := Fill(q, k, alloc); Lends(x.q, b) && x.frame != Some(b) && x.freed == []
  {
    var x := Fill(q, k, alloc);
    CountUpdate(LentOut(b), q.free, k, x.q.free[k]);
    LendsIs(x.q, b);
  }

  lemma SelectKeepsLent(w: World, b: Buffer)
    requires Inv(w) && Lends(w.q, b) && Select(w.q).Some?
    ensures var (q1, k) := Select(w.q).value;
      q1.free[k].frame != Some(b) && Count(LentOut(b), q1.free) > 0
  {
    LentAlone(w, b);
    LendsIs(w.q, b);
    var i, j := First(Idle, w.q.free), First(Unheld, w.q.ready);
    if i < |w.q.free| {
      OnlyLent(w.q.free, b, i);
      CountUpdate(LentOut(b), w.q.free, i, w.q.free[i].(inUse := true));
    } else {
      CountPositive(Carries(b), w.q.ready);
      assert w.q.ready[j] in w.q.ready;
      CountConcat(LentOut(b), [w.q.ready[j].(inUse := true)], w.q.free);
    }
  }

  lemma MallocKeepsLent(w: World, alloc: Option<Buffer>, b: Buffer)
    requires Inv(w) && Can(w, MallocEvent(alloc)) && Lends(w.q, b)
    ensures var x := Malloc(w.q, alloc); Lends(x.q, b) && x.frame != Some(b) && x.freed == []
  {
    LentAlone(w, b);
    if Select(w.q).Some? {
      SelectKeepsLent(w, b);
      FillKeepsLent(Select(w.q).value.0, Select(w.q).value.1, alloc, b);
    }
  }

  lemma CompleteAndLent(w: World, d: Buffer, b: Buffer)
    requires Inv(w) && Lends(w.q, b)
    ensures Lends(Complete(w.q, d, w.clock).q, b) <==> d != b
  {
    LentAlone(w, b);
    LendsIs(w.q, b);
    LendsIs(Complete(w.q, d, w.clock).q, b);
    var i := First(LentOut(d), w.q.free);
    if i < |w.q.free| {
      OnlyLent(w.q.free, b, i);
    } else {
      CountPositive(LentOut(b), w.q.free);
    }
  }

  lemma CancelAndLent(w: World, d: Buffer, b: Buffer)
    requires Inv(w) && Lends(w.q, b)
    ensures var x := Cancel(w.q, d); (Lends(x.q, b) <==> d != b) && (b in x.freed <==> d == b)
  {
    LentAlone(w, b);
    LendsIs(w.q, b);
    LendsIs(Cancel(w.q, d).q, b);
    var i := First(LentOut(d), w.q.free);
    if i < |w.q.free| {
      OnlyLent(w.q.free, b, i);
      CountUpdate(LentOut(b), w.q.free, i, w.q.free[i].(frame := None, inUse := false));
      CountRemove(LentOut(b), w.q.free, i);
    } else {
      CountPositive(LentOut(b), w.q.free);
    }
  }

  lemma SweepKeepsLent(q: Queue, op: Sweep, b: Buffer)
    requires Lends(q, b)
    ensures Lends(SweepReady(op, q), b)
  {
    var s :| s in q.free && s.inUse && s.frame == Some(b);
    assert s in SweepReady(op, q).free;
  }

  lemma ReclaimAndLent(w: World, i: nat, b: Buffer)
    requires Inv(w) && Lends(w.q, b) && i < |w.limbo|
    ensures var x := Reclaim(w.q, w.limbo[i]); Lends(x.q, b) && b !in x.freed
  {
    LentAlone(w, b);
    CountPositive(Carries(b), w.limbo);
    assert w.limbo[i] in w.limbo;
    var s :| s in w.q.free && s.inUse && s.frame == Some(b);
    assert s in Reclaim(w.q, w.limbo[i]).q.free;
  }

  lemma GetAndLent(w: World, c: Consumer, b: Buffer)
    requires Inv(w) && Lends(w.q, b)
    ensures Get(w.q, c).frame != Some(b)
  {
    LentAlone(w, b);
    CountPositive(Carries(b), w.q.ready);
    var i := First(PendingFor(c), w.q.ready);
    assert i < |w.q.ready| ==> w.q.ready[i] in w.q.ready;
  }

  lemma ClearFreeAndLent(w: World, b: Buffer)
    requires Inv(w) && Lends(w.q, b)
    ensures b in ClearFree(w.q).freed && !Lends(ClearFree(w.q).q, b)
  {
    LentAlone(w, b);
    FramesCount(b, w.q.free);
  }

  lemma DoQueue(w: World, e: Event)
    requires Sized(w) && Can(w, e)
    ensures Do(w, e).q == Perform(w, e).q
  {
  }

  lemma PerformAndLent(w: World, e: Event, b: Buffer)
    requires Inv(w) && Can(w, e) && Lends(w.q, b)
    ensures var x := Perform(w, e);
      && (Lends(x.q, b) <==> !Ends(e, b))
      && (b in x.freed <==> e == CancelEvent(b) || e == ClearFreeEvent)
      && x.frame != Some(b)
  {
    match e
    case RegisterEvent(c) => SweepKeepsLent(w.q, RegisterSweep, b);
    case UnregisterEvent(c) => SweepKeepsLent(w.q, UnregisterSweep(c), b);
    case ClearReadyEvent => SweepKeepsLent(w.q, ClearSweep, b);
    case ClearFreeEvent => ClearFreeAndLent(w, b);
    case MallocEvent(alloc) => MallocKeepsLent(w, alloc, b);
    case CompleteEvent(d) => CompleteAndLent(w, d, b);
    case CancelEvent(d) => CancelAndLent(w, d, b);
    case GetEvent(c) => GetAndLent(w, c, b);
    case UnlinkEvent(h) =>
    case ReclaimEvent(i) => ReclaimAndLent(w, i, b);
  }

  /** A buffer in a producer's hands stays there, live and given to nobody else, until
      the producer completes or cancels it; clear_all is the one call that breaks this,
      and it always does: it frees the buffer under the producer. */
  lemma LentIsSafe(o: Origin, es: seq<Event>, w: World, e: Event, b: Buffer)
    requires Reaches(o, es, w) && Can(w, e) && Lends(w.q, b)
    ensures b in w.live
    ensures Lends(Do(w, e).q, b) <==> !Ends(e, b)
    ensures b in Perform(w, e).freed <==> e == CancelEvent(b) || e == ClearFreeEvent
    ensures Perform(w, e).frame != Some(b)
  {
    ReachInv(o, es, w);
    LentAlone(w, b);
    PerformAndLent(w, e, b);
    DoQueue(w, e);
  }

  // ----- releasing more than was got -----

  /** The queue after n releases of b, up to the one that unlinks its node. */
  function UnlinkTimes(q: Queue, b: Buffer, n: nat): Queue {
    if n == 0 then q else Unlink(UnlinkTimes(q, b, n - 1), b).0
  }

  lemma FirstUpdated(b: Buffer, s: seq<Slot>, i: nat, n: nat)
    requires i == First(Carries(b), s) < |s|
    ensures First(Carries(b), s[i := s[i].(refCount := n)]) == i
  {
    var t := s[i := s[i].(refCount := n)];
    var k := First(Carries(b), t);
    assert Matches(Carries(b), t[i]);
    assert forall j :: 0 <= j < i ==> t[j] == s[j];
  }

  /** q with k references of its i-th ready node. */
  function WithCount(q: Queue, i: nat, k: nat): Queue
    requires i < |q.ready|
  {
    q.(ready := q.ready[i := q.ready[i].(refCount := k)])
  }

  lemma UnlinkOne(q: Queue, b: Buffer, i: nat, k: nat)
    requires q.count != 0 && i == First(Carries(b), q.ready) < |q.ready| && k >= 2
    ensures Unlink(WithCount(q, i, k), b).0 == WithCount(q, i, k - 1)
  {
    FirstUpdated(b, q.ready, i, k);
    var s := q.ready[i];
    assert q.ready[i := s.(refCount := k)][i := s.(refCount := k - 1)] == q.ready[i := s.(refCount := k - 1)];
  }

  lemma {:induction false} UnlinkCounts(q: Queue, b: Buffer, i: nat, n: nat)
    requires q.count != 0 && i == First(Carries(b), q.ready) < |q.ready| && n < q.ready[i].refCount
    ensures UnlinkTimes(q, b, n) == WithCount(q, i, q.ready[i].refCount - n)
  {
    if n > 0 {
      UnlinkCounts(q, b, i, n - 1);
      UnlinkOne(q, b, i, q.ready[i].refCount - (n - 1));
    } else {
      assert q.ready[i := q.ready[i]] == q.ready;
    }
  }

  lemma LastHolder(q: Queue, b: Buffer, i: nat)
    requires q.count != 0 && i == First(Carries(b), q.ready) < |q.ready|
    ensures Unlink(WithCount(q, i, 1), b).1.Some? <==> q.ready[i].AllAccessed()
  {
    FirstUpdated(b, q.ready, i, 1);
  }

  lemma ReleasesCount(q: Queue, b: Buffer, i: nat, n: nat)
    requires q.count != 0 && i == First(Carries(b), q.ready) < |q.ready|
    requires q.ready[i].refCount == n + 1
    ensures Unlink(UnlinkTimes(q, b, n), b).1.Some? <==> q.ready[i].AllAccessed()
  {
    UnlinkCounts(q, b, i, n);
    LastHolder(q, b, i);
  }

  /** The node of a held frame, counting its holders. */
  lemma HeldNodeIs(w: World, h: Holding) returns (i: nat)
    requires Inv(w) && h in w.held
    ensures w.q.count != 0 && i == First(Carries(h.buf), w.q.ready) < |w.q.ready|
    ensures w.q.ready[i].stamp == h.stamp && w.q.ready[i].refCount == |Holders(w.held, h.stamp)|
  {
    FoundIsHeld(w, h);
    i := First(Carries(h.buf), w.q.ready);
    assert w.q.ready[i] in w.q.ready;
  }

  lemma TwoAtLeast<T>(a: set<T>, x: T, y: T)
    requires x in a && y in a && x != y
    ensures |a| >= 2
  {
    assert |a - {x}| >= |(a - {x}) - {y}| + 1;
  }

  /** The code counts releases, not who releases: as many releases of a frame as it has
      holders unlink it, whoever makes them, if and only if every consumer of its mask has
      seen it. */
  lemma ReleasesAreNotAttributed(o: Origin, es: seq<Event>, w: World, h: Holding, n: nat)
    requires Reaches(o, es, w) && h in w.held && |Holders(w.held, h.stamp)| == n + 1
    ensures
      var i := First(Carries(h.buf), w.q.ready);
      i < |w.q.ready| && (Unlink(UnlinkTimes(w.q, h.buf, n), h.buf).1.Some? <==> w.q.ready[i].AllAccessed())
  {
    ReachInv(o, es, w);
    var i := HeldNodeIs(w, h);
    ReleasesCount(w.q, h.buf, i, n);
  }

  lemma SecondRelease(q: Queue, b: Buffer, i: nat)
    requires q.count != 0 && i == First(Carries(b), q.ready) < |q.ready| && q.ready[i].refCount >= 2
    ensures Unlink(Unlink(q, b).0, b).1.Some? <==> q.ready[i].refCount == 2 && q.ready[i].AllAccessed()
  {
    FirstUpdated(b, q.ready, i, q.ready[i].refCount - 1);
  }

  /** So of two holders the one that releases twice takes the frame from the other, which
      still holds it: exactly if there is no third one and all have seen it. */
  lemma DoubleReleaseTakes(o: Origin, es: seq<Event>, w: World, h: Holding, other: Holding)
    requires Reaches(o, es, w) && h in w.held && other in w.held
    requires h != other && h.stamp == other.stamp
    ensures
      var w1, i := Do(w, UnlinkEvent(h)), First(Carries(h.buf), w.q.ready);
      && other in w1.held && other.buf == h.buf && i < |w.q.ready|
      && (Unlink(w1.q, h.buf).1.Some? <==> |Holders(w.held, h.stamp)| == 2 && w.q.ready[i].AllAccessed())
  {
    ReachInv(o, es, w);
    var i := HeldNodeIs(w, h);
    var j := HeldNodeIs(w, other);
    assert i == j;
    assert {h, other} <= Holders(w.held, h.stamp);
    TwoAtLeast(Holders(w.held, h.stamp), h, other);
    SecondRelease(w.q, h.buf, i);
  }
}
