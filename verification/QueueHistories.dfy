/** Every step keeps the delivery histories of all consumers. */
module QueueHistories {
  import opened Wrappers
  import opened QueueSpec
  import opened QueueLists
  import opened QueueWorld
  import opened QueueInvariants

  // ----- what each consumer received -----

  /** Steps that give consumer c nothing and complete nothing. */
  lemma HistorySame(w: World, w': World, c: Consumer)
    requires Sized(w) && Sized(w') && Logged(w, c)
    requires w'.got[c] == w.got[c] && w'.clock == w.clock
    requires forall t :: Awaits(w'.q.ready, c, t) ==> Awaits(w.q.ready, c, t)
    ensures Logged(w', c)
    ensures
      && Covered(w, c)
      && w'.joined[c] == w.joined[c] && w'.base[c] == w.base[c]
      && (forall t :: Lost(w.fate, t) ==> Lost(w'.fate, t))
      && (forall t :: Awaits(w.q.ready, c, t) ==> Awaits(w'.q.ready, c, t) || Lost(w'.fate, t))
      ==> Covered(w', c)
  {
  }

  lemma AwaitsKept(op: Sweep, ready: seq<Slot>, c: Consumer, t: nat)
    ensures Awaits(Kept(op, ready), c, t) ==> Awaits(ready, c, t)
    ensures Awaits(ready, c, t) && op != UnregisterSweep(c) ==>
              Awaits(Kept(op, ready), c, t) || (op == ClearSweep && t in Stamps(Gone(op, ready)))
  {
    if Awaits(Kept(op, ready), c, t) {
      var y :| y in Kept(op, ready) && y.Pending(c) && y.stamp == t;
      var x := KeptFrom(op, ready, y);
    }
    if Awaits(ready, c, t) && op != UnregisterSweep(c) {
      var x :| x in ready && x.Pending(c) && x.stamp == t;
      if Goes(op, x) {
        GoneHas(op, ready, x);
        assert Touch(op, x).Reset().stamp == t;
        assert op.UnregisterSweep? ==> c in Touch(op, x).mask;
      } else {
        KeptHas(op, ready, x);
        assert Touch(op, x).Pending(c);
      }
    }
  }

  lemma AwaitsRemoved(ready: seq<Slot>, i: nat, c: Consumer, t: nat)
    requires i < |ready|
    ensures Awaits(RemoveAt(ready, i), c, t) ==> Awaits(ready, c, t)
    ensures Awaits(ready, c, t) ==>
              Awaits(RemoveAt(ready, i), c, t) || (ready[i].Pending(c) && t == ready[i].stamp)
  {
    if Awaits(ready, c, t) {
      var x :| x in ready && x.Pending(c) && x.stamp == t;
      assert x in RemoveAt(ready, i) || x == ready[i];
    }
  }

  lemma AwaitsUpdated(ready: seq<Slot>, i: nat, x: Slot, c: Consumer, t: nat)
    requires i < |ready| && x.stamp == ready[i].stamp
    requires x.Pending(c) ==> ready[i].Pending(c)
    ensures Awaits(ready[i := x], c, t) ==> Awaits(ready, c, t)
    ensures Awaits(ready, c, t) ==> Awaits(ready[i := x], c, t) || (!x.Pending(c) && t == ready[i].stamp)
  {
    UpdateMembers(ready, i, x);
  }

  /** Frames that retire now had no fate before, so no fate changes. */
  lemma LostStays(w: World, stamps: set<nat>, f: Fate)
    requires Dated(w) && stamps <= Stamps(w.q.ready)
    ensures forall t :: Lost(w.fate, t) ==> Lost(Retire(w.fate, stamps, f), t)
    ensures f in {Stolen, Cleared} ==> forall t :: t in stamps ==> Lost(Retire(w.fate, stamps, f), t)
  {
  }

  lemma HistorySweep(w: World, w': World, op: Sweep, f: Fate, c: Consumer)
    requires Shape(w) && Dated(w) && Histories(w) && Sized(w')
    requires w'.q.ready == Kept(op, w.q.ready) && w'.fate == Retire(w.fate, Stamps(Gone(op, w.q.ready)), f)
    requires op == ClearSweep ==> f == Cleared
    requires w'.got == w.got && w'.clock == w.clock
    ensures Logged(w', c)
    ensures c in w.q.active && w'.joined[c] == w.joined[c] && w'.base[c] == w.base[c] && op != UnregisterSweep(c)
            ==> Covered(w', c)
  {
    SweepStamps(op, w.q.ready);
    LostStays(w, Stamps(Gone(op, w.q.ready)), f);
    forall t ensures Awaits(w'.q.ready, c, t) ==> Awaits(w.q.ready, c, t)
             ensures Awaits(w.q.ready, c, t) && op != UnregisterSweep(c) ==>
                       Awaits(w'.q.ready, c, t) || Lost(w'.fate, t)
    {
      AwaitsKept(op, w.q.ready, c, t);
    }
    HistorySame(w, w', c);
  }

  lemma AwaitsActive(w: World, c: Consumer, t: nat)
    requires Shape(w)
    ensures Awaits(w.q.ready, c, t) ==> c in w.q.active
  {
    if Awaits(w.q.ready, c, t) {
      var s :| s in w.q.ready && s.Pending(c) && s.stamp == t;
      assert ReadyOk(s, w.q.active, w.clock, w.idle);
      assert c in s.mask - s.accessed;
    }
  }

  lemma HistoryRegister(w: World, d: Consumer, c: Consumer)
    requires Shape(w) && Dated(w) && Histories(w)
    ensures var w' := Do(w, RegisterEvent(d)); Logged(w', c) && (c in w'.q.active ==> Covered(w', c))
  {
    var w' := Do(w, RegisterEvent(d));
    HistorySweep(w, w', RegisterSweep, Cleaned, c);
    if c == d && c !in w.q.active {
      assert Logged(w, c);
      forall k | 0 <= k < |w.got[c]| ensures w.got[c][k] < w.clock {
        assert w.got[c][k] in w.got[c];
      }
      forall t ensures !Awaits(w'.q.ready, c, t) {
        AwaitsKept(RegisterSweep, w.q.ready, c, t);
        AwaitsActive(w, c, t);
      }
    }
  }

  lemma HistoryUnregister(w: World, d: Consumer, c: Consumer)
    requires Shape(w) && Dated(w) && Histories(w)
    ensures var w' := Do(w, UnregisterEvent(d)); Logged(w', c) && (c in w'.q.active ==> Covered(w', c))
  {
    HistorySweep(w, Do(w, UnregisterEvent(d)), UnregisterSweep(d), Recycled, c);
  }

  lemma HistoryClear(w: World, c: Consumer)
    requires Shape(w) && Dated(w) && Histories(w)
    ensures var w' := Do(w, ClearReadyEvent); Logged(w', c) && (c in w'.q.active ==> Covered(w', c))
  {
    HistorySweep(w, Do(w, ClearReadyEvent), ClearSweep, Cleared, c);
  }

  lemma HistoryMalloc(w: World, alloc: Option<Buffer>, c: Consumer)
    requires Shape(w) && Dated(w) && Histories(w) && Can(w, MallocEvent(alloc))
    ensures var w' := Do(w, MallocEvent(alloc)); Logged(w', c) && (c in w'.q.active ==> Covered(w', c))
  {
    var w' := Do(w, MallocEvent(alloc));
    if StolenBy(w.q) != {} {
      var j := First(Unheld, w.q.ready);
      assert w.q.ready[j] in w.q.ready;
      LostStays(w, StolenBy(w.q), Stolen);
      forall t ensures Awaits(w'.q.ready, c, t) ==> Awaits(w.q.ready, c, t)
               ensures Awaits(w.q.ready, c, t) ==> Awaits(w'.q.ready, c, t) || Lost(w'.fate, t)
      {
        AwaitsRemoved(w.q.ready, j, c, t);
      }
    }
    HistorySame(w, w', c);
  }

  lemma HistoryUnlink(w: World, h: Holding, c: Consumer)
    requires Shape(w) && Dated(w) && Histories(w) && Can(w, UnlinkEvent(h))
    ensures var w' := Do(w, UnlinkEvent(h)); Logged(w', c) && (c in w'.q.active ==> Covered(w', c))
  {
    var w' := Do(w, UnlinkEvent(h));
    var i := First(Carries(h.buf), w.q.ready);
    if i < |w.q.ready| {
      var last := Unlink(w.q, h.buf).1;
      assert w.q.ready[i] in w.q.ready;
      LostStays(w, {w.q.ready[i].stamp}, Released);
      forall t ensures Awaits(w'.q.ready, c, t) <==> Awaits(w.q.ready, c, t) {
        if last.Some? {
          AwaitsRemoved(w.q.ready, i, c, t);
        } else {
          AwaitsUpdated(w.q.ready, i, w'.q.ready[i], c, t);
        }
      }
    }
    HistorySame(w, w', c);
  }

  lemma HistoryComplete(w: World, b: Buffer, c: Consumer)
    requires Shape(w) && Dated(w) && Histories(w)
    ensures var w' := Do(w, CompleteEvent(b)); Logged(w', c) && (c in w'.q.active ==> Covered(w', c))
  {
    var i := First(LentOut(b), w.q.free);
    assert Logged(w, c);
    if i < |w.q.free| {
      var w' := Do(w, CompleteEvent(b));
      var s := w'.q.ready[|w.q.ready|];
      assert s in w'.q.ready;
      forall t ensures Awaits(w'.q.ready, c, t) <==> Awaits(w.q.ready, c, t) || (c in w.q.active && t == w.clock) {
        if Awaits(w.q.ready, c, t) {
          var x :| x in w.q.ready && x.Pending(c) && x.stamp == t;
          assert x in w'.q.ready;
        }
        if c in w.q.active {
          assert s.Pending(c);
        }
      }
    }
  }

  /** A consumer is given the oldest frame that awaits it; the rest still await it. */
  lemma AwaitsAfterGet(q: Queue, c: Consumer, t: nat)
    requires Ordered(q.ready) && Get(q, c).ok
    ensures var i := First(PendingFor(c), q.ready);
            && Awaits(q.ready, c, q.ready[i].stamp)
            && (Awaits(Get(q, c).q.ready, c, t) <==> Awaits(q.ready, c, t) && q.ready[i].stamp < t)
            && (Awaits(q.ready, c, t) ==> q.ready[i].stamp <= t)
  {
    var i := First(PendingFor(c), q.ready);
    var r := Get(q, c).q.ready;
    AwaitsUpdated(q.ready, i, r[i], c, t);
    assert q.ready[i] in q.ready;
    if Awaits(r, c, t) {
      var k :| 0 <= k < |r| && r[k].Pending(c) && r[k].stamp == t;
      assert k > i;
    }
    if Awaits(q.ready, c, t) {
      var k :| 0 <= k < |r| && q.ready[k].Pending(c) && q.ready[k].stamp == t;
      assert k >= i;
    }
  }

  lemma HistoryGetOwn(w: World, c: Consumer)
    requires Shape(w) && Dated(w) && Histories(w) && Get(w.q, c).ok
    ensures var w' := Do(w, GetEvent(c)); Logged(w', c) && (c in w'.q.active ==> Covered(w', c))
  {
    var w' := Do(w, GetEvent(c));
    var s := w.q.ready[First(PendingFor(c), w.q.ready)];
    assert ReadyOk(s, w.q.active, w.clock, w.idle);
    assert Logged(w, c);
    assert w'.got[c] == w.got[c] + [s.stamp];
    forall t ensures Awaits(w'.q.ready, c, t) <==> Awaits(w.q.ready, c, t) && s.stamp < t
             ensures Awaits(w.q.ready, c, t) ==> s.stamp <= t
    {
      AwaitsAfterGet(w.q, c, t);
    }
    AwaitsAfterGet(w.q, c, s.stamp);
    forall k | 0 <= k < |w.got[c]| ensures w.got[c][k] < s.stamp {
      assert w.got[c][k] in w.got[c];
    }
  }

  lemma HistoryGet(w: World, d: Consumer, c: Consumer)
    requires Shape(w) && Dated(w) && Histories(w)
    ensures var w' := Do(w, GetEvent(d)); Logged(w', c) && (c in w'.q.active ==> Covered(w', c))
  {
    var w' := Do(w, GetEvent(d));
    assert Logged(w, c);
    if Get(w.q, d).ok {
      if c == d {
        HistoryGetOwn(w, c);
      } else {
        var i := First(PendingFor(d), w.q.ready);
        assert ReadyOk(w.q.ready[i], w.q.active, w.clock, w.idle);
        forall t ensures Awaits(w'.q.ready, c, t) <==> Awaits(w.q.ready, c, t) {
          AwaitsUpdated(w.q.ready, i, w'.q.ready[i], c, t);
        }
        HistorySame(w, w', c);
      }
    }
  }

  lemma HistoriesStep(w: World, e: Event)
    requires Shape(w) && Dated(w) && Histories(w) && Can(w, e)
    ensures Histories(Do(w, e))
  {
    var w' := Do(w, e);
    forall c: Consumer ensures Logged(w', c) && (c in w'.q.active ==> Covered(w', c)) {
      assert Logged(w, c);
      match e
      case RegisterEvent(d) => HistoryRegister(w, d, c);
      case UnregisterEvent(d) => HistoryUnregister(w, d, c);
      case ClearReadyEvent => HistoryClear(w, c);
      case MallocEvent(alloc) => HistoryMalloc(w, alloc, c);
      case UnlinkEvent(h) => HistoryUnlink(w, h, c);
      case CompleteEvent(b) => HistoryComplete(w, b, c);
      case GetEvent(d) => HistoryGet(w, d, c);
      case _ => HistorySame(w, w', c);
    }
  }
}
