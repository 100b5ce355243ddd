/** What each operation of the frame queue does for its caller, in every state a run
    reaches. */
module QueueServices {
  import opened Wrappers
  import opened QueueSpec
  import opened QueueLists
  import opened QueueLedger
  import opened QueueWorld
  import opened QueueInvariants
  import opened QueueHistories
  import opened QueueAccounting
  import opened QueueTheorems
  import opened QueueProducers

  // ----- what awaits a consumer -----

  lemma {:induction false} AwaitedConcat(a: seq<Slot>, b: seq<Slot>, c: Consumer)
    ensures Awaited(a + b, c) == Awaited(a, c) + Awaited(b, c)
  {
    if b == [] {
      assert a + b == a;
    } else {
      var n := |b| - 1;
      assert (a + b)[..|a| + n] == a + b[..n];
      AwaitedConcat(a, b[..n], c);
    }
  }

  lemma AwaitedOne(s: Slot, c: Consumer)
    ensures Awaited([s], c) == if s.Pending(c) then [s.stamp] else []
  {
    assert Awaited([s][..0], c) == [];
  }

  lemma AwaitedSplit(s: seq<Slot>, i: nat, c: Consumer)
    requires i < |s|
    ensures Awaited(s, c)
      == Awaited(s[..i], c) + (if s[i].Pending(c) then [s[i].stamp] else []) + Awaited(s[i + 1..], c)
  {
    assert s == (s[..i] + [s[i]]) + s[i + 1..];
    AwaitedConcat(s[..i] + [s[i]], s[i + 1..], c);
    AwaitedConcat(s[..i], [s[i]], c);
    AwaitedOne(s[i], c);
  }

  lemma AwaitedUpdated(s: seq<Slot>, i: nat, x: Slot, c: Consumer)
    requires i < |s| && x.stamp == s[i].stamp && (x.Pending(c) <==> s[i].Pending(c))
    ensures Awaited(s[i := x], c) == Awaited(s, c)
  {
    AwaitedSplit(s, i, c);
    AwaitedSplit(s[i := x], i, c);
    assert s[i := x][..i] == s[..i] && s[i := x][i + 1..] == s[i + 1..];
  }

  lemma AwaitedRemoved(s: seq<Slot>, i: nat, c: Consumer)
    requires i < |s| && !s[i].Pending(c)
    ensures Awaited(RemoveAt(s, i), c) == Awaited(s, c)
  {
    AwaitedSplit(s, i, c);
    AwaitedConcat(s[..i], s[i + 1..], c);
  }

  lemma {:induction false} AwaitedNone(s: seq<Slot>, c: Consumer)
    ensures Awaited(s, c) == [] <==> forall i :: 0 <= i < |s| ==> !s[i].Pending(c)
  {
    if s != [] {
      AwaitedNone(s[..|s| - 1], c);
    }
  }

  lemma AwaitedFirst(s: seq<Slot>, i: nat, c: Consumer)
    requires i == First(PendingFor(c), s)
    ensures Awaited(s, c) != [] <==> i < |s|
    ensures i < |s| ==> Awaited(s, c) == [s[i].stamp] + Awaited(s[i + 1..], c)
  {
    AwaitedNone(s, c);
    if i < |s| {
      AwaitedNone(s[..i], c);
      AwaitedSplit(s, i, c);
    }
  }

  /** A sweep takes no awaited frame from consumer c, or c no longer waits. */
  lemma {:induction false} AwaitedKept(op: Sweep, s: seq<Slot>, c: Consumer)
    requires forall x :: x in s && Goes(op, x) ==> !Touch(op, x).Pending(c)
    ensures Awaited(Kept(op, s), c) == if op == UnregisterSweep(c) then [] else Awaited(s, c)
  {
    if s != [] {
      var n := |s| - 1;
      assert s == s[..n] + [s[n]];
      AwaitedKept(op, s[..n], c);
      assert Touch(op, s[n]).Pending(c) <==> op != UnregisterSweep(c) && s[n].Pending(c);
      SweepStep(op, s[..n], s[n]);
      AwaitedSplit(s, n, c);
      assert s[n + 1..] == [] && s[n] in s;
      if !Goes(op, s[n]) {
        AwaitedConcat(Kept(op, s[..n]), [Touch(op, s[n])], c);
        AwaitedOne(Touch(op, s[n]), c);
      }
    }
  }

  // ----- consumers -----

  /** The consumer's next frame has left the waiting ones, and nothing else has. */
  lemma TakenFirst(s: seq<Slot>, i: nat, x: Slot, c: Consumer)
    requires i == First(PendingFor(c), s) < |s| && x.stamp == s[i].stamp && !x.Pending(c)
    ensures Awaited(s, c) == [x.stamp] + Awaited(s[i := x], c)
  {
    AwaitedFirst(s, i, c);
    AwaitedNone(s[..i], c);
    AwaitedSplit(s[i := x], i, c);
    assert s[i := x][..i] == s[..i] && s[i := x][i + 1..] == s[i + 1..];
  }

  lemma GetFirst(q: Queue, c: Consumer)
    requires q.count != 0 && c in q.enabled
    ensures
      var x, a, i := Get(q, c), Awaited(q.ready, c), First(PendingFor(c), q.ready);
      && (x.ok <==> a != []) && (!x.ok ==> x == Failed(q))
      && (x.ok ==>
            i < |q.ready| && a == [q.ready[i].stamp] + Awaited(x.q.ready, c) && x.frame == q.ready[i].frame)
  {
    var i := First(PendingFor(c), q.ready);
    AwaitedFirst(q.ready, i, c);
    if i < |q.ready| {
      TakenFirst(q.ready, i, Get(q, c).q.ready[i], c);
    }
  }

  lemma DoGet(w: World, c: Consumer)
    requires Sized(w)
    ensures var x, w' := Get(w.q, c), Do(w, GetEvent(c));
      && (!x.ok ==> w' == w)
      && (x.ok && x.frame.Some? ==>
            var t := w.q.ready[First(PendingFor(c), w.q.ready)].stamp;
            && w'.got == w.got[c := w.got[c] + [t]] && w'.held == w.held + {Holding(c, t, x.frame.value)})
  {
    assert Ledger(w.live, Get(w.q, c)) == w.live;
  }

  /** An active consumer is given a frame exactly when one awaits it, whoever else holds
      it: the oldest one, with its buffer. */
  lemma GetServes(o: Origin, es: seq<Event>, w: World, c: Consumer)
    requires Reaches(o, es, w) && c in w.q.active
    ensures
      var x, w', a := Get(w.q, c), Do(w, GetEvent(c)), Awaited(w.q.ready, c);
      && (x.ok <==> a != [])
      && (!x.ok ==> w' == w && x.frame == None)
      && (x.ok ==>
            && w'.got[c] == w.got[c] + [a[0]] && a == [a[0]] + Awaited(w'.q.ready, c)
            && x.frame.Some? && w'.held == w.held + {Holding(c, a[0], x.frame.value)}
            && exists s :: s in w.q.ready && s.stamp == a[0] && s.frame == x.frame)
  {
    ReachInv(o, es, w);
    GetFirst(w.q, c);
    DoGet(w, c);
    DoQueue(w, GetEvent(c));
    var i := First(PendingFor(c), w.q.ready);
    if i < |w.q.ready| {
      assert ReadyOk(w.q.ready[i], w.q.active, w.clock, w.idle);
    }
  }

  lemma GetOfOther(q: Queue, c: Consumer, d: Consumer)
    requires c != d && Ordered(q.ready)
    ensures var x := Get(q, c);
      && Awaited(x.q.ready, d) == Awaited(q.ready, d) && Stamps(x.q.ready) == Stamps(q.ready)
      && x.q.free == q.free && x.taken == x.freed == []
  {
    var i := First(PendingFor(c), q.ready);
    if Get(q, c).ok {
      var x := Get(q, c).q.ready[i];
      AwaitedUpdated(q.ready, i, x, d);
      UpdateStamps(q.ready, i, x);
    }
  }

  /** A get changes nothing for the other consumers; for one that is not registered it
      fails. */
  lemma GetLeavesOthers(o: Origin, es: seq<Event>, w: World, c: Consumer, d: Consumer)
    requires Reaches(o, es, w) && c != d
    ensures var w' := Do(w, GetEvent(c));
      && Awaited(w'.q.ready, d) == Awaited(w.q.ready, d) && w'.got[d] == w.got[d]
      && Stamps(w'.q.ready) == Stamps(w.q.ready) && w'.q.free == w.q.free && w'.live == w.live
      && (c !in w.q.active ==> !Get(w.q, c).ok && w' == w)
  {
    ReachInv(o, es, w);
    GetOfOther(w.q, c, d);
    DoGet(w, c);
    DoQueue(w, GetEvent(c));
    assert Ledger(w.live, Get(w.q, c)) == w.live;
  }

  // ----- producers -----

  /** The node malloc chooses is marked, and carries a buffer if it was taken from the
      consumers. */
  lemma SelectedNode(q: Queue)
    requires Select(q).Some?
    requires forall s :: s in q.ready ==> s.frame.Some?
    ensures var (q', k) := Select(q).value;
      && q'.free[k].inUse
      && (q'.free[k].frame.None? ==> q'.(free := q'.free[k := q'.free[k].(inUse := false)]) == q)
  {
    var i := First(Idle, q.free);
    if i < |q.free| {
      var s := q.free[i];
      assert s.(inUse := true).(inUse := false) == s;
      assert q.free[i := s.(inUse := true)][i := s] == q.free;
    }
  }

  lemma FillGives(q: Queue, k: nat, alloc: Option<Buffer>)
    requires k < |q.free| && q.free[k].inUse
    ensures var x, s := Fill(q, k, alloc), q.free[k];
      && (x.ok <==> s.frame.Some? || alloc.Some?)
      && (s.frame.Some? ==> x.frame == s.frame && x.taken == [])
      && (s.frame.None? && alloc.Some? ==> x.frame == alloc && x.taken == [alloc.value])
      && (x.ok ==> x.frame.Some? && Lends(x.q, x.frame.value))
      && (!x.ok ==> x == Failed(q.(free := q.free[k := s.(inUse := false)])))
  {
    var x := Fill(q, k, alloc);
    assert x.q.free[k] in x.q.free;
  }

  /** malloc succeeds exactly when a node is found that carries a buffer, or the allocator
      grants one.  A buffer that is there is handed out without asking the allocator; a
      malloc that fails changes nothing. */
  lemma MallocServes(o: Origin, es: seq<Event>, w: World, alloc: Option<Buffer>)
    requires Reaches(o, es, w)
    ensures
      var x := Malloc(w.q, alloc);
      && (!x.ok ==> x == Failed(w.q))
      && (x.ok ==> x.frame.Some? && Lends(x.q, x.frame.value) && x.freed == [])
      && match Select(w.q)
         case None => !x.ok
         case Some((q', k)) =>
           && (x.ok <==> q'.free[k].frame.Some? || alloc.Some?)
           && (q'.free[k].frame.Some? ==> x.frame == q'.free[k].frame && x.taken == [])
           && (q'.free[k].frame.None? && alloc.Some? ==> x.frame == alloc && x.taken == [alloc.value])
  {
    ReachInv(o, es, w);
    forall s | s in w.q.ready ensures s.frame.Some? {
      assert ReadyOk(s, w.q.active, w.clock, w.idle);
    }
    if Select(w.q).Some? {
      SelectedNode(w.q);
      FillGives(Select(w.q).value.0, Select(w.q).value.1, alloc);
    }
  }

  /** A frame taken from the consumers is handed out with its buffer, whatever the
      allocator would answer. */
  lemma StolenIsHandedOut(o: Origin, es: seq<Event>, w: World, alloc: Option<Buffer>, t: nat)
    requires Reaches(o, es, w) && t in StolenBy(w.q)
    ensures var x := Malloc(w.q, alloc);
      x.ok && x.taken == [] && exists s :: s in w.q.ready && s.stamp == t && x.frame == s.frame
  {
    MallocServes(o, es, w, alloc);
    ReachInv(o, es, w);
    StolenIndex(w.q, t);
    var s := w.q.ready[First(Unheld, w.q.ready)];
    assert ReadyOk(s, w.q.active, w.clock, w.idle);
    assert Select(w.q).value.0.free[0] == s.(inUse := true);
  }

  lemma LentFirst(q: Queue, b: Buffer)
    ensures Lends(q, b) <==> First(LentOut(b), q.free) < |q.free|
  {
    var i := First(LentOut(b), q.free);
    if i < |q.free| {
      assert q.free[i] in q.free;
    }
  }

  lemma CompletedLast(q: Queue, s: Slot, c: Consumer)
    requires s.mask == q.active && s.accessed == {}
    ensures Awaited(q.ready + [s], c) == Awaited(q.ready, c) + if c in q.active then [s.stamp] else []
    ensures Stamps(q.ready + [s]) == Stamps(q.ready) + {s.stamp} && s in q.ready + [s]
  {
    AwaitedConcat(q.ready, [s], c);
    AwaitedOne(s, c);
    assert (q.ready + [s])[|q.ready|] == s;
  }

  lemma CompleteIs(w: World, b: Buffer, c: Consumer)
    requires Shape(w)
    ensures
      var x, w' := Complete(w.q, b, w.clock), Do(w, CompleteEvent(b));
      && (x.ok <==> First(LentOut(b), w.q.free) < |w.q.free|)
      && (!x.ok ==> w' == w)
      && (x.ok ==>
            && w'.clock == w.clock + 1 && w'.live == w.live
            && Awaited(w'.q.ready, c) == Awaited(w.q.ready, c) + (if c in w.q.active then [w.clock] else [])
            && Stamps(w'.q.ready) == Stamps(w.q.ready) + {w.clock}
            && exists s :: s in w'.q.ready && s.stamp == w.clock && s.frame == Some(b) && s.refCount == 0)
  {
    var x, i := Complete(w.q, b, w.clock), First(LentOut(b), w.q.free);
    assert Ledger(w.live, x) == w.live;
    if i < |w.q.free| {
      assert FreeOk(w.q.free[i]);
      CompletedLast(w.q, x.q.ready[|w.q.ready|], c);
    }
  }

  /** complete succeeds exactly for a buffer a producer is filling.  The frame gets the next
      number, with its buffer, and from then on awaits every active consumer after all
      others, and nobody else. */
  lemma CompleteServes(o: Origin, es: seq<Event>, w: World, b: Buffer, c: Consumer)
    requires Reaches(o, es, w)
    ensures
      var x, w' := Complete(w.q, b, w.clock), Do(w, CompleteEvent(b));
      && (x.ok <==> Lends(w.q, b))
      && (!x.ok ==> w' == w)
      && (x.ok ==>
            && !Lends(w'.q, b) && w'.clock == w.clock + 1 && w'.live == w.live
            && Awaited(w'.q.ready, c) == Awaited(w.q.ready, c) + (if c in w.q.active then [w.clock] else [])
            && Stamps(w'.q.ready) == Stamps(w.q.ready) + {w.clock}
            && exists s :: s in w'.q.ready && s.stamp == w.clock && s.frame == Some(b) && s.refCount == 0)
  {
    ReachInv(o, es, w);
    LentFirst(w.q, b);
    CompleteIs(w, b, c);
    if Lends(w.q, b) {
      LentIsSafe(o, es, w, CompleteEvent(b), b);
    }
  }

  /** cancel succeeds exactly for a buffer a producer is filling: the buffer is freed, its
      node is idle again, and no frame is lost or added. */
  lemma CancelServes(o: Origin, es: seq<Event>, w: World, b: Buffer)
    requires Reaches(o, es, w)
    ensures
      var x, w' := Cancel(w.q, b), Do(w, CancelEvent(b));
      && (x.ok <==> Lends(w.q, b))
      && (!x.ok ==> w' == w)
      && (x.ok ==>
            && x.freed == [b] && w'.live == w.live - {b} && !Lends(w'.q, b)
            && Lent(w'.q.free) == Lent(w.q.free) - 1 && |w'.q.free| == |w.q.free| && w'.q.ready == w.q.ready)
  {
    ReachInv(o, es, w);
    LentFirst(w.q, b);
    var i := First(LentOut(b), w.q.free);
    var e := CancelEvent(b);
    if i < |w.q.free| {
      LentIsSafe(o, es, w, e, b);
      CountUpdate(Idle, w.q.free, i, w.q.free[i].(frame := None, inUse := false));
    } else {
      assert Ledger(w.live, Perform(w, e)) == w.live;
    }
  }

  // ----- release -----

  lemma UnlinkIs(q: Queue, b: Buffer, i: nat, c: Consumer)
    requires q.count != 0 && i == First(Carries(b), q.ready) < |q.ready| && Ordered(q.ready)
    requires q.ready[i].refCount > 0
    ensures
      var (q', last) := Unlink(q, b);
      var s := q.ready[i];
      && q'.free == q.free
      && (last.Some? <==> s.refCount == 1 && s.AllAccessed())
      && (last.Some? ==> last.value == s.(refCount := 0))
      && Stamps(q'.ready) == (if last.Some? then Stamps(q.ready) - {s.stamp} else Stamps(q.ready))
      && Awaited(q'.ready, c) == Awaited(q.ready, c)
  {
    var s := q.ready[i];
    if s.refCount == 1 && s.AllAccessed() {
      RemoveOrdered(q.ready, i);
      AwaitedRemoved(q.ready, i, c);
    } else {
      var less := s.(refCount := s.refCount - 1);
      UpdateStamps(q.ready, i, less);
      AwaitedUpdated(q.ready, i, less, c);
    }
  }

  lemma AwaitsIs(ready: seq<Slot>, s: Slot, c: Consumer)
    requires Ordered(ready) && s in ready
    ensures Awaits(ready, c, s.stamp) <==> s.Pending(c)
  {
    if Awaits(ready, c, s.stamp) {
      var x :| x in ready && x.Pending(c) && x.stamp == s.stamp;
      OrderedUnique(ready, x, s);
    }
  }

  /** Some consumer has still to see frame t. */
  ghost predicate SomeoneAwaits(ready: seq<Slot>, t: nat) {
    exists c: Consumer :: Awaits(ready, c, t)
  }

  lemma StillAwaited(ready: seq<Slot>, s: Slot)
    requires Ordered(ready) && s in ready
    ensures !s.AllAccessed() <==> SomeoneAwaits(ready, s.stamp)
  {
    if !s.AllAccessed() {
      var c :| c in s.mask && c !in s.accessed;
      AwaitsIs(ready, s, c);
    }
    if SomeoneAwaits(ready, s.stamp) {
      var c: Consumer :| Awaits(ready, c, s.stamp);
      AwaitsIs(ready, s, c);
    }
  }

  lemma FewerHolders(held: set<Holding>, h: Holding)
    requires h in held
    ensures |Holders(held, h.stamp)| == 1 <==> Holders(held - {h}, h.stamp) == {}
  {
    var rest := Holders(held - {h}, h.stamp);
    assert Holders(held, h.stamp) == rest + {h} && h !in rest;
  }

  /** A release ends that one holding.  The frame stays ready exactly while somebody holds it
      or has still to see it, and what awaits whom does not change. */
  lemma ReleaseServes(o: Origin, es: seq<Event>, w: World, h: Holding, c: Consumer)
    requires Reaches(o, es, w) && h in w.held
    ensures
      var w' := Do(w, UnlinkEvent(h));
      var stays := Holders(w'.held, h.stamp) != {} || SomeoneAwaits(w.q.ready, h.stamp);
      && w'.held == w.held - {h} && w'.live == w.live && w'.q.free == w.q.free
      && h.stamp in Stamps(w.q.ready)
      && Stamps(w'.q.ready) == (if stays then Stamps(w.q.ready) else Stamps(w.q.ready) - {h.stamp})
      && Awaited(w'.q.ready, c) == Awaited(w.q.ready, c)
      && if stays then w'.limbo == w.limbo
         else |w'.limbo| == |w.limbo| + 1 && w'.limbo[|w.limbo|].frame == Some(h.buf) && w.limbo <= w'.limbo
  {
    ReachInv(o, es, w);
    var i := HeldNodeIs(w, h);
    FoundIsHeld(w, h);
    UnlinkIs(w.q, h.buf, i, c);
    assert w.q.ready[i] in w.q.ready;
    StillAwaited(w.q.ready, w.q.ready[i]);
    FewerHolders(w.held, h);
    assert Ledger(w.live, Perform(w, UnlinkEvent(h))) == w.live;
  }

  lemma LimboIsLive(w: World, i: nat)
    requires Shape(w) && Owned(w) && i < |w.limbo|
    ensures w.limbo[i].frame.Some? && w.limbo[i].frame.value in w.live
  {
    assert LimboOk(w.limbo[i]);
    var b := w.limbo[i].frame.value;
    CountPositive(Carries(b), w.limbo);
    assert Matches(Carries(b), w.limbo[i]) && w.limbo[i] in w.limbo;
    assert Owners(w, b) == if b in w.live then 1 else 0;
  }

  /** The second part of a release frees the frame's buffer, and its node is idle and empty
      again. */
  lemma ReclaimServes(o: Origin, es: seq<Event>, w: World, i: nat)
    requires Reaches(o, es, w) && i < |w.limbo|
    ensures
      var x, w', s := Perform(w, ReclaimEvent(i)), Do(w, ReclaimEvent(i)), w.limbo[i];
      && s.frame.Some? && x.freed == [s.frame.value] && s.frame.value in w.live
      && w'.live == w.live - {s.frame.value} && w'.limbo == RemoveAt(w.limbo, i)
      && w'.q.ready == w.q.ready && |w'.q.free| == |w.q.free| + 1 && w.q.free <= w'.q.free
      && var node := w'.q.free[|w.q.free|];
         !node.inUse && node.frame == None && node.refCount == 0 && node.mask == node.accessed == {}
  {
    ReachInv(o, es, w);
    LimboIsLive(w, i);
  }

  // ----- registration -----

  /** Which frames a sweep leaves, by what it takes away. */
  lemma SweepLeaves(op: Sweep, ready: seq<Slot>, s: Slot)
    requires Ordered(ready) && s in ready
    ensures s.stamp in Stamps(Kept(op, ready)) <==> !Goes(op, s)
    ensures s.stamp in Stamps(Gone(op, ready)) <==> Goes(op, s)
  {
    SweepStamps(op, ready);
    if Goes(op, s) {
      GoneHas(op, ready, s);
      assert Touch(op, s).Reset().stamp == s.stamp;
    } else {
      KeptHas(op, ready, s);
      assert Touch(op, s).stamp == s.stamp;
    }
  }

  /** A sweep changes neither what is held nor what is live. */
  lemma DoSweep(w: World, e: Event)
    requires Sized(w) && (e.RegisterEvent? || e.UnregisterEvent? || e.ClearReadyEvent?)
    ensures var w' := Do(w, e);
      w'.q == Perform(w, e).q && w'.held == w.held && w'.live == w.live && w'.limbo == w.limbo
  {
    assert Ledger(w.live, Perform(w, e)) == w.live;
  }

  lemma NothingAwaitsNew(w: World, c: Consumer)
    requires Inv(w) && c !in w.q.active
    ensures Awaited(w.q.ready, c) == []
  {
    AwaitedNone(w.q.ready, c);
    forall i | 0 <= i < |w.q.ready| ensures !w.q.ready[i].Pending(c) {
      assert ReadyOk(w.q.ready[i], w.q.active, w.clock, w.idle);
    }
  }

  lemma RegisterSweeps(w: World, c: Consumer, s: Slot)
    requires Ordered(w.q.ready) && Counted(w.held, w.q.ready) && w.q.count != 0 && s in w.q.ready
    ensures s.stamp in Stamps(Register(w.q, c).q.ready) <==> s.mask != {} || Holders(w.held, s.stamp) != {}
  {
    SweepLeaves(RegisterSweep, w.q.ready, s);
    assert s.refCount == |Holders(w.held, s.stamp)|;
  }

  /** Registering always succeeds and takes nothing from anybody: it removes exactly the
      frames that were completed for nobody and that nobody holds.  A new consumer waits for
      frames to come. */
  lemma RegisterServes(o: Origin, es: seq<Event>, w: World, c: Consumer, d: Consumer, s: Slot)
    requires Reaches(o, es, w)
    ensures
      var w' := Do(w, RegisterEvent(c));
      && Register(w.q, c).ok && w'.q.active == w.q.active + {c} && w'.q.enabled == w'.q.active
      && w'.held == w.held && w'.live == w.live
      && Awaited(w'.q.ready, d) == Awaited(w.q.ready, d)
      && (c !in w.q.active ==> Awaited(w'.q.ready, c) == [])
      && (s in w.q.ready ==>
            (s.stamp in Stamps(w'.q.ready) <==> s.mask != {} || Holders(w.held, s.stamp) != {}))
  {
    ReachInv(o, es, w);
    DoSweep(w, RegisterEvent(c));
    AwaitedKept(RegisterSweep, w.q.ready, d);
    AwaitedKept(RegisterSweep, w.q.ready, c);
    if c !in w.q.active {
      NothingAwaitsNew(w, c);
    }
    if s in w.q.ready {
      RegisterSweeps(w, c, s);
    }
  }

  lemma UnregisterGoes(w: World, c: Consumer, s: Slot)
    requires Inv(w) && s in w.q.ready
    ensures Goes(UnregisterSweep(c), s) <==>
      && Holders(w.held, s.stamp) == {} && Awaits(w.q.ready, c, s.stamp)
      && forall d: Consumer :: d != c ==> !Awaits(w.q.ready, d, s.stamp)
  {
    assert s.refCount == |Holders(w.held, s.stamp)|;
    forall d: Consumer ensures Awaits(w.q.ready, d, s.stamp) <==> s.Pending(d) {
      AwaitsIs(w.q.ready, s, d);
    }
    var t := Touch(UnregisterSweep(c), s);
    assert ReadyOk(s, w.q.active, w.clock, w.idle);
    if s.Pending(c) && t.mask != {} && !t.AllAccessed() {
      var d :| d in t.mask && d !in t.accessed;
      assert s.Pending(d) && d != c;
    }
    assert forall d: Consumer :: d != c && s.Pending(d) ==> d in t.mask && d !in t.accessed;
  }

  lemma UnregisterSweeps(w: World, c: Consumer, d: Consumer, s: Slot)
    requires Inv(w)
    ensures var ready := Unregister(w.q, c).q.ready;
      && Awaited(ready, d) == (if d == c then [] else Awaited(w.q.ready, d))
      && (s in w.q.ready ==> (s.stamp !in Stamps(ready) <==> Goes(UnregisterSweep(c), s)))
  {
    forall x | x in w.q.ready && Goes(UnregisterSweep(c), x)
      ensures !Touch(UnregisterSweep(c), x).Pending(d)
    {
      assert Touch(UnregisterSweep(c), x).mask == {} || Touch(UnregisterSweep(c), x).AllAccessed();
    }
    AwaitedKept(UnregisterSweep(c), w.q.ready, d);
    if s in w.q.ready {
      SweepLeaves(UnregisterSweep(c), w.q.ready, s);
    }
  }

  /** Unregistering always succeeds.  Nothing awaits the consumer any more; exactly the
      frames nobody holds that awaited it alone are removed, and the others wait as they
      did. */
  lemma UnregisterServes(o: Origin, es: seq<Event>, w: World, c: Consumer, d: Consumer, s: Slot)
    requires Reaches(o, es, w)
    ensures
      var w' := Do(w, UnregisterEvent(c));
      && Unregister(w.q, c).ok && w'.q.active == w.q.active - {c} && w'.q.enabled == w'.q.active
      && w'.held == w.held && w'.live == w.live
      && Awaited(w'.q.ready, d) == (if d == c then [] else Awaited(w.q.ready, d))
      && (s in w.q.ready ==>
            (s.stamp !in Stamps(w'.q.ready) <==>
              && Holders(w.held, s.stamp) == {} && Awaits(w.q.ready, c, s.stamp)
              && forall e: Consumer :: e != c ==> !Awaits(w.q.ready, e, s.stamp)))
  {
    ReachInv(o, es, w);
    DoSweep(w, UnregisterEvent(c));
    UnregisterSweeps(w, c, d, s);
    if s in w.q.ready {
      UnregisterGoes(w, c, s);
    }
  }

  // ----- clear_all -----

  lemma ClearSweeps(w: World, s: Slot)
    requires Inv(w) && s in w.q.ready
    ensures var ready := ClearReady(w.q).q.ready;
      && (s in ready <==> Holders(w.held, s.stamp) != {})
      && (s.stamp in Stamps(ready) <==> Holders(w.held, s.stamp) != {})
      && (s.stamp in Stamps(Gone(ClearSweep, w.q.ready)) <==> Holders(w.held, s.stamp) == {})
  {
    SweepLeaves(ClearSweep, w.q.ready, s);
    if !Goes(ClearSweep, s) {
      KeptHas(ClearSweep, w.q.ready, s);
    }
  }

  lemma DoClear(w: World)
    requires Sized(w) && w.q.count != 0
    ensures Do(w, ClearReadyEvent).fate == Retire(w.fate, Stamps(Gone(ClearSweep, w.q.ready)), Cleared)
  {
  }

  /** The first pass of clear_all removes exactly the frames nobody holds, whoever still
      waits for them. */
  lemma ClearServes(o: Origin, es: seq<Event>, w: World, s: Slot)
    requires Reaches(o, es, w) && s in w.q.ready
    ensures
      var w' := Do(w, ClearReadyEvent);
      && w'.held == w.held && w'.live == w.live
      && (s in w'.q.ready <==> Holders(w.held, s.stamp) != {})
      && (s.stamp in Stamps(w'.q.ready) <==> Holders(w.held, s.stamp) != {})
      && (Holders(w.held, s.stamp) == {} ==> s.stamp in w'.fate && w'.fate[s.stamp] == Cleared)
  {
    ReachInv(o, es, w);
    DoSweep(w, ClearReadyEvent);
    DoClear(w);
    ClearSweeps(w, s);
  }

  /** Hence nothing stays ready when nobody holds a frame. */
  lemma ClearedAreHeld(o: Origin, es: seq<Event>, w: World)
    requires Reaches(o, es, w)
    ensures var ready := Do(w, ClearReadyEvent).q.ready;
      && (forall s :: s in ready ==> s in w.q.ready && Holders(w.held, s.stamp) != {})
      && (w.held == {} ==> ready == [])
  {
    ReachInv(o, es, w);
    DoSweep(w, ClearReadyEvent);
    var ready := Do(w, ClearReadyEvent).q.ready;
    forall s | s in ready ensures s in w.q.ready && Holders(w.held, s.stamp) != {} {
      var x := KeptFrom(ClearSweep, w.q.ready, s);
      ClearSweeps(w, s);
    }
    assert ready != [] ==> ready[0] in ready;
  }

  /** A consumer holds buffer b. */
  ghost predicate Holds(held: set<Holding>, b: Buffer) {
    exists h :: h in held && h.buf == b
  }

  lemma ClearedBuffers(held: set<Holding>, ready: seq<Slot>, b: Buffer)
    requires Ordered(ready) && Counted(held, ready)
    requires forall s :: s in ready ==> Holders(held, s.stamp) != {}
    ensures Count(Carries(b), ready) > 0 <==> Holds(held, b)
  {
    CountPositive(Carries(b), ready);
    if Count(Carries(b), ready) > 0 {
      var s :| s in ready && s.frame == Some(b);
      var h :| h in Holders(held, s.stamp);
      var k := HolderSlot(held, ready, h);
      OrderedUnique(ready, s, ready[k]);
    }
    if Holds(held, b) {
      var h :| h in held && h.buf == b;
      var k := HolderSlot(held, ready, h);
      assert Matches(Carries(b), ready[k]);
    }
  }

  lemma EmptiedCarry(s: seq<Slot>, b: Buffer)
    ensures Count(Carries(b), Emptied(s)) == 0
    ensures forall x :: x in Emptied(s) ==> !x.inUse && x.frame == None
  {
    CountPositive(Carries(b), Emptied(s));
  }

  lemma LiveAfterClear(w: World, b: Buffer)
    requires Inv(w) && Count(Carries(b), w.q.free) == 0
    requires forall s :: s in w.q.ready ==> Holders(w.held, s.stamp) != {}
    ensures b in w.live <==> Holds(w.held, b) || Count(Carries(b), w.limbo) > 0
  {
    ClearedBuffers(w.held, w.q.ready, b);
    assert Owners(w, b) == if b in w.live then 1 else 0;
  }

  lemma DoClearFree(w: World)
    requires Sized(w) && w.q.count != 0
    ensures var w' := Do(w, ClearFreeEvent);
      && w'.q.free == Emptied(w.q.free) && w'.q.ready == w.q.ready && w'.held == w.held && w'.limbo == w.limbo
  {
  }

  /** clear_all leaves exactly what consumers hold or are just releasing: every other buffer
      is freed, those producers are filling included, and every other frame is gone. */
  lemma ClearAllLeavesHeld(o: Origin, es: seq<Event>, w: World, b: Buffer)
    requires Reaches(o, es, w)
    ensures
      var w' := Do(Do(w, ClearReadyEvent), ClearFreeEvent);
      && w'.held == w.held && w'.limbo == w.limbo
      && (b in w'.live <==> Holds(w.held, b) || Count(Carries(b), w.limbo) > 0)
      && (forall s :: s in w'.q.ready ==> Holders(w.held, s.stamp) != {})
      && (forall s :: s in w'.q.free ==> !s.inUse && s.frame == None)
  {
    var w1 := Do(w, ClearReadyEvent);
    ReachInv(o, es, w);
    StepInv(w, ClearReadyEvent);
    StepInv(w1, ClearFreeEvent);
    DoSweep(w, ClearReadyEvent);
    DoClearFree(w1);
    ClearedAreHeld(o, es, w);
    EmptiedCarry(w1.q.free, b);
    LiveAfterClear(Do(w1, ClearFreeEvent), b);
  }

}
