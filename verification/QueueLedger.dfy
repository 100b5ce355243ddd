/** Every operation balances: the buffers in the lists change by exactly what it
    took from the allocator and gave back. */
module QueueLedger {
  import opened Wrappers
  import opened QueueSpec
  import opened QueueLists

  /** How many nodes of the two lists carry buffer b. */
  function Carriers(b: Buffer, q: Queue): nat {
    Count(Carries(b), q.free) + Count(Carries(b), q.ready)
  }

  ghost predicate Balanced(b: Buffer, q: Queue, x: Effect) {
    Carriers(b, x.q) + multiset(x.freed)[b] == Carriers(b, q) + multiset(x.taken)[b]
  }

  /** The allocator's live buffers after an operation. */
  ghost function Ledger(live: set<Buffer>, e: Effect): set<Buffer> {
    (live + set b | b in e.taken) - set b | b in e.freed
  }

  /** An operation takes at most one buffer, a fresh one, and then gives none back. */
  ghost predicate Thrifty(live: set<Buffer>, x: Effect) {
    x.taken == [] || (|x.taken| == 1 && x.taken[0] !in live && x.freed == [])
  }

  /** Each live buffer is in exactly one node of the two lists. */
  ghost predicate Balances(q: Queue, live: set<Buffer>) {
    forall b :: Carriers(b, q) == if b in live then 1 else 0
  }

  lemma LedgerEntry(live: set<Buffer>, x: Effect, before: nat, after: nat, b: Buffer)
    requires Thrifty(live, x)
    requires before == if b in live then 1 else 0
    requires after + multiset(x.freed)[b] == before + multiset(x.taken)[b]
    ensures after == if b in Ledger(live, x) then 1 else 0
    ensures b in x.taken ==> b !in live
    ensures b in x.freed ==> b in live && multiset(x.freed)[b] == 1
  {
    assert b in x.freed <==> b in multiset(x.freed);
    assert x.taken != [] ==> x.taken == [x.taken[0]];
  }

  lemma LedgerBalances(q: Queue, x: Effect, live: set<Buffer>)
    requires Balances(q, live) && Thrifty(live, x)
    requires forall b :: Balanced(b, q, x)
    ensures Balances(x.q, Ledger(live, x))
    ensures forall b :: b in x.freed ==> b in live && multiset(x.freed)[b] == 1
  {
    forall b: Buffer
      ensures Carriers(b, x.q) == if b in Ledger(live, x) then 1 else 0
      ensures b in x.freed ==> b in live && multiset(x.freed)[b] == 1
    {
      assert Balanced(b, q, x);
      LedgerEntry(live, x, Carriers(b, q), Carriers(b, x.q), b);
    }
  }

  lemma SweepBalance(b: Buffer, op: Sweep, q: Queue)
    ensures Carriers(b, SweepReady(op, q)) == Carriers(b, q)
  {
    SweepCount(b, op, q.ready);
    CountConcat(Carries(b), q.free, Gone(op, q.ready));
  }

  lemma RegisterBalance(b: Buffer, q: Queue, c: Consumer)
    ensures Balanced(b, q, Register(q, c))
  {
    SweepBalance(b, RegisterSweep, q.(active := q.active + {c}, enabled := q.enabled + {c}));
  }

  lemma UnregisterBalance(b: Buffer, q: Queue, c: Consumer)
    ensures Balanced(b, q, Unregister(q, c))
  {
    SweepBalance(b, UnregisterSweep(c), q.(active := q.active - {c}, enabled := q.enabled - {c}));
  }

  lemma ClearReadyBalance(b: Buffer, q: Queue)
    ensures Balanced(b, q, ClearReady(q))
  {
    SweepBalance(b, ClearSweep, q);
  }

  lemma ClearFreeBalance(b: Buffer, q: Queue)
    ensures Balanced(b, q, ClearFree(q))
  {
    FramesCount(b, q.free);
    CountPositive(Carries(b), Emptied(q.free));
  }

  lemma SelectBalance(b: Buffer, q: Queue)
    ensures Select(q).Some? ==> Carriers(b, Select(q).value.0) == Carriers(b, q)
  {
    var i := First(Idle, q.free);
    if i < |q.free| {
      CountUpdate(Carries(b), q.free, i, q.free[i].(inUse := true));
    } else if q.format != H264 && First(Unheld, q.ready) < |q.ready| {
      var j := First(Unheld, q.ready);
      CountRemove(Carries(b), q.ready, j);
      CountConcat(Carries(b), [q.ready[j].(inUse := true)], q.free);
      CountOne(Carries(b), q.ready[j].(inUse := true));
    }
  }

  lemma FillBalance(b: Buffer, q: Queue, i: nat, alloc: Option<Buffer>)
    requires i < |q.free|
    ensures Balanced(b, q, Fill(q, i, alloc))
  {
    CountUpdate(Carries(b), q.free, i, Fill(q, i, alloc).q.free[i]);
  }

  lemma MallocBalance(b: Buffer, q: Queue, alloc: Option<Buffer>)
    ensures Balanced(b, q, Malloc(q, alloc))
  {
    SelectBalance(b, q);
    if Select(q).Some? {
      FillBalance(b, Select(q).value.0, Select(q).value.1, alloc);
    }
  }

  lemma CompleteBalance(b: Buffer, q: Queue, d: Buffer, stamp: nat)
    ensures Balanced(b, q, Complete(q, d, stamp))
  {
    var i := First(LentOut(d), q.free);
    if q.count != 0 && i < |q.free| {
      CountRemove(Carries(b), q.free, i);
      CountSnoc(Carries(b), q.ready, q.free[i].(inUse := false, accessed := {}, mask := q.active, stamp := stamp));
    }
  }

  lemma CancelBalance(b: Buffer, q: Queue, d: Buffer)
    ensures Balanced(b, q, Cancel(q, d))
  {
    var i := First(LentOut(d), q.free);
    if i < |q.free| {
      CountUpdate(Carries(b), q.free, i, q.free[i].(frame := None, inUse := false));
    }
  }

  lemma GetBalance(b: Buffer, q: Queue, c: Consumer)
    ensures Balanced(b, q, Get(q, c))
  {
    var i := First(PendingFor(c), q.ready);
    if i < |q.ready| {
      var s := q.ready[i];
      CountUpdate(Carries(b), q.ready, i, s.(refCount := s.refCount + 1, accessed := s.accessed + {c}));
    }
  }

  lemma UnlinkBalance(b: Buffer, q: Queue, d: Buffer)
    ensures var (q', last) := Unlink(q, d);
            Carriers(b, q') + (if last.Some? then One(Carries(b), last.value) else 0) == Carriers(b, q)
  {
    var i := First(Carries(d), q.ready);
    if i < |q.ready| {
      var s := q.ready[i];
      CountRemove(Carries(b), q.ready, i);
      CountUpdate(Carries(b), q.ready, i, s.(refCount := if s.refCount > 0 then s.refCount - 1 else 0));
    }
  }

  lemma ReclaimBalance(b: Buffer, q: Queue, s: Slot)
    ensures var x := Reclaim(q, s);
            Carriers(b, x.q) == Carriers(b, q) && multiset(x.freed)[b] == One(Carries(b), s)
  {
    CountSnoc(Carries(b), q.free, s.Reset().(frame := None));
  }

  lemma ReleaseBalance(b: Buffer, q: Queue, d: Buffer)
    ensures Balanced(b, q, Release(q, d))
  {
    UnlinkBalance(b, q, d);
    var (q', last) := Unlink(q, d);
    if last.Some? {
      ReclaimBalance(b, q', last.value);
    }
  }

  /** deinit gives back every buffer the lists carry, each as often as carried. */
  lemma DeinitBalance(b: Buffer, q: Queue)
    requires q.count != 0
    ensures multiset(Deinit(q).freed)[b] == Carriers(b, q)
  {
    FramesCount(b, q.free);
    FramesCount(b, q.ready);
  }

  // ----- what each operation does to the allocator's live buffers -----

  lemma MallocLedger(q: Queue, live: set<Buffer>, alloc: Option<Buffer>)
    requires Balances(q, live) && (alloc.Some? ==> alloc.value !in live)
    ensures var x := Malloc(q, alloc); Balances(x.q, Ledger(live, x))
  {
    forall b: Buffer ensures Balanced(b, q, Malloc(q, alloc)) {
      MallocBalance(b, q, alloc);
    }
    LedgerBalances(q, Malloc(q, alloc), live);
  }

  lemma CompleteLedger(q: Queue, live: set<Buffer>, d: Buffer, stamp: nat)
    requires Balances(q, live)
    ensures Balances(Complete(q, d, stamp).q, live)
  {
    forall b: Buffer ensures Balanced(b, q, Complete(q, d, stamp)) {
      CompleteBalance(b, q, d, stamp);
    }
    LedgerBalances(q, Complete(q, d, stamp), live);
    assert Ledger(live, Complete(q, d, stamp)) == live;
  }

  lemma CancelLedger(q: Queue, live: set<Buffer>, d: Buffer)
    requires Balances(q, live)
    ensures var x := Cancel(q, d); Balances(x.q, Ledger(live, x)) && (x.ok ==> d in live)
    ensures var x := Cancel(q, d); Ledger(live, x) == if x.ok then live - {d} else live
  {
    forall b: Buffer ensures Balanced(b, q, Cancel(q, d)) {
      CancelBalance(b, q, d);
    }
    LedgerBalances(q, Cancel(q, d), live);
  }

  lemma GetLedger(q: Queue, live: set<Buffer>, c: Consumer)
    requires Balances(q, live)
    ensures Balances(Get(q, c).q, live)
  {
    forall b: Buffer ensures Balanced(b, q, Get(q, c)) {
      GetBalance(b, q, c);
    }
    LedgerBalances(q, Get(q, c), live);
    assert Ledger(live, Get(q, c)) == live;
  }

  lemma ReleaseLedger(q: Queue, live: set<Buffer>, d: Buffer)
    requires Balances(q, live)
    ensures var x := Release(q, d); Balances(x.q, Ledger(live, x)) && forall b :: b in x.freed ==> b in live
    ensures var x := Release(q, d); Ledger(live, x) == live - set b | b in x.freed
  {
    forall b: Buffer ensures Balanced(b, q, Release(q, d)) {
      ReleaseBalance(b, q, d);
    }
    LedgerBalances(q, Release(q, d), live);
  }

  /** The first part of release takes the buffer of the node it unlinks off the lists. */
  lemma UnlinkLedger(q: Queue, live: set<Buffer>, d: Buffer)
    requires Balances(q, live)
    ensures match Unlink(q, d)
      case (q', None) => Balances(q', live)
      case (q', Some(s)) => s.frame == Some(d) && d in live && Balances(q', live - {d})
  {
    var (q', last) := Unlink(q, d);
    if last.Some? {
      CountPositive(Carries(d), q.ready);
      assert q.ready[First(Carries(d), q.ready)] in q.ready;
      assert Carriers(d, q) > 0;
    }
    forall b: Buffer
      ensures Carriers(b, q') == if b in (if last.Some? then live - {d} else live) then 1 else 0
    {
      UnlinkBalance(b, q, d);
    }
  }

  /** The second part puts back a node without a buffer. */
  lemma ReclaimLedger(q: Queue, live: set<Buffer>, s: Slot)
    requires Balances(q, live)
    ensures Balances(Reclaim(q, s).q, live)
  {
    forall b: Buffer
      ensures Carriers(b, Reclaim(q, s).q) == if b in live then 1 else 0
    {
      ReclaimBalance(b, q, s);
    }
  }

  lemma RegisterLedger(q: Queue, live: set<Buffer>, c: Consumer)
    requires Balances(q, live)
    ensures Balances(Register(q, c).q, live)
  {
    forall b: Buffer ensures Balanced(b, q, Register(q, c)) {
      RegisterBalance(b, q, c);
    }
    LedgerBalances(q, Register(q, c), live);
    assert Ledger(live, Register(q, c)) == live;
  }

  lemma UnregisterLedger(q: Queue, live: set<Buffer>, c: Consumer)
    requires Balances(q, live)
    ensures Balances(Unregister(q, c).q, live)
  {
    forall b: Buffer ensures Balanced(b, q, Unregister(q, c)) {
      UnregisterBalance(b, q, c);
    }
    LedgerBalances(q, Unregister(q, c), live);
    assert Ledger(live, Unregister(q, c)) == live;
  }

  lemma ClearReadyLedger(q: Queue, live: set<Buffer>)
    requires Balances(q, live)
    ensures Balances(SweepReady(ClearSweep, q), live)
  {
    forall b: Buffer ensures Carriers(b, SweepReady(ClearSweep, q)) == if b in live then 1 else 0 {
      SweepBalance(b, ClearSweep, q);
    }
  }

  lemma EmptiedStep(s: seq<Slot>, i: nat)
    requires i < |s|
    ensures var t := Emptied(s[..i]) + s[i..];
      && |t| == |s| && t[i] == s[i]
      && t[i := s[i].(inUse := false, frame := None)] == Emptied(s[..i + 1]) + s[i + 1..]
  {
  }

  /** Emptying a free node settles its account. */
  lemma EmptyLedger(q: Queue, live: set<Buffer>, i: nat)
    requires Balances(q, live) && i < |q.free|
    ensures var s := q.free[i];
      && (s.frame.Some? ==> s.frame.value in live)
      && Balances(q.(free := q.free[i := s.(inUse := false, frame := None)]),
                  if s.frame.Some? then live - {s.frame.value} else live)
  {
    var s := q.free[i];
    var q' := q.(free := q.free[i := s.(inUse := false, frame := None)]);
    if s.frame.Some? {
      assert s in q.free;
      CountPositive(Carries(s.frame.value), q.free);
      assert Carriers(s.frame.value, q) > 0;
    }
    forall b: Buffer ensures Carriers(b, q') + (if s.frame == Some(b) then 1 else 0) == Carriers(b, q) {
      CountUpdate(Carries(b), q.free, i, s.(inUse := false, frame := None));
    }
  }

  /** Popping the head of a list and freeing its buffer does so too. */
  lemma PopLedger(q: Queue, live: set<Buffer>, fromFree: bool)
    requires Balances(q, live) && (if fromFree then q.free else q.ready) != []
    ensures var s := (if fromFree then q.free else q.ready)[0];
      && (s.frame.Some? ==> s.frame.value in live)
      && Balances(if fromFree then q.(free := q.free[1..]) else q.(ready := q.ready[1..]),
                  if s.frame.Some? then live - {s.frame.value} else live)
  {
    var l := if fromFree then q.free else q.ready;
    var s := l[0];
    var q' := if fromFree then q.(free := q.free[1..]) else q.(ready := q.ready[1..]);
    if s.frame.Some? {
      assert s in l;
      CountPositive(Carries(s.frame.value), l);
      assert Carriers(s.frame.value, q) > 0;
    }
    forall b: Buffer ensures Carriers(b, q') + (if s.frame == Some(b) then 1 else 0) == Carriers(b, q) {
      CountRemove(Carries(b), l, 0);
      assert RemoveAt(l, 0) == l[1..];
    }
  }

  lemma NoneLive(q: Queue, live: set<Buffer>)
    requires Balances(q, live) && q.free == [] && q.ready == []
    ensures live == {}
  {
    forall b: Buffer ensures b !in live {
      assert Carriers(b, q) == 0;
    }
  }

  /** The books determine which buffers are live after clear_all. */
  lemma SameLive(q: Queue, live: set<Buffer>, live': set<Buffer>)
    requires Balances(q, live) && q.count != 0 && Balances(ClearAll(q).q, live')
    ensures live' == Ledger(live, ClearAll(q)) && forall b :: b in ClearAll(q).freed ==> b in live
  {
    var r := ClearReady(q).q;
    ClearReadyLedger(q, live);
    forall b: Buffer ensures Balanced(b, r, ClearFree(r)) {
      ClearFreeBalance(b, r);
    }
    LedgerBalances(r, ClearFree(r), live);
    forall b: Buffer ensures b in live' <==> b in Ledger(live, ClearFree(r)) {
      assert Carriers(b, ClearFree(r).q) == if b in live' then 1 else 0;
    }
  }

  lemma NoneCarried(q: Queue)
    requires q.free == [] && q.ready == []
    ensures Balances(q, {})
  {
  }

  lemma EmptiedEnds(s: seq<Slot>)
    ensures Emptied(s[..0]) + s[0..] == s
    ensures Emptied(s[..|s|]) + s[|s|..] == Emptied(s)
  {
    assert s[..|s|] == s;
  }
}
