/** Facts about the lists of the frame queue that several invariants need. */
module QueueLists {
  import opened QueueSpec

  // ----- counting -----

  function One(q: Query, s: Slot): nat {
    if Matches(q, s) then 1 else 0
  }

  /** How many nodes of a list match a query. */
  function Count(q: Query, s: seq<Slot>): nat {
    if s == [] then 0 else Count(q, s[..|s| - 1]) + One(q, s[|s| - 1])
  }

  lemma {:induction false} CountConcat(q: Query, s: seq<Slot>, t: seq<Slot>)
    ensures Count(q, s + t) == Count(q, s) + Count(q, t)
  {
    if t == [] {
      assert s + t == s;
    } else {
      var n := |t| - 1;
      CountConcat(q, s, t[..n]);
      assert (s + t)[..|s| + n] == s + t[..n];
    }
  }

  lemma CountOne(q: Query, s: Slot)
    ensures Count(q, [s]) == One(q, s)
  {
    assert Count(q, [s][..0]) == 0;
  }

  lemma CountSnoc(q: Query, s: seq<Slot>, x: Slot)
    ensures Count(q, s + [x]) == Count(q, s) + One(q, x)
  {
    assert (s + [x])[..|s|] == s;
  }

  lemma CountSplit(q: Query, s: seq<Slot>, i: nat)
    requires i < |s|
    ensures Count(q, s) == Count(q, s[..i]) + One(q, s[i]) + Count(q, s[i + 1..])
  {
    assert s == (s[..i] + [s[i]]) + s[i + 1..];
    CountConcat(q, s[..i] + [s[i]], s[i + 1..]);
    CountConcat(q, s[..i], [s[i]]);
    CountOne(q, s[i]);
  }

  lemma CountUpdate(q: Query, s: seq<Slot>, i: nat, x: Slot)
    requires i < |s|
    ensures Count(q, s[i := x]) + One(q, s[i]) == Count(q, s) + One(q, x)
  {
    CountSplit(q, s, i);
    CountSplit(q, s[i := x], i);
    assert s[i := x][..i] == s[..i];
    assert s[i := x][i + 1..] == s[i + 1..];
  }

  lemma CountRemove(q: Query, s: seq<Slot>, i: nat)
    requires i < |s|
    ensures Count(q, RemoveAt(s, i)) + One(q, s[i]) == Count(q, s)
  {
    CountSplit(q, s, i);
    CountConcat(q, s[..i], s[i + 1..]);
  }

  /** A sublist has no more matches. */
  lemma {:induction false} CountWithin(q: Query, s: seq<Slot>, t: seq<Slot>)
    requires multiset(s) <= multiset(t)
    ensures Count(q, s) <= Count(q, t)
    decreases |s|
  {
    if s != [] {
      var n := |s| - 1;
      assert s == s[..n] + [s[n]];
      assert s[n] in multiset(s) && s[n] in multiset(t);
      var i :| 0 <= i < |t| && t[i] == s[n];
      assert t == t[..i] + [t[i]] + t[i + 1..];
      assert multiset(RemoveAt(t, i)) == multiset(t) - multiset{t[i]};
      CountWithin(q, s[..n], RemoveAt(t, i));
      CountRemove(q, t, i);
    }
  }

  lemma {:induction false} CountPositive(q: Query, s: seq<Slot>)
    ensures Count(q, s) > 0 <==> exists x :: x in s && Matches(q, x)
  {
    if s != [] {
      var n := |s| - 1;
      CountPositive(q, s[..n]);
      assert s == s[..n] + [s[n]];
    }
  }

  /** Two nodes that match are counted twice. */
  lemma CountTwice(q: Query, s: seq<Slot>, i: nat, j: nat)
    requires i < j < |s| && Matches(q, s[i]) && Matches(q, s[j])
    ensures Count(q, s) >= 2
  {
    CountSplit(q, s, i);
    CountPositive(q, s[i + 1..]);
    assert s[i + 1..][j - i - 1] == s[j];
  }

  /** The list of buffers has each buffer as often as the nodes carry it. */
  lemma {:induction false} FramesCount(b: Buffer, s: seq<Slot>)
    ensures multiset(Frames(s))[b] == Count(Carries(b), s)
    ensures b in Frames(s) <==> Count(Carries(b), s) > 0
  {
    if s != [] {
      FramesCount(b, s[..|s| - 1]);
    }
  }

  lemma {:induction false} CountBound(q: Query, s: seq<Slot>)
    ensures Count(q, s) <= |s|
    ensures Count(q, s) == |s| <==> forall x :: x in s ==> Matches(q, x)
  {
    if s != [] {
      var n := |s| - 1;
      CountBound(q, s[..n]);
      assert s == s[..n] + [s[n]];
    }
  }

  /** Nodes in the hands of producers. */
  function Lent(s: seq<Slot>): nat {
    CountBound(Idle, s);
    |s| - Count(Idle, s)
  }

  // ----- sweeps -----

  /** One more step of a sweep. */
  lemma SweepStep(op: Sweep, s: seq<Slot>, x: Slot)
    ensures Kept(op, s + [x]) == if Goes(op, x) then Kept(op, s) else Kept(op, s) + [Touch(op, x)]
    ensures Gone(op, s + [x]) == if Goes(op, x) then Gone(op, s) + [Touch(op, x).Reset()] else Gone(op, s)
  {
    assert (s + [x])[..|s|] == s;
  }

  /** A sweep neither duplicates nor loses a buffer. */
  lemma {:induction false} SweepCount(b: Buffer, op: Sweep, s: seq<Slot>)
    ensures Count(Carries(b), Kept(op, s)) + Count(Carries(b), Gone(op, s)) == Count(Carries(b), s)
  {
    if s != [] {
      var t, x := s[..|s| - 1], s[|s| - 1];
      assert s == t + [x];
      SweepCount(b, op, t);
      SweepStep(op, t, x);
      CountSnoc(Carries(b), t, x);
      if Goes(op, x) {
        CountSnoc(Carries(b), Gone(op, t), Touch(op, x).Reset());
      } else {
        CountSnoc(Carries(b), Kept(op, t), Touch(op, x));
      }
    }
  }

  lemma {:induction false} SweepLength(op: Sweep, s: seq<Slot>)
    ensures |Kept(op, s)| + |Gone(op, s)| == |s|
  {
    if s != [] {
      SweepLength(op, s[..|s| - 1]);
    }
  }

  /** Every node a sweep keeps was visited, written and not removed. */
  lemma {:induction false} KeptFrom(op: Sweep, s: seq<Slot>, y: Slot) returns (x: Slot)
    requires y in Kept(op, s)
    ensures x in s && y == Touch(op, x) && !Goes(op, x)
  {
    var n := |s| - 1;
    if y in Kept(op, s[..n]) {
      x := KeptFrom(op, s[..n], y);
    } else {
      x := s[n];
    }
  }

  lemma {:induction false} KeptHas(op: Sweep, s: seq<Slot>, x: Slot)
    requires x in s && !Goes(op, x)
    ensures Touch(op, x) in Kept(op, s)
  {
    var n := |s| - 1;
    if x in s[..n] {
      KeptHas(op, s[..n], x);
    } else {
      assert x == s[n];
    }
  }

  lemma {:induction false} GoneFrom(op: Sweep, s: seq<Slot>, y: Slot) returns (x: Slot)
    requires y in Gone(op, s)
    ensures x in s && y == Touch(op, x).Reset() && Goes(op, x)
  {
    var n := |s| - 1;
    if y in Gone(op, s[..n]) {
      x := GoneFrom(op, s[..n], y);
    } else {
      x := s[n];
    }
  }

  lemma {:induction false} GoneHas(op: Sweep, s: seq<Slot>, x: Slot)
    requires x in s && Goes(op, x)
    ensures Touch(op, x).Reset() in Gone(op, s)
  {
    var n := |s| - 1;
    if x in s[..n] {
      GoneHas(op, s[..n], x);
    } else {
      assert x == s[n];
    }
  }

  // ----- completion order -----

  /** The nodes of a list were completed in the order of the list. */
  ghost predicate Ordered(s: seq<Slot>) {
    forall i, j :: 0 <= i < j < |s| ==> s[i].stamp < s[j].stamp
  }

  ghost function Stamps(s: seq<Slot>): set<nat> {
    set x | x in s :: x.stamp
  }

  lemma OrderedUnique(s: seq<Slot>, x: Slot, y: Slot)
    requires Ordered(s) && x in s && y in s && x.stamp == y.stamp
    ensures x == y
  {
    var i :| 0 <= i < |s| && s[i] == x;
    var j :| 0 <= j < |s| && s[j] == y;
    assert i == j;
  }

  /** A sweep is an order-preserving filter. */
  lemma {:induction false} KeptOrdered(op: Sweep, s: seq<Slot>)
    requires Ordered(s)
    ensures Ordered(Kept(op, s))
  {
    if s != [] {
      var n := |s| - 1;
      KeptOrdered(op, s[..n]);
      var k := Kept(op, s[..n]);
      forall i | 0 <= i < |k| ensures k[i].stamp < s[n].stamp {
        var x := KeptFrom(op, s[..n], k[i]);
        var m :| 0 <= m < n && s[m] == x;
      }
    }
  }

  /** The stamps of a list are split between what a sweep keeps and what it removes. */
  lemma SweepStamps(op: Sweep, s: seq<Slot>)
    requires Ordered(s)
    ensures Stamps(Kept(op, s)) + Stamps(Gone(op, s)) == Stamps(s)
    ensures Stamps(Kept(op, s)) !! Stamps(Gone(op, s))
  {
    forall t | t in Stamps(s) ensures t in Stamps(Kept(op, s)) + Stamps(Gone(op, s)) {
      var x :| x in s && x.stamp == t;
      if Goes(op, x) {
        GoneHas(op, s, x);
        assert Touch(op, x).Reset().stamp == t;
      } else {
        KeptHas(op, s, x);
        assert Touch(op, x).stamp == t;
      }
    }
    forall t | t in Stamps(Kept(op, s)) ensures t in Stamps(s) && t !in Stamps(Gone(op, s)) {
      var y :| y in Kept(op, s) && y.stamp == t;
      var x := KeptFrom(op, s, y);
      if t in Stamps(Gone(op, s)) {
        var y' :| y' in Gone(op, s) && y'.stamp == t;
        var x' := GoneFrom(op, s, y');
        OrderedUnique(s, x, x');
      }
    }
    forall t | t in Stamps(Gone(op, s)) ensures t in Stamps(s) {
      var y :| y in Gone(op, s) && y.stamp == t;
      var x := GoneFrom(op, s, y);
    }
  }

  lemma RemoveMembers(s: seq<Slot>, i: nat)
    requires i < |s|
    ensures forall x :: x in s ==> x in RemoveAt(s, i) || x == s[i]
    ensures forall x :: x in RemoveAt(s, i) ==> exists k :: 0 <= k < |s| && k != i && s[k] == x
  {
    var r := RemoveAt(s, i);
    assert s == s[..i] + [s[i]] + s[i + 1..];
    forall x | x in r ensures exists k :: 0 <= k < |s| && k != i && s[k] == x {
      var k :| 0 <= k < |r| && r[k] == x;
      assert s[if k < i then k else k + 1] == x;
    }
  }

  lemma RemoveOrdered(s: seq<Slot>, i: nat)
    requires i < |s| && Ordered(s)
    ensures Ordered(RemoveAt(s, i))
    ensures Stamps(RemoveAt(s, i)) == Stamps(s) - {s[i].stamp}
  {
    RemoveMembers(s, i);
    var r := RemoveAt(s, i);
    forall t ensures t in Stamps(r) <==> t in Stamps(s) && t != s[i].stamp {
      if t in Stamps(r) {
        var x :| x in r && x.stamp == t;
        var k :| 0 <= k < |s| && k != i && s[k] == x;
      }
      if t in Stamps(s) && t != s[i].stamp {
        var x :| x in s && x.stamp == t;
        assert x in r;
      }
    }
  }

  lemma UpdateMembers(s: seq<Slot>, i: nat, x: Slot)
    requires i < |s|
    ensures forall y :: y in s[i := x] ==> y in s || y == x
    ensures forall y :: y in s ==> y in s[i := x] || y == s[i]
    ensures x in s[i := x] && s[i] in s
  {
    var r := s[i := x];
    forall y | y in r ensures y in s || y == x {
      var k :| 0 <= k < |r| && r[k] == y;
    }
    forall y | y in s ensures y in r || y == s[i] {
      var k :| 0 <= k < |s| && s[k] == y;
      assert k != i ==> r[k] == y;
    }
    assert r[i] == x;
  }

  lemma UpdateStamps(s: seq<Slot>, i: nat, x: Slot)
    requires i < |s| && Ordered(s) && x.stamp == s[i].stamp
    ensures Ordered(s[i := x]) && Stamps(s[i := x]) == Stamps(s)
  {
    var r := s[i := x];
    assert forall k :: 0 <= k < |s| ==> r[k].stamp == s[k].stamp;
    forall t | t in Stamps(s) ensures t in Stamps(r) {
      var k :| 0 <= k < |s| && s[k].stamp == t;
      assert r[k] in r;
    }
    forall t | t in Stamps(r) ensures t in Stamps(s) {
      var k :| 0 <= k < |r| && r[k].stamp == t;
      assert s[k] in s;
    }
  }
}
