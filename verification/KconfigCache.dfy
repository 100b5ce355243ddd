/** Symbol objects with their caches, and the methods that read, assign and invalidate
    them. */
module KconfigCache {
  import opened Wrappers
  import opened KconfigExpr
  import opened KconfigSymbols
  import opened KconfigValues

  /** The fields of a symbol that change after the Kconfig files have been read. */
  class Symbol {
    ghost const id: SymId
    const isSpecial: bool
    var userVal: Option<string>
    var cachedVal: Option<string>
    var cachedVisibility: Option<Tri>
    var cachedDeps: Option<set<SymId>>
    var dep: set<SymId>

    constructor (ghost id: SymId, special: Option<string>)
      ensures this.id == id && isSpecial == special.Some? && userVal == None && cachedVal == special
      ensures cachedVisibility == None && cachedDeps == None && dep == {}
    {
      this.id, isSpecial := id, special.Some?;
      userVal, cachedVal, cachedVisibility, cachedDeps, dep := None, special, None, None, {};
    }

    method Invalidate()
      modifies this`cachedVal, this`cachedVisibility
      ensures if isSpecial then cachedVal == old(cachedVal) && cachedVisibility == old(cachedVisibility)
              else cachedVal == None && cachedVisibility == None
    {
      if isSpecial { return; }
      cachedVal := None;
      cachedVisibility := None;
    }
  }

  datatype Cache = Cache(val: Option<string>, vis: Option<Tri>)

  /** A cached value is what a computation without caches gives. The visibility of a
      special symbol, once cached, is never cleared: it is frozen. */
  ghost predicate IsRight(
    c: Config, rank: seq<nat>, users: Users, i: SymId, x: Cache, frozen: Option<Tri>)
    requires Sound(c, rank, users) && i < |c.syms|
  {
    && (x.val.Some? ==> x.val.value == Value(c, rank, users, i))
    && (c.syms[i].special.Some? ==> x.val.Some? && x.vis == frozen)
    && (c.syms[i].special.None? && x.vis.Some? ==> x.vis.value == VisibilityOf(c, rank, users, i))
  }

  ghost predicate AreRight(
    c: Config, rank: seq<nat>, users: Users, frozen: seq<Option<Tri>>, caches: seq<Cache>)
    requires Sound(c, rank, users)
  {
    && |caches| == |frozen| == |c.syms|
    && forall i :: 0 <= i < |caches| ==> IsRight(c, rank, users, i, caches[i], frozen[i])
  }

  /** The caches of the symbols of `us` are cleared, unless special; all others are kept. */
  predicate Cleared(c: Config, before: seq<Cache>, us: set<SymId>, after: seq<Cache>) {
    && |before| == |after| == |c.syms|
    && forall i :: 0 <= i < |after| ==>
         after[i] == if i in us && c.syms[i].special.None? then Cache(None, None) else before[i]
  }

  lemma ClearedTwice(
    c: Config, before: seq<Cache>, us: set<SymId>, between: seq<Cache>, vs: set<SymId>, after: seq<Cache>)
    requires Cleared(c, before, us, between) && Cleared(c, between, vs, after)
    ensures Cleared(c, before, vs + us, after)
  {
  }

  lemma UntouchedIsRight(
    c: Config, rank: seq<nat>, users: Users, s: SymId, v: Option<string>, i: SymId, x: Cache, frozen: Option<Tri>)
    requires Sound(c, rank, users) && s < |c.syms| && Sound(c, rank, users[s := v])
    requires On(c, rank, users) == On(c, rank, users[s := v])
    requires Untouched(c, rank, s, i) && IsRight(c, rank, users, i, x, frozen)
    ensures IsRight(c, rank, users[s := v], i, x, frozen)
  {
    ValueUntouched(c, rank, users, s, v, i);
    VisibilityUntouched(c, rank, users, s, v, i);
  }

  /** Clearing s and its dependents is enough unless modules are enabled or disabled. */
  lemma ClearedAreRight(
    c: Config, rank: seq<nat>, users: Users, s: SymId, v: Option<string>, frozen: seq<Option<Tri>>,
    before: seq<Cache>, after: seq<Cache>)
    requires Sound(c, rank, users) && s < |c.syms| && Sound(c, rank, users[s := v])
    requires On(c, rank, users) == On(c, rank, users[s := v])
    requires AreRight(c, rank, users, frozen, before) && Cleared(c, before, Dependents(c, rank, s) + {s}, after)
    ensures AreRight(c, rank, users[s := v], frozen, after)
  {
    forall i | 0 <= i < |after|
      ensures IsRight(c, rank, users[s := v], i, after[i], frozen[i])
    {
      assert IsRight(c, rank, users, i, before[i], frozen[i]);
      if Untouched(c, rank, s, i) {
        UntouchedIsRight(c, rank, users, s, v, i, before[i], frozen[i]);
      }
    }
  }

  function UpTo(k: nat): (us: set<SymId>)
    ensures forall i: SymId :: i in us <==> i < k
  {
    if k == 0 then {} else UpTo(k - 1) + {k - 1}
  }

  lemma AllClearedAreRight(
    c: Config, rank: seq<nat>, users: Users, users': Users, frozen: seq<Option<Tri>>,
    before: seq<Cache>, after: seq<Cache>)
    requires Sound(c, rank, users) && Sound(c, rank, users')
    requires AreRight(c, rank, users, frozen, before) && Cleared(c, before, UpTo(|c.syms|), after)
    ensures AreRight(c, rank, users', frozen, after)
  {
    forall i | 0 <= i < |after|
      ensures IsRight(c, rank, users', i, after[i], frozen[i])
    {
      assert IsRight(c, rank, users, i, before[i], frozen[i]);
    }
  }

  // ----- the symbols a definition refers to, loop by loop -----

  predicate InPrompts(d: SymDef, j: nat, u: SymId)
    requires j <= |d.prompts|
  {
    exists i :: 0 <= i < j && u in OptSyms(d.prompts[i])
  }

  predicate InDefaults(d: SymDef, j: nat, u: SymId)
    requires j <= |d.defaults|
  {
    exists i :: 0 <= i < j && u in DefaultSyms(d.defaults[i])
  }

  predicate InRanges(d: SymDef, j: nat, u: SymId)
    requires j <= |d.ranges|
  {
    exists i :: 0 <= i < j && u in RangeSyms(d.ranges[i])
  }

  function ReadSet(c: Config, s: SymId): set<SymId>
    requires s < |c.syms|
  {
    set u: SymId | 0 <= u < |c.syms| && ReadsSym(c.syms[s], u)
  }

  function PromptSet(c: Config, s: SymId): set<SymId>
    requires s < |c.syms|
  {
    set u: SymId | 0 <= u < |c.syms| && InPrompts(c.syms[s], |c.syms[s].prompts|, u)
  }

  function DefaultSet(c: Config, s: SymId): set<SymId>
    requires s < |c.syms|
  {
    set u: SymId | 0 <= u < |c.syms| && InDefaults(c.syms[s], |c.syms[s].defaults|, u)
  }

  function RangeSet(c: Config, s: SymId): set<SymId>
    requires s < |c.syms|
  {
    set u: SymId | 0 <= u < |c.syms| && InRanges(c.syms[s], |c.syms[s].ranges|, u)
  }

  lemma ReadSetIs(c: Config, rank: seq<nat>, s: SymId)
    requires Ranked(c, rank) && s < |c.syms|
    ensures forall u: SymId :: InPrompts(c.syms[s], |c.syms[s].prompts|, u) ==> u < |c.syms|
    ensures forall u: SymId :: InDefaults(c.syms[s], |c.syms[s].defaults|, u) ==> u < |c.syms|
    ensures forall u: SymId :: InRanges(c.syms[s], |c.syms[s].ranges|, u) ==> u < |c.syms|
    ensures ReadSet(c, s) == PromptSet(c, s) + DefaultSet(c, s) + Syms(c.syms[s].revDep) + RangeSet(c, s)
  {
    var d := c.syms[s];
    forall u: SymId | InPrompts(d, |d.prompts|, u) || InDefaults(d, |d.defaults|, u)
                      || u in Syms(d.revDep) || InRanges(d, |d.ranges|, u)
      ensures u in ReadSet(c, s)
    {
      RankedReads(c, rank, s, u);
    }
  }

  /** sym was added to the dep sets of the symbols of `us`, and nothing else changed. */
  predicate Marked(before: seq<set<SymId>>, us: set<SymId>, sym: SymId, after: seq<set<SymId>>) {
    && |before| == |after|
    && forall k :: 0 <= k < |after| ==> after[k] == before[k] + if k in us then {sym} else {}
  }

  lemma MarkedNone(before: seq<set<SymId>>, sym: SymId)
    ensures Marked(before, {}, sym, before)
  {
  }

  lemma MarkedTwice(
    before: seq<set<SymId>>, us: set<SymId>, sym: SymId,
    mid: seq<set<SymId>>, vs: set<SymId>, after: seq<set<SymId>>)
    requires Marked(before, us, sym, mid) && Marked(mid, vs, sym, after)
    ensures Marked(before, us + vs, sym, after)
  {
  }

  function DepBelow(c: Config, s: SymId, n: nat): set<SymId> {
    set t: SymId | 0 <= t < |c.syms| && ReadsSym(c.syms[t], s) && t < n
  }

  lemma DepBelowNext(c: Config, s: SymId, n: nat)
    requires s < |c.syms| && n < |c.syms|
    ensures DepBelow(c, s, n + 1) == DepBelow(c, s, n) + if s in ReadSet(c, n) then {n} else {}
  {
  }

  /** The user values after set_user_value. */
  function Assign(c: Config, users: Users, s: SymId, v: string): Users
    requires s < |c.syms| == |users|
  {
    if Assignable(c, s, v) then users[s := Some(v)] else users
  }

  // ----- what a session answers -----

  datatype Op = Get(s: SymId) | Vis(s: SymId) | Set(s: SymId, v: string) | Unset(s: SymId)

  /** The user values, and the visibilities of special symbols that were asked for. */
  datatype State = State(users: Users, frozen: seq<Option<Tri>>)

  function Unassigned(c: Config): Users {
    seq(|c.syms|, i => None)
  }

  function Unseen(c: Config): seq<Option<Tri>> {
    seq(|c.syms|, i => None)
  }

  predicate InRange(c: Config, ops: seq<Op>) {
    forall i :: 0 <= i < |ops| ==> ops[i].s < |c.syms|
  }

  function UsersAfter(c: Config, users: Users, op: Op): (r: Users)
    requires Assigned(c, users) && op.s < |c.syms|
    ensures Assigned(c, r)
  {
    match op
    case Set(s, v) => Assign(c, users, s, v)
    case Unset(s) => users[s := None]
    case _ => users
  }

  ghost predicate Stands(c: Config, rank: seq<nat>, st: State) {
    Sound(c, rank, st.users) && |st.frozen| == |c.syms|
  }

  /** The answer of a computation without any cache. */
  ghost function TrueAnswer(c: Config, rank: seq<nat>, users: Users, op: Op): string
    requires Sound(c, rank, users) && op.s < |c.syms|
  {
    match op
    case Get(s) => Value(c, rank, users, s)
    case Vis(s) => Text(VisibilityOf(c, rank, users, s))
    case _ => ""
  }

  ghost function Answer(c: Config, rank: seq<nat>, st: State, op: Op): string
    requires Stands(c, rank, st) && op.s < |c.syms|
  {
    if op.Vis? && c.syms[op.s].special.Some? && st.frozen[op.s].Some? then Text(st.frozen[op.s].value)
    else TrueAnswer(c, rank, st.users, op)
  }

  ghost function After(c: Config, rank: seq<nat>, st: State, op: Op): (r: State)
    requires Stands(c, rank, st) && op.s < |c.syms|
    ensures Stands(c, rank, r)
  {
    var users := UsersAfter(c, st.users, op);
    if op.Vis? && c.syms[op.s].special.Some? && st.frozen[op.s].None? then
      State(users, st.frozen[op.s := Some(VisibilityOf(c, rank, st.users, op.s))])
    else State(users, st.frozen)
  }

  ghost function Answers(c: Config, rank: seq<nat>, st: State, ops: seq<Op>): seq<string>
    requires Stands(c, rank, st) && InRange(c, ops)
    decreases |ops|
  {
    if ops == [] then []
    else [Answer(c, rank, st, ops[0])] + Answers(c, rank, After(c, rank, st, ops[0]), ops[1..])
  }

  ghost function TrueAnswers(c: Config, rank: seq<nat>, users: Users, ops: seq<Op>): seq<string>
    requires Sound(c, rank, users) && InRange(c, ops)
    decreases |ops|
  {
    if ops == [] then []
    else [TrueAnswer(c, rank, users, ops[0])] + TrueAnswers(c, rank, UsersAfter(c, users, ops[0]), ops[1..])
  }

  /** op enables or disables modules only by an assignment to MODULES. */
  ghost predicate Harmless(c: Config, rank: seq<nat>, users: Users, op: Op)
    requires Sound(c, rank, users) && op.s < |c.syms|
  {
    (op.Set? && c.modules == Some(op.s)) || On(c, rank, users) == On(c, rank, UsersAfter(c, users, op))
  }

  ghost predicate HarmlessRun(c: Config, rank: seq<nat>, users: Users, ops: seq<Op>)
    requires Sound(c, rank, users) && InRange(c, ops)
    decreases |ops|
  {
    ops == [] || (Harmless(c, rank, users, ops[0]) && HarmlessRun(c, rank, UsersAfter(c, users, ops[0]), ops[1..]))
  }

  /** If MODULES refers to symbols of fixed value only and is never unset, every run is
      harmless. */
  lemma {:induction false} PlainRunsAreHarmless(c: Config, rank: seq<nat>, users: Users, ops: seq<Op>)
    requires Sound(c, rank, users) && PlainModules(c) && InRange(c, ops)
    requires forall i :: 0 <= i < |ops| && ops[i].Unset? ==> c.modules != Some(ops[i].s)
    ensures HarmlessRun(c, rank, users, ops)
    decreases |ops|
  {
    if ops != [] {
      var op := ops[0];
      var next := UsersAfter(c, users, op);
      if (op.Set? || op.Unset?) && c.modules != Some(op.s) {
        assert next == users[op.s := next[op.s]];
        OnlyModulesMatters(c, rank, users, op.s, next[op.s]);
      }
      PlainRunsAreHarmless(c, rank, next, ops[1..]);
    }
  }

  /** What is frozen of steady symbols is right. */
  ghost predicate SteadyRight(c: Config, rank: seq<nat>, st: State)
    requires Stands(c, rank, st)
  {
    forall i :: 0 <= i < |c.syms| && Steady(c, i) && st.frozen[i].Some? ==>
      st.frozen[i].value == VisibilityOf(c, rank, st.users, i)
  }

  /** The answers are those of a computation without any cache, if of the special symbols
      only the visibilities of steady ones are asked for. */
  lemma {:induction false} SteadyAnswers(c: Config, rank: seq<nat>, st: State, ops: seq<Op>)
    requires Stands(c, rank, st) && InRange(c, ops) && SteadyRight(c, rank, st)
    requires forall i :: 0 <= i < |ops| && ops[i].Vis? && c.syms[ops[i].s].special.Some? ==> Steady(c, ops[i].s)
    ensures Answers(c, rank, st, ops) == TrueAnswers(c, rank, st.users, ops)
    decreases |ops|
  {
    if ops != [] {
      var next := After(c, rank, st, ops[0]);
      forall i | 0 <= i < |c.syms| && Steady(c, i) && next.frozen[i].Some?
        ensures next.frozen[i].value == VisibilityOf(c, rank, next.users, i)
      {
        SteadyVisibility(c, rank, st.users, next.users, i);
      }
      SteadyAnswers(c, rank, next, ops[1..]);
    }
  }

  class Kconfig {
    const c: Config
    const syms: seq<Symbol>
    ghost const rank: seq<nat>
    ghost var users: Users
    /** The visibilities cached for special symbols. */
    ghost var frozen: seq<Option<Tri>>

    /** The symbols are distinct objects. */
    ghost predicate Indexed() {
      && Ranked(c, rank) && |syms| == |c.syms|
      && forall i :: 0 <= i < |syms| ==> syms[i].id == i && syms[i].isSpecial == c.syms[i].special.Some?
    }

    /** They hold the user values. */
    ghost predicate Laid()
      reads this, syms
    {
      && Indexed() && Assigned(c, users) && |frozen| == |c.syms|
      && forall i :: 0 <= i < |syms| ==> syms[i].userVal == users[i]
    }

    /** dep and cachedDeps are what a computation from scratch gives. */
    ghost predicate Linked()
      requires Laid()
      reads this, syms
    {
      forall i :: 0 <= i < |syms| ==>
        && syms[i].dep == Dep(c, i)
        && (syms[i].cachedDeps.Some? ==> syms[i].cachedDeps.value == Dependents(c, rank, i))
    }

    ghost predicate Right(i: SymId)
      requires Laid() && i < |syms|
      reads this, syms
    {
      IsRight(c, rank, users, i, Cache(syms[i].cachedVal, syms[i].cachedVisibility), frozen[i])
    }

    ghost predicate Coherent()
      requires Laid()
      reads this, syms
    {
      forall i :: 0 <= i < |syms| ==> Right(i)
    }

    ghost function Caches(): (x: seq<Cache>)
      reads this, syms
      ensures |x| == |syms|
      ensures forall i :: 0 <= i < |syms| ==> x[i] == Cache(syms[i].cachedVal, syms[i].cachedVisibility)
    {
      seq(|syms|, i requires 0 <= i < |syms| reads this, syms => Cache(syms[i].cachedVal, syms[i].cachedVisibility))
    }

    lemma CoherentIs()
      requires Laid()
      ensures Coherent() <==> AreRight(c, rank, users, frozen, Caches())
    {
      if AreRight(c, rank, users, frozen, Caches()) {
        forall i | 0 <= i < |syms|
          ensures Right(i)
        {
          assert IsRight(c, rank, users, i, Caches()[i], frozen[i]);
        }
      }
      if Coherent() {
        forall i | 0 <= i < |syms|
          ensures IsRight(c, rank, users, i, Caches()[i], frozen[i])
        {
          assert Right(i);
        }
      }
    }

    ghost predicate Valid()
      reads this, syms
    {
      Laid() && Linked() && Coherent()
    }

    ghost predicate Below(us: set<SymId>, top: nat) {
      forall u :: u in us ==> u < |syms| && u < |rank| && rank[u] < top
    }

    ghost predicate Reachable(e: Option<Expr>, top: nat) {
      && Below(OptSyms(e), top)
      && (c.modules.Some? ==>
            PlainOpt(e, Quiet(c)) || (c.modules.value < |rank| && rank[c.modules.value] < top))
    }

    ghost function Env(): Env
      requires Laid()
      reads this, syms
    {
      EnvOf(c, rank, users)
    }

    ghost predicate ModulesOn()
      requires Laid()
      reads this, syms
    {
      On(c, rank, users)
    }

    // ----- evaluation -----

    method EvalExpr(e: Option<Expr>, ghost top: nat) returns (t: Tri)
      requires Valid() && Reachable(e, top)
      modifies syms`cachedVal, syms`cachedVisibility
      ensures Valid() && t == Eval(e, Env(), ModulesOn())
      decreases top, 4
    {
      if e.None? { return Y; }
      assert OptSyms(e) == Syms(e.value);
      var res := EvalExprRec(e.value, top);
      if res == M {
        if c.modules.None? { return Y; }
        if PlainOpt(e, Quiet(c)) {
          EnvIsHushed(c, rank, users);
          PlainIsNotM(e.value, Quiet(c), Env());
        }
        var on := GetValue(c.modules.value);
        if on != "y" { return Y; }
      }
      t := res;
    }

    static lemma SymsOfMember(es: seq<Expr>, i: nat)
      requires i < |es|
      ensures Syms(es[i]) <= SymsAll(es)
      decreases i
    {
      if i > 0 {
        SymsOfMember(es[1..], i - 1);
      }
    }

    method EvalExprRec(e: Expr, ghost top: nat) returns (t: Tri)
      requires Valid() && Below(Syms(e), top)
      modifies syms`cachedVal, syms`cachedVisibility
      ensures Valid() && t == EvalRec(e, Env())
      decreases top, 3, e
    {
      match e
      case At(Sym(u)) =>
        assert u in Syms(e);
        if c.syms[u].ty != Bool && c.syms[u].ty != Tristate { return N; }
        var v := GetValue(u);
        t := TriOf(v);
      case At(Str(s)) =>
        t := TriOf(s);
      case And(es) =>
        t := Y;
        for i := 0 to |es|
          invariant Valid() && t != N
          invariant Min(t, EvalAnd(es[i..], Env())) == EvalAnd(es, Env())
        {
          SymsOfMember(es, i);
          var ev := EvalExprRec(es[i], top);
          assert es[i..][0] == es[i] && es[i..][1..] == es[i + 1..];
          if ev == N { return N; }
          if ev == M { t := M; }
        }
      case Or(es) =>
        t := N;
        for i := 0 to |es|
          invariant Valid() && t != Y
          invariant Max(t, EvalOr(es[i..], Env())) == EvalOr(es, Env())
        {
          SymsOfMember(es, i);
          var ev := EvalExprRec(es[i], top);
          assert es[i..][0] == es[i] && es[i..][1..] == es[i + 1..];
          if ev == Y { return Y; }
          if ev == M { t := M; }
        }
      case Not(x) =>
        var ev := EvalExprRec(x, top);
        t := if ev == Y then N else if ev == N then Y else M;
      case Rel(equal, l, r) =>
        var lv := StrVal(l, top);
        var rv := StrVal(r, top);
        t := if (lv == rv) == equal then Y else N;
    }

    method StrVal(a: Atom, ghost top: nat) returns (v: string)
      requires Valid() && Below(AtomSyms(a), top)
      modifies syms`cachedVal, syms`cachedVisibility
      ensures Valid() && v == AtomText(a, Env())
      decreases top, 2
    {
      match a
      case Str(s) => v := s;
      case Sym(u) =>
        assert u in AtomSyms(a);
        v := GetValue(u);
    }

    /** _eval_min and _eval_max */
    method EvalMin(e1: Option<Expr>, e2: Option<Expr>, ghost top: nat) returns (t: Tri)
      requires Valid() && Reachable(e1, top) && Reachable(e2, top)
      modifies syms`cachedVal, syms`cachedVisibility
      ensures Valid() && t == Min(Eval(e1, Env(), ModulesOn()), Eval(e2, Env(), ModulesOn()))
      decreases top, 5
    {
      var t1 := EvalExpr(e1, top);
      var t2 := EvalExpr(e2, top);
      t := if Rank(t1) < Rank(t2) then t1 else t2;
    }

    method EvalMax(e1: Option<Expr>, e2: Option<Expr>, ghost top: nat) returns (t: Tri)
      requires Valid() && Reachable(e1, top) && Reachable(e2, top)
      modifies syms`cachedVal, syms`cachedVisibility
      ensures Valid() && t == Max(Eval(e1, Env(), ModulesOn()), Eval(e2, Env(), ModulesOn()))
      decreases top, 5
    {
      var t1 := EvalExpr(e1, top);
      var t2 := EvalExpr(e2, top);
      t := if Rank(t1) > Rank(t2) then t1 else t2;
    }

    /** Evaluating t in the course of evaluating s does not run into a cycle at MODULES. */
    ghost predicate Level(s: SymId, t: Tri)
      requires Laid() && s < |syms|
      reads this, syms
    {
      c.modules.Some? ==> rank[c.modules.value] < rank[s] || t != M
    }

    lemma ConstReaches(s: SymId, v: string)
      requires Laid() && s < |syms| && Level(s, TriOf(v))
      ensures Reachable(Some(At(Str(v))), rank[s])
      ensures Eval(Some(At(Str(v))), Env(), ModulesOn()) == Promote(TriOf(v), ModulesOn())
    {
      assert Plain(At(Str(v)), Quiet(c)) <==> v != "m";
      assert OptSyms(Some(At(Str(v)))) == {};
    }

    /** So do the expressions in the properties of s. */
    lemma PropertyReaches(s: SymId, e: Option<Expr>)
      requires Laid() && s < |syms|
      requires forall u :: u in OptSyms(e) ==> ReadsSym(c.syms[s], u)
      requires PlainDef(c.syms[s], Quiet(c)) ==> PlainOpt(e, Quiet(c))
      ensures Reachable(e, rank[s])
      ensures Level(s, Eval(e, Env(), ModulesOn()))
    {
      EnvIsHushed(c, rank, users);
      forall u: SymId | u in OptSyms(e)
        ensures u < |syms| && rank[u] < rank[s]
      {
        RankedReads(c, rank, s, u);
      }
      if PlainOpt(e, Quiet(c)) {
        PlainEval(e, Quiet(c), Env());
      }
    }

    lemma PromptReaches(s: SymId, i: nat)
      requires Laid() && s < |syms| && i < |c.syms[s].prompts|
      ensures Reachable(c.syms[s].prompts[i], rank[s])
      ensures Level(s, Eval(c.syms[s].prompts[i], Env(), ModulesOn()))
    {
      PropertyReaches(s, c.syms[s].prompts[i]);
    }

    lemma DefaultReaches(s: SymId, i: nat)
      requires Laid() && s < |syms| && i < |c.syms[s].defaults|
      ensures var x := c.syms[s].defaults[i];
        && Reachable(x.cond, rank[s]) && Level(s, Eval(x.cond, Env(), ModulesOn()))
        && Reachable(Some(x.val), rank[s]) && Level(s, Eval(Some(x.val), Env(), ModulesOn()))
    {
      var x := c.syms[s].defaults[i];
      assert OptSyms(x.cond) <= DefaultSyms(x) && OptSyms(Some(x.val)) <= DefaultSyms(x);
      PropertyReaches(s, x.cond);
      PropertyReaches(s, Some(x.val));
    }

    lemma RangeReaches(s: SymId, i: nat)
      requires Laid() && s < |syms| && i < |c.syms[s].ranges|
      ensures var x := c.syms[s].ranges[i];
        Reachable(x.cond, rank[s]) && Below(AtomSyms(x.low), rank[s]) && Below(AtomSyms(x.high), rank[s])
    {
      var x := c.syms[s].ranges[i];
      assert forall u :: u in RangeSyms(x) ==> ReadsSym(c.syms[s], u);
      PropertyReaches(s, x.cond);
    }

    lemma VisibilityLevel(s: SymId)
      requires Laid() && s < |syms|
      ensures Level(s, VisibilityOf(c, rank, users, s))
    {
      EnvIsHushed(c, rank, users);
      if PlainDef(c.syms[s], Quiet(c)) {
        PlainSee(c.num, c.syms[s], Quiet(c), Env());
      }
    }

    /** _get_visibility as get_value uses it: the symbol is not special. */
    method GetVisibility(s: SymId) returns (vis: Tri)
      requires Valid() && s < |syms| && c.syms[s].special.None?
      modifies syms`cachedVal, syms`cachedVisibility
      ensures Valid() && vis == VisibilityOf(c, rank, users, s)
      decreases rank[s], 7
    {
      if syms[s].cachedVisibility.None? {
        var v := PromptVisibility(s);
        if v == M && c.syms[s].ty != Tristate { v := Y; }
        label Computed:
        syms[s].cachedVisibility := Some(v);
        forall i | 0 <= i < |syms|
          ensures Right(i)
        {
          assert old@Computed(Right(i));
        }
      }
      assert Right(s);
      vis := syms[s].cachedVisibility.value;
    }

    /** The loop of _get_visibility. */
    method PromptVisibility(s: SymId) returns (vis: Tri)
      requires Valid() && s < |syms|
      modifies syms`cachedVal, syms`cachedVisibility
      ensures Valid() && vis == VisibilityFrom(N, c.syms[s].prompts, Env(), ModulesOn())
      decreases rank[s], 6
    {
      vis := N;
      var prompts := c.syms[s].prompts;
      for i := 0 to |prompts|
        invariant Valid() && Level(s, vis)
        invariant VisibilityFrom(vis, prompts[i..], Env(), ModulesOn())
               == VisibilityFrom(N, prompts, Env(), ModulesOn())
      {
        ConstReaches(s, Text(vis));
        PromptReaches(s, i);
        assert prompts[i..][0] == prompts[i] && prompts[i..][1..] == prompts[i + 1..];
        vis := EvalMax(Some(At(Str(Text(vis)))), prompts[i], rank[s]);
      }
      assert prompts[|prompts|..] == [];
    }

    /** _get_visibility of a special symbol: what it finds first, it keeps for ever. */
    method GetSpecialVisibility(s: SymId) returns (vis: Tri)
      requires Valid() && s < |syms| && c.syms[s].special.Some?
      modifies this`frozen, syms`cachedVal, syms`cachedVisibility
      ensures Valid() && frozen == old(frozen)[s := Some(vis)]
      ensures vis == if old(frozen)[s].Some? then old(frozen)[s].value else VisibilityOf(c, rank, users, s)
    {
      assert Right(s);
      if syms[s].cachedVisibility.None? {
        var v := PromptVisibility(s);
        if v == M && c.syms[s].ty != Tristate { v := Y; }
        label Computed:
        syms[s].cachedVisibility := Some(v);
        frozen := frozen[s := Some(v)];
        forall i | 0 <= i < |syms|
          ensures Right(i)
        {
          assert old@Computed(Right(i));
        }
      }
      vis := syms[s].cachedVisibility.value;
    }

    /** The loop over the defaults that get_value holds in each of its three branches. */
    method FindDefault(s: SymId) returns (d: Option<Default>, cond: Tri)
      requires Valid() && s < |syms|
      modifies syms`cachedVal, syms`cachedVisibility
      ensures Valid() && d == Active(c.syms[s].defaults, Env(), ModulesOn())
      ensures d.Some? ==>
        && cond == Eval(d.value.cond, Env(), ModulesOn()) && Level(s, cond)
        && Reachable(Some(d.value.val), rank[s]) && Level(s, Eval(Some(d.value.val), Env(), ModulesOn()))
      decreases rank[s], 6
    {
      var ds := c.syms[s].defaults;
      for i := 0 to |ds|
        invariant Valid()
        invariant Active(ds[i..], Env(), ModulesOn()) == Active(ds, Env(), ModulesOn())
      {
        DefaultReaches(s, i);
        cond := EvalExpr(ds[i].cond, rank[s]);
        assert ds[i..][0] == ds[i] && ds[i..][1..] == ds[i + 1..];
        if cond != N { return Some(ds[i]), cond; }
      }
      d, cond := None, N;
    }

    method FindRange(s: SymId) returns (limits: Option<(int, int)>)
      requires Valid() && s < |syms|
      modifies syms`cachedVal, syms`cachedVisibility
      ensures Valid() && limits == Limits(c.num, c.syms[s], Env(), ModulesOn())
      decreases rank[s], 6
    {
      var rs := c.syms[s].ranges;
      var base := Base(c.syms[s].ty);
      for i := 0 to |rs|
        invariant Valid()
        invariant ActiveRange(rs[i..], Env(), ModulesOn()) == ActiveRange(rs, Env(), ModulesOn())
      {
        RangeReaches(s, i);
        var cond := EvalExpr(rs[i].cond, rank[s]);
        assert rs[i..][0] == rs[i] && rs[i..][1..] == rs[i + 1..];
        if cond != N {
          var lowStr := StrVal(rs[i].low, rank[s]);
          var highStr := StrVal(rs[i].high, rank[s]);
          var low := if c.num.isNumber(lowStr, base) then c.num.parse(lowStr, base) else 0;
          var high := if c.num.isNumber(highStr, base) then c.num.parse(highStr, base) else 0;
          return Some((low, high));
        }
      }
      limits := None;
    }

    ghost function Sees(s: SymId): Seen
      requires Laid() && s < |syms|
      reads this, syms
    {
      See(c.num, c.syms[s], Env(), ModulesOn())
    }

    /** _eval_max of two values. */
    method EvalMaxOf(s: SymId, a: Tri, b: Tri) returns (v: Tri)
      requires Valid() && s < |syms| && Level(s, a) && Level(s, b)
      modifies syms`cachedVal, syms`cachedVisibility
      ensures Valid() && v == MaxOf(a, b, ModulesOn())
      decreases rank[s], 6
    {
      ConstReaches(s, Text(a));
      ConstReaches(s, Text(b));
      v := EvalMax(Some(At(Str(Text(a)))), Some(At(Str(Text(b)))), rank[s]);
    }

    /** _eval_min of a string and a value. */
    method EvalMinText(s: SymId, a: string, b: Tri) returns (v: Tri)
      requires Valid() && s < |syms| && Level(s, TriOf(a)) && Level(s, b)
      modifies syms`cachedVal, syms`cachedVisibility
      ensures Valid() && v == MinOf(TriOf(a), b, ModulesOn()) && Level(s, v)
      decreases rank[s], 6
    {
      ConstReaches(s, a);
      ConstReaches(s, Text(b));
      v := EvalMin(Some(At(Str(a))), Some(At(Str(Text(b)))), rank[s]);
    }

    lemma UserLevel(s: SymId)
      requires Laid() && s < |syms| && IsTri(c.syms[s].ty) && users[s].Some?
      ensures Level(s, TriOf(users[s].value))
    {
      assert Assignable(c, s, users[s].value);
      assert "n"[0] != "m"[0] && "y"[0] != "m"[0];
      if c.modules.Some? && rank[c.modules.value] >= rank[s] {
        assert PlainDef(c.syms[s], Quiet(c));
      }
    }

    /** The bool and tristate branch of get_value, up to the selects. */
    method BoundedValue(s: SymId, vis: Tri) returns (v: Tri)
      requires Valid() && s < |syms| && c.syms[s].special.None? && IsTri(c.syms[s].ty)
      requires vis == VisibilityOf(c, rank, users, s)
      modifies syms`cachedVal, syms`cachedVisibility
      ensures Valid() && v == Bounded(users[s], Sees(s), ModulesOn()) && Level(s, v)
      decreases rank[s], 7
    {
      VisibilityLevel(s);
      v := N;
      if vis != N && syms[s].userVal.Some? {
        UserLevel(s);
        v := EvalMinText(s, syms[s].userVal.value, vis);
      } else {
        var d, cond := FindDefault(s);
        if d.Some? {
          ConstReaches(s, Text(cond));
          v := EvalMin(Some(d.value.val), Some(At(Str(Text(cond)))), rank[s]);
        }
      }
    }

    lemma RevDepReaches(s: SymId)
      requires Laid() && s < |syms|
      ensures Reachable(Some(c.syms[s].revDep), rank[s])
      ensures Level(s, Eval(Some(c.syms[s].revDep), Env(), ModulesOn()))
    {
      PropertyReaches(s, Some(c.syms[s].revDep));
    }

    method TristateValue(s: SymId, vis: Tri) returns (v: Tri)
      requires Valid() && s < |syms| && c.syms[s].special.None? && IsTri(c.syms[s].ty)
      requires vis == VisibilityOf(c, rank, users, s)
      modifies syms`cachedVal, syms`cachedVisibility
      ensures Valid() && v == TriValue(c.syms[s].ty, users[s], Sees(s), ModulesOn())
      decreases rank[s], 8
    {
      v := BoundedValue(s, vis);
      RevDepReaches(s);
      var rev := EvalExpr(Some(c.syms[s].revDep), rank[s]);
      if rev != N {
        v := EvalMaxOf(s, v, rev);
      }
      if v == M && c.syms[s].ty == Bool { v := Y; }
    }

    method NumberNew(s: SymId, vis: Tri) returns (v: string)
      requires Valid() && s < |syms| && c.syms[s].special.None?
      requires vis == VisibilityOf(c, rank, users, s)
      modifies syms`cachedVal, syms`cachedVisibility
      ensures Valid() && v == NumberValue(c.num, Base(c.syms[s].ty), users[s], Sees(s))
      decreases rank[s], 8
    {
      var base := Base(c.syms[s].ty);
      var limits := FindRange(s);
      if vis != N && UserFits(c.num, base, syms[s].userVal, limits) { return syms[s].userVal.value; }
      var d, _ := FindDefault(s);
      if d.Some? {
        v := DefaultText(s, d.value.val);
        if c.num.isNumber(v, base) && limits.Some? {
          if c.num.parse(v, base) < limits.value.0 { v := c.num.show(limits.value.0, base); }
          else if c.num.parse(v, base) > limits.value.1 { v := c.num.show(limits.value.1, base); }
        }
      } else if limits.Some? && limits.value.0 > 0 {
        v := c.num.show(limits.value.0, base);
      } else {
        v := "";
      }
    }

    method StringNew(s: SymId, vis: Tri) returns (v: string)
      requires Valid() && s < |syms| && c.syms[s].special.None?
      requires vis == VisibilityOf(c, rank, users, s)
      modifies syms`cachedVal, syms`cachedVisibility
      ensures Valid() && v == StringValue(users[s], Sees(s))
      decreases rank[s], 8
    {
      if vis != N && syms[s].userVal.Some? { return syms[s].userVal.value; }
      var d, _ := FindDefault(s);
      if d.Some? {
        v := DefaultText(s, d.value.val);
      } else {
        v := "";
      }
    }

    method DefaultText(s: SymId, e: Expr) returns (v: string)
      requires Valid() && s < |syms| && Reachable(Some(e), rank[s])
      modifies syms`cachedVal, syms`cachedVisibility
      ensures Valid() && v == ExprText(e, Env())
      decreases rank[s], 5
    {
      if e.At? {
        assert OptSyms(Some(e)) == Syms(e) == AtomSyms(e.a);
        v := StrVal(e.a, rank[s]);
      } else {
        v := "";
      }
    }

    method GetValue(s: SymId) returns (r: string)
      requires Valid() && s < |syms|
      modifies syms`cachedVal, syms`cachedVisibility
      ensures Valid() && r == Value(c, rank, users, s)
      decreases rank[s], 10
    {
      assert Right(s);
      if syms[s].cachedVal.Some? { return syms[s].cachedVal.value; }
      ValueIs(c, rank, users, s);
      var ty := c.syms[s].ty;
      if ty == Unknown {
        r := c.syms[s].name;
      } else {
        var vis := GetVisibility(s);
        r := NewVal(s, vis);
      }
      label Computed:
      syms[s].cachedVal := Some(r);
      forall i | 0 <= i < |syms|
        ensures Right(i)
      {
        assert old@Computed(Right(i));
      }
    }

    /** The three branches of get_value. */
    method NewVal(s: SymId, vis: Tri) returns (r: string)
      requires Valid() && s < |syms| && c.syms[s].special.None? && c.syms[s].ty != Unknown
      requires vis == VisibilityOf(c, rank, users, s)
      modifies syms`cachedVal, syms`cachedVisibility
      ensures Valid() && r == NewValue(c.num, c.syms[s], users[s], Sees(s), ModulesOn())
      decreases rank[s], 9
    {
      match c.syms[s].ty
      case Bool => var t := TristateValue(s, vis); r := Text(t);
      case Tristate => var t := TristateValue(s, vis); r := Text(t);
      case Int => r := NumberNew(s, vis);
      case Hex => r := NumberNew(s, vis);
      case String => r := StringNew(s, vis);
    }

    // ----- dependencies -----

    ghost function Deps(): (x: seq<set<SymId>>)
      reads this, syms
      ensures |x| == |syms| && forall i :: 0 <= i < |syms| ==> x[i] == syms[i].dep
    {
      seq(|syms|, i requires 0 <= i < |syms| reads this, syms => syms[i].dep)
    }

    method AddDep(u: SymId, sym: SymId, ghost before: seq<set<SymId>>, ghost us: set<SymId>)
      requires Indexed() && u < |syms| && Marked(before, us, sym, Deps())
      modifies syms`dep
      ensures Marked(before, us + {u}, sym, Deps())
    {
      syms[u].dep := syms[u].dep + {sym};
    }

    method AddDeps(us: set<SymId>, sym: SymId)
      requires Indexed() && forall u: SymId :: u in us ==> u < |syms|
      modifies syms`dep
      ensures Marked(old(Deps()), us, sym, Deps())
    {
      var rest := us;
      ghost var before, done: set<SymId> := Deps(), {};
      MarkedNone(before, sym);
      while rest != {}
        invariant rest <= us && done == us - rest && Marked(before, done, sym, Deps())
        decreases |rest|
      {
        var u :| u in rest;
        AddDep(u, sym, before, done);
        rest, done := rest - {u}, done + {u};
      }
    }

    /** add_expr_deps */
    method AddExprDeps(e: Option<Expr>, sym: SymId)
      requires Indexed() && forall u: SymId :: u in OptSyms(e) ==> u < |syms|
      modifies syms`dep
      ensures Marked(old(Deps()), OptSyms(e), sym, Deps())
    {
      AddDeps(OptSyms(e), sym);
    }

    lemma PropertyBound(sym: SymId, us: set<SymId>)
      requires Indexed() && sym < |syms|
      requires forall u: SymId :: u in us ==> ReadsSym(c.syms[sym], u)
      ensures forall u: SymId :: u in us ==> u < |syms|
    {
      forall u: SymId | u in us
        ensures u < |syms|
      {
        RankedReads(c, rank, sym, u);
      }
    }

    method AddPromptDeps(sym: SymId)
      requires Indexed() && sym < |syms|
      modifies syms`dep
      ensures Marked(old(Deps()), PromptSet(c, sym), sym, Deps())
    {
      var ps := c.syms[sym].prompts;
      ghost var before, us: set<SymId> := Deps(), {};
      for j := 0 to |ps|
        invariant Marked(before, us, sym, Deps())
        invariant forall u :: u in us <==> InPrompts(c.syms[sym], j, u)
      {
        PropertyBound(sym, OptSyms(ps[j]));
        label Before:
        AddExprDeps(ps[j], sym);
        MarkedTwice(before, us, sym, old@Before(Deps()), OptSyms(ps[j]), Deps());
        us := us + OptSyms(ps[j]);
      }
      ReadSetIs(c, rank, sym);
      assert us == PromptSet(c, sym);
    }

    method AddDefault(sym: SymId, x: Default)
      requires Indexed() && sym < |syms| && x in c.syms[sym].defaults
      modifies syms`dep
      ensures Marked(old(Deps()), DefaultSyms(x), sym, Deps())
    {
      PropertyBound(sym, DefaultSyms(x));
      ghost var before := Deps();
      AddExprDeps(Some(x.val), sym);
      label Between:
      AddExprDeps(x.cond, sym);
      MarkedTwice(before, Syms(x.val), sym, old@Between(Deps()), OptSyms(x.cond), Deps());
    }

    method AddDefaultDeps(sym: SymId)
      requires Indexed() && sym < |syms|
      modifies syms`dep
      ensures Marked(old(Deps()), DefaultSet(c, sym), sym, Deps())
    {
      var ds := c.syms[sym].defaults;
      ghost var before, us: set<SymId> := Deps(), {};
      for j := 0 to |ds|
        invariant Marked(before, us, sym, Deps())
        invariant forall u :: u in us <==> InDefaults(c.syms[sym], j, u)
      {
        label Before:
        AddDefault(sym, ds[j]);
        MarkedTwice(before, us, sym, old@Before(Deps()), DefaultSyms(ds[j]), Deps());
        us := us + DefaultSyms(ds[j]);
      }
      ReadSetIs(c, rank, sym);
      assert us == DefaultSet(c, sym);
    }

    method AddRange(sym: SymId, r: Range)
      requires Indexed() && sym < |syms| && r in c.syms[sym].ranges
      modifies syms`dep
      ensures Marked(old(Deps()), RangeSyms(r), sym, Deps())
    {
      PropertyBound(sym, RangeSyms(r));
      ghost var before := Deps();
      AddExprDeps(Some(At(r.low)), sym);
      label Low:
      AddExprDeps(Some(At(r.high)), sym);
      MarkedTwice(before, AtomSyms(r.low), sym, old@Low(Deps()), AtomSyms(r.high), Deps());
      label High:
      AddExprDeps(r.cond, sym);
      MarkedTwice(before, AtomSyms(r.low) + AtomSyms(r.high), sym, old@High(Deps()), OptSyms(r.cond), Deps());
    }

    method AddRangeDeps(sym: SymId)
      requires Indexed() && sym < |syms|
      modifies syms`dep
      ensures Marked(old(Deps()), RangeSet(c, sym), sym, Deps())
    {
      var rs := c.syms[sym].ranges;
      ghost var before, us: set<SymId> := Deps(), {};
      for j := 0 to |rs|
        invariant Marked(before, us, sym, Deps())
        invariant forall u :: u in us <==> InRanges(c.syms[sym], j, u)
      {
        label Before:
        AddRange(sym, rs[j]);
        MarkedTwice(before, us, sym, old@Before(Deps()), RangeSyms(rs[j]), Deps());
        us := us + RangeSyms(rs[j]);
      }
      ReadSetIs(c, rank, sym);
      assert us == RangeSet(c, sym);
    }

    /** The part of _build_dep for one symbol. */
    method BuildDepOf(sym: SymId)
      requires Indexed() && sym < |syms|
      modifies syms`dep
      ensures Marked(old(Deps()), ReadSet(c, sym), sym, Deps())
    {
      ghost var before, us := Deps(), PromptSet(c, sym);
      AddPromptDeps(sym);
      label Prompts:
      AddDefaultDeps(sym);
      MarkedTwice(before, us, sym, old@Prompts(Deps()), DefaultSet(c, sym), Deps());
      us := us + DefaultSet(c, sym);
      label Defaults:
      PropertyBound(sym, Syms(c.syms[sym].revDep));
      AddExprDeps(Some(c.syms[sym].revDep), sym);
      MarkedTwice(before, us, sym, old@Defaults(Deps()), Syms(c.syms[sym].revDep), Deps());
      us := us + Syms(c.syms[sym].revDep);
      label RevDep:
      AddRangeDeps(sym);
      MarkedTwice(before, us, sym, old@RevDep(Deps()), RangeSet(c, sym), Deps());
      ReadSetIs(c, rank, sym);
      assert us + RangeSet(c, sym) == ReadSet(c, sym);
    }

    method BuildDep()
      requires Indexed() && forall i :: 0 <= i < |syms| ==> syms[i].dep == {}
      modifies syms`dep
      ensures forall i :: 0 <= i < |syms| ==> syms[i].dep == Dep(c, i)
    {
      for i := 0 to |syms|
        invariant forall k :: 0 <= k < |syms| ==> syms[k].dep == DepBelow(c, k, i)
      {
        label Before:
        BuildDepOf(i);
        forall k | 0 <= k < |syms|
          ensures syms[k].dep == DepBelow(c, k, i + 1)
        {
          assert Deps()[k] == old@Before(Deps())[k] + (if k in ReadSet(c, i) then {i} else {});
          DepBelowNext(c, k, i);
        }
      }
    }

    method GetDependent(s: SymId) returns (res: set<SymId>)
      requires Laid() && Linked() && s < |syms|
      modifies syms`cachedDeps
      ensures Laid() && Linked() && res == Dependents(c, rank, s)
      decreases |syms| - rank[s]
    {
      if syms[s].cachedDeps.Some? { return syms[s].cachedDeps.value; }
      res := syms[s].dep;
      var rest := syms[s].dep;
      while rest != {}
        invariant Laid() && Linked() && rest <= Dep(c, s)
        invariant forall u :: u in res <==>
          u in Dep(c, s) || exists t :: t in Dep(c, s) && t !in rest && u in Dependents(c, rank, t)
        decreases |rest|
      {
        var t :| t in rest;
        rest := rest - {t};
        var more := GetDependent(t);
        res := res + more;
      }
      syms[s].cachedDeps := Some(res);
    }

    // ----- invalidation -----

    method InvalidateOne(t: SymId, ghost before: seq<Cache>, ghost us: set<SymId>)
      requires Indexed() && t < |syms| && Cleared(c, before, us, Caches())
      modifies syms`cachedVal, syms`cachedVisibility
      ensures Cleared(c, before, us + {t}, Caches())
    {
      syms[t].Invalidate();
    }

    method InvalidateEach(us: set<SymId>)
      requires Indexed() && forall u :: u in us ==> u < |syms|
      modifies syms`cachedVal, syms`cachedVisibility
      ensures Cleared(c, old(Caches()), us, Caches())
    {
      var rest := us;
      while rest != {}
        invariant rest <= us && Cleared(c, old(Caches()), us - rest, Caches())
        decreases |rest|
      {
        var t :| t in rest;
        InvalidateOne(t, old(Caches()), us - rest);
        assert us - (rest - {t}) == (us - rest) + {t};
        rest := rest - {t};
      }
      assert us - rest == us;
    }

    method InvalidateDependent(s: SymId)
      requires Laid() && Linked() && s < |syms|
      modifies syms`cachedVal, syms`cachedVisibility, syms`cachedDeps
      ensures Laid() && Linked() && Cleared(c, old(Caches()), Dependents(c, rank, s), Caches())
    {
      var deps := GetDependent(s);
      InvalidateEach(deps);
    }

    method InvalidateAll()
      requires Indexed()
      modifies syms`cachedVal, syms`cachedVisibility
      ensures Cleared(c, old(Caches()), UpTo(|syms|), Caches())
    {
      for k := 0 to |syms|
        invariant Cleared(c, old(Caches()), UpTo(k), Caches())
      {
        InvalidateOne(k, old(Caches()), UpTo(k));
        assert UpTo(k + 1) == UpTo(k) + {k};
      }
    }

    // ----- assignment -----

    method SetUserValueNoInvalidate(s: SymId, v: string)
      requires Laid() && Linked() && s < |syms|
      modifies this`users, syms`userVal
      ensures Laid() && Linked() && users == Assign(c, old(users), s, v)
      ensures Caches() == old(Caches())
    {
      if Assignable(c, s, v) {
        syms[s].userVal := Some(v);
        users := users[s := Some(v)];
      }
    }

    method InvalidateFrom(s: SymId)
      requires Laid() && Linked() && s < |syms|
      modifies syms`cachedVal, syms`cachedVisibility, syms`cachedDeps
      ensures Laid() && Linked() && Cleared(c, old(Caches()), Dependents(c, rank, s) + {s}, Caches())
    {
      syms[s].Invalidate();
      InvalidateDependent(s);
    }

    method SetUserValue(s: SymId, v: string)
      requires Valid() && s < |syms|
      modifies this`users, syms`userVal, syms`cachedVal, syms`cachedVisibility, syms`cachedDeps
      ensures Laid() && Linked() && users == Assign(c, old(users), s, v)
      ensures Cleared(c, old(Caches()),
        if c.modules == Some(s) then UpTo(|syms|) else Dependents(c, rank, s) + {s}, Caches())
      ensures c.modules == Some(s) || ModulesOn() == old(ModulesOn()) ==> Valid()
    {
      CoherentIs();
      SetUserValueNoInvalidate(s, v);
      assert users == old(users)[s := users[s]];
      if c.modules == Some(s) {
        InvalidateAll();
        AllClearedAreRight(c, rank, old(users), users, frozen, old(Caches()), Caches());
      } else {
        InvalidateFrom(s);
        if ModulesOn() == old(ModulesOn()) {
          ClearedAreRight(c, rank, old(users), s, users[s], frozen, old(Caches()), Caches());
        }
      }
      CoherentIs();
    }

    method UnsetUserValueNoRecursiveInvalidate(s: SymId)
      requires Laid() && Linked() && s < |syms|
      modifies this`users, syms`userVal, syms`cachedVal, syms`cachedVisibility
      ensures Laid() && Linked() && users == old(users)[s := None]
      ensures Cleared(c, old(Caches()), {s}, Caches())
    {
      syms[s].Invalidate();
      syms[s].userVal := None;
      users := users[s := None];
    }

    method UnsetUserValue(s: SymId)
      requires Valid() && s < |syms|
      modifies this`users, syms`userVal, syms`cachedVal, syms`cachedVisibility, syms`cachedDeps
      ensures Laid() && Linked() && users == old(users)[s := None]
      ensures Cleared(c, old(Caches()), Dependents(c, rank, s) + {s}, Caches())
      ensures ModulesOn() == old(ModulesOn()) ==> Valid()
    {
      CoherentIs();
      UnsetUserValueNoRecursiveInvalidate(s);
      ghost var between := Caches();
      InvalidateDependent(s);
      ClearedTwice(c, old(Caches()), {s}, between, Dependents(c, rank, s), Caches());
      if ModulesOn() == old(ModulesOn()) {
        ClearedAreRight(c, rank, old(users), s, None, frozen, old(Caches()), Caches());
      }
      CoherentIs();
    }

    // ----- sessions -----

    constructor (c: Config, ghost rank: seq<nat>)
      requires Ranked(c, rank)
      ensures this.c == c && this.rank == rank && fresh(syms)
      ensures Valid() && users == Unassigned(c) && frozen == Unseen(c)
    {
      var ss: seq<Symbol> := [];
      for i := 0 to |c.syms|
        invariant |ss| == i && fresh(ss)
        invariant forall k :: 0 <= k < i ==> ss[k].id == k && ss[k].isSpecial == c.syms[k].special.Some?
        invariant forall k :: 0 <= k < i ==> ss[k].userVal == None && ss[k].cachedVal == c.syms[k].special
        invariant forall k :: 0 <= k < i ==>
          ss[k].cachedVisibility == None && ss[k].cachedDeps == None && ss[k].dep == {}
      {
        var x := new Symbol(i, c.syms[i].special);
        ss := ss + [x];
      }
      this.c, this.rank, syms, users, frozen := c, rank, ss, Unassigned(c), Unseen(c);
      new;
      BuildDep();
      assert Coherent() by {
        forall i | 0 <= i < |syms|
          ensures Right(i)
        {
        }
      }
    }

    ghost function Now(): State
      reads this
    {
      State(users, frozen)
    }

    method Step(op: Op) returns (out: string)
      requires Valid() && op.s < |c.syms| && Harmless(c, rank, users, op)
      modifies this`users, this`frozen, syms`userVal, syms`cachedVal, syms`cachedVisibility, syms`cachedDeps
      ensures Valid() && Now() == After(c, rank, old(Now()), op)
      ensures out == Answer(c, rank, old(Now()), op)
    {
      out := "";
      match op
      case Get(s) => out := GetValue(s);
      case Vis(s) =>
        var t;
        if syms[s].isSpecial {
          t := GetSpecialVisibility(s);
        } else {
          t := GetVisibility(s);
        }
        out := Text(t);
      case Set(s, v) => SetUserValue(s, v);
      case Unset(s) => UnsetUserValue(s);
    }

    /** Whatever is assigned, unset and asked for in whatever order, the answers are those
        of a computation without caches, with the visibilities of special symbols frozen
        when they are first asked for. */
    method Play(ops: seq<Op>) returns (outs: seq<string>)
      requires Valid() && InRange(c, ops) && HarmlessRun(c, rank, users, ops)
      modifies this`users, this`frozen, syms`userVal, syms`cachedVal, syms`cachedVisibility, syms`cachedDeps
      ensures Valid() && outs == Answers(c, rank, old(Now()), ops)
    {
      outs := [];
      ghost var start := Now();
      for i := 0 to |ops|
        invariant Valid() && HarmlessRun(c, rank, users, ops[i..])
        invariant outs + Answers(c, rank, Now(), ops[i..]) == Answers(c, rank, start, ops)
      {
        assert ops[i..][0] == ops[i] && ops[i..][1..] == ops[i + 1..];
        var out := Step(ops[i]);
        outs := outs + [out];
      }
    }
  }
}
