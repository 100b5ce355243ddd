/** The values of all symbols of an acyclic configuration, computed without caches, and
    which of them a change of one user value can affect. */
module KconfigValues {
  import opened Wrappers
  import opened KconfigExpr
  import opened KconfigSymbols

  datatype Config = Config(syms: seq<SymDef>, modules: Option<SymId>, num: Numerals)

  type Users = seq<Option<string>>

  predicate NeverM(d: SymDef) {
    if d.special.Some? then !IsTri(d.ty) || d.special.value != "m" else d.ty != Tristate
  }

  function Quiet(c: Config): set<SymId> {
    set u: SymId | 0 <= u < |c.syms| && NeverM(c.syms[u])
  }

  /** `rank` orders the symbols by what they refer to: the configuration is acyclic, and
      evaluating MODULES does not need the value of MODULES. */
  ghost predicate Ranked(c: Config, rank: seq<nat>) {
    && |rank| == |c.syms|
    && (forall s :: 0 <= s < |c.syms| ==> rank[s] < |c.syms|)
    && (forall s, u: SymId :: 0 <= s < |c.syms| && ReadsSym(c.syms[s], u) ==> u < |c.syms| && rank[u] < rank[s])
    && (c.modules.Some? ==>
          && c.modules.value < |c.syms|
          && forall s :: 0 <= s < |c.syms| ==>
               rank[c.modules.value] < rank[s] || PlainDef(c.syms[s], Quiet(c)))
  }

  lemma RankedReads(c: Config, rank: seq<nat>, s: SymId, u: SymId)
    requires Ranked(c, rank) && s < |c.syms| && ReadsSym(c.syms[s], u)
    ensures u < |c.syms| && rank[u] < rank[s]
  {
  }

  /** What set_user_value lets through. */
  predicate Assignable(c: Config, s: SymId, v: string)
    requires s < |c.syms|
  {
    var d := c.syms[s];
    d.special.None? && d.defined && Admits(c.num, d.ty, v)
  }

  predicate Assigned(c: Config, users: Users) {
    && |users| == |c.syms|
    && forall s :: 0 <= s < |users| && users[s].Some? ==> Assignable(c, s, users[s].value)
  }

  ghost predicate Sound(c: Config, rank: seq<nat>, users: Users) {
    Ranked(c, rank) && Assigned(c, users)
  }

  const NOTHING := SymVal(false, "")

  ghost function Value(c: Config, rank: seq<nat>, users: Users, s: SymId): string
    requires Sound(c, rank, users) && s < |c.syms|
    decreases rank[s]
  {
    var d := c.syms[s];
    if d.special.Some? then d.special.value
    else
      var env := (u: SymId) =>
        if u < |c.syms| && rank[u] < rank[s] then SymVal(IsTri(c.syms[u].ty), Value(c, rank, users, u))
        else NOTHING;
      var on := c.modules.Some? && rank[c.modules.value] < rank[s] && Value(c, rank, users, c.modules.value) == "y";
      NewValue(c.num, d, users[s], See(c.num, d, env, on), on)
  }

  ghost function EnvOf(c: Config, rank: seq<nat>, users: Users): Env
    requires Sound(c, rank, users)
  {
    (u: SymId) => if u < |c.syms| then SymVal(IsTri(c.syms[u].ty), Value(c, rank, users, u)) else NOTHING
  }

  /** Whether modules are enabled. */
  ghost predicate On(c: Config, rank: seq<nat>, users: Users)
    requires Sound(c, rank, users)
  {
    c.modules.Some? && Value(c, rank, users, c.modules.value) == "y"
  }

  ghost function VisibilityOf(c: Config, rank: seq<nat>, users: Users, s: SymId): Tri
    requires Sound(c, rank, users) && s < |c.syms|
  {
    Visibility(c.syms[s], EnvOf(c, rank, users), On(c, rank, users))
  }

  lemma QuietValue(c: Config, rank: seq<nat>, users: Users, s: SymId)
    requires Sound(c, rank, users) && s in Quiet(c) && IsTri(c.syms[s].ty)
    ensures Value(c, rank, users, s) != "m"
  {
    var d := c.syms[s];
    if d.special.None? {
      var env := (u: SymId) =>
        if u < |c.syms| && rank[u] < rank[s] then SymVal(IsTri(c.syms[u].ty), Value(c, rank, users, u))
        else NOTHING;
      var on := c.modules.Some? && rank[c.modules.value] < rank[s] && Value(c, rank, users, c.modules.value) == "y";
      BoolIsNotM(c.num, d, users[s], See(c.num, d, env, on), on);
    }
  }

  lemma EnvIsHushed(c: Config, rank: seq<nat>, users: Users)
    requires Sound(c, rank, users)
    ensures Hushed(EnvOf(c, rank, users), Quiet(c))
  {
    forall u | u in Quiet(c) && IsTri(c.syms[u].ty)
      ensures Value(c, rank, users, u) != "m"
    {
      QuietValue(c, rank, users, u);
    }
  }

  /** The values solve the equations of get_value, all symbols at once. */
  lemma ValueIs(c: Config, rank: seq<nat>, users: Users, s: SymId)
    requires Sound(c, rank, users) && s < |c.syms| && c.syms[s].special.None?
    ensures var on := On(c, rank, users);
      Value(c, rank, users, s)
        == NewValue(c.num, c.syms[s], users[s], See(c.num, c.syms[s], EnvOf(c, rank, users), on), on)
  {
    var d := c.syms[s];
    var env := (u: SymId) =>
      if u < |c.syms| && rank[u] < rank[s] then SymVal(IsTri(c.syms[u].ty), Value(c, rank, users, u))
      else NOTHING;
    var on := c.modules.Some? && rank[c.modules.value] < rank[s] && Value(c, rank, users, c.modules.value) == "y";
    SeeAgrees(c.num, d, env, EnvOf(c, rank, users), on);
    if c.modules.Some? && rank[c.modules.value] >= rank[s] {
      EnvIsHushed(c, rank, users);
      PlainNewValue(c.num, d, users[s], Quiet(c), EnvOf(c, rank, users));
    }
  }

  // ----- dependents -----

  /** What _build_dep puts into the dep set of s. */
  function Dep(c: Config, s: SymId): set<SymId> {
    set t: SymId | 0 <= t < |c.syms| && ReadsSym(c.syms[t], s)
  }

  /** What _get_dependent returns for s. */
  ghost function Dependents(c: Config, rank: seq<nat>, s: SymId): set<SymId>
    requires Ranked(c, rank) && s < |c.syms|
    decreases |c.syms| - rank[s]
  {
    set u: SymId | 0 <= u < |c.syms| && (u in Dep(c, s) || exists t :: t in Dep(c, s) && u in Dependents(c, rank, t))
  }

  lemma {:induction false} DependentsClosed(c: Config, rank: seq<nat>, s: SymId, u: SymId, t: SymId)
    requires Ranked(c, rank) && s < |c.syms|
    requires u in Dependents(c, rank, s) && t in Dep(c, u)
    ensures t in Dependents(c, rank, s)
    decreases |c.syms| - rank[s]
  {
    if u in Dep(c, s) {
      assert t in Dependents(c, rank, u);
    } else {
      var v :| v in Dep(c, s) && u in Dependents(c, rank, v);
      DependentsClosed(c, rank, v, u, t);
    }
  }

  /** A chain of direct dependents. */
  ghost predicate Chain(c: Config, p: seq<SymId>) {
    |p| >= 2 && forall i :: 0 <= i < |p| - 1 ==> p[i + 1] in Dep(c, p[i])
  }

  ghost predicate Affects(c: Config, s: SymId, u: SymId) {
    exists p :: Chain(c, p) && p[0] == s && p[|p| - 1] == u
  }

  lemma {:induction false} ChainOfDependent(c: Config, rank: seq<nat>, s: SymId, u: SymId) returns (p: seq<SymId>)
    requires Ranked(c, rank) && s < |c.syms| && u in Dependents(c, rank, s)
    ensures Chain(c, p) && p[0] == s && p[|p| - 1] == u
    decreases |c.syms| - rank[s]
  {
    if u in Dep(c, s) {
      p := [s, u];
    } else {
      var t :| t in Dep(c, s) && u in Dependents(c, rank, t);
      p := ChainOfDependent(c, rank, t, u);
      p := [s] + p;
    }
  }

  lemma {:induction false} DependentOfChain(c: Config, rank: seq<nat>, p: seq<SymId>)
    requires Ranked(c, rank) && Chain(c, p) && p[0] < |c.syms|
    ensures p[|p| - 1] in Dependents(c, rank, p[0])
    decreases |p|
  {
    if |p| > 2 {
      var q := p[..|p| - 1];
      assert Chain(c, q);
      DependentOfChain(c, rank, q);
      assert p[|p| - 2 + 1] in Dep(c, p[|p| - 2]);
      DependentsClosed(c, rank, p[0], q[|q| - 1], p[|p| - 1]);
    }
  }

  /** _get_dependent is the transitive closure of dep. */
  lemma DependentsAreAffected(c: Config, rank: seq<nat>, s: SymId, u: SymId)
    requires Ranked(c, rank) && s < |c.syms|
    ensures u in Dependents(c, rank, s) <==> Affects(c, s, u)
  {
    if u in Dependents(c, rank, s) {
      var p := ChainOfDependent(c, rank, s, u);
    }
    if Affects(c, s, u) {
      var p :| Chain(c, p) && p[0] == s && p[|p| - 1] == u;
      DependentOfChain(c, rank, p);
    }
  }

  // ----- what a new user value affects -----

  ghost predicate Untouched(c: Config, rank: seq<nat>, s: SymId, t: SymId)
    requires Ranked(c, rank) && s < |c.syms|
  {
    t < |c.syms| && t != s && t !in Dependents(c, rank, s)
  }

  lemma UntouchedReads(c: Config, rank: seq<nat>, s: SymId, t: SymId, u: SymId)
    requires Ranked(c, rank) && s < |c.syms| && Untouched(c, rank, s, t) && ReadsSym(c.syms[t], u)
    ensures Untouched(c, rank, s, u) && rank[u] < rank[t]
  {
    assert t in Dep(c, u);
    if u in Dependents(c, rank, s) {
      DependentsClosed(c, rank, s, u, t);
    }
  }

  /** A new user value of s leaves the values of all but s and its dependents, unless it
      enables or disables modules. */
  lemma {:induction false} ValueUntouched(
    c: Config, rank: seq<nat>, users: Users, s: SymId, v: Option<string>, t: SymId)
    requires Sound(c, rank, users) && s < |c.syms| && Sound(c, rank, users[s := v])
    requires On(c, rank, users) == On(c, rank, users[s := v])
    requires Untouched(c, rank, s, t)
    ensures Value(c, rank, users, t) == Value(c, rank, users[s := v], t)
    decreases rank[t]
  {
    var users' := users[s := v];
    if c.syms[t].special.None? {
      var env, env' := EnvOf(c, rank, users), EnvOf(c, rank, users');
      forall u | ReadsSym(c.syms[t], u)
        ensures env(u) == env'(u)
      {
        UntouchedReads(c, rank, s, t, u);
        ValueUntouched(c, rank, users, s, v, u);
      }
      SeeAgrees(c.num, c.syms[t], env, env', On(c, rank, users));
      ValueIs(c, rank, users, t);
      ValueIs(c, rank, users', t);
    }
  }

  lemma VisibilityUntouched(c: Config, rank: seq<nat>, users: Users, s: SymId, v: Option<string>, t: SymId)
    requires Sound(c, rank, users) && s < |c.syms| && Sound(c, rank, users[s := v])
    requires On(c, rank, users) == On(c, rank, users[s := v])
    requires Untouched(c, rank, s, t)
    ensures VisibilityOf(c, rank, users, t) == VisibilityOf(c, rank, users[s := v], t)
  {
    var env, env' := EnvOf(c, rank, users), EnvOf(c, rank, users[s := v]);
    forall u | ReadsSym(c.syms[t], u)
      ensures env(u) == env'(u)
    {
      UntouchedReads(c, rank, s, t, u);
      ValueUntouched(c, rank, users, s, v, u);
    }
    SeeAgrees(c.num, c.syms[t], env, env', On(c, rank, users));
  }

  // ----- MODULES -----

  /** MODULES refers to symbols of fixed value only. */
  predicate PlainModules(c: Config) {
    c.modules.Some? ==>
      && c.modules.value < |c.syms|
      && forall u: SymId :: 0 <= u < |c.syms| && ReadsSym(c.syms[c.modules.value], u) ==> c.syms[u].special.Some?
  }

  /** Then only an assignment to MODULES can enable or disable modules. */
  lemma OnlyModulesMatters(c: Config, rank: seq<nat>, users: Users, s: SymId, v: Option<string>)
    requires Sound(c, rank, users) && s < |c.syms| && Sound(c, rank, users[s := v])
    requires PlainModules(c) && c.modules != Some(s)
    ensures On(c, rank, users) == On(c, rank, users[s := v])
  {
    if c.modules.Some? {
      var m := c.modules.value;
      var users' := users[s := v];
      if c.syms[m].special.None? {
        var env, env' := EnvOf(c, rank, users), EnvOf(c, rank, users');
        SeeAgrees(c.num, c.syms[m], env, env', On(c, rank, users));
        ValueIs(c, rank, users, m);
        ValueIs(c, rank, users', m);
        EnvIsHushed(c, rank, users');
        PlainNewValue(c.num, c.syms[m], users[m], Quiet(c), env');
      }
    }
  }

  /** A tristate whose only property is `default m`. */
  predicate IsProbe(d: SymDef) {
    && d.ty == Tristate && d.special.None? && d.prompts == []
    && d.defaults == [Default(At(Str("m")), None)] && d.revDep == CONST_N && d.ranges == []
  }

  lemma ProbeValue(c: Config, rank: seq<nat>, users: Users, t: SymId)
    requires Sound(c, rank, users) && t < |c.syms| && IsProbe(c.syms[t])
    ensures Value(c, rank, users, t) == if On(c, rank, users) then "m" else "y"
  {
    var d, env, on := c.syms[t], EnvOf(c, rank, users), On(c, rank, users);
    ValueIs(c, rank, users, t);
    assert VisibilityFrom(N, d.prompts, env, on) == N;
    assert EvalRec(d.revDep, env) == N;
    assert EvalRec(d.defaults[0].val, env) == M;
    assert TriValue(d.ty, users[t], See(c.num, d, env, on), on) == if on then M else Y;
  }

  lemma DependentReads(c: Config, rank: seq<nat>, s: SymId, u: SymId) returns (w: SymId)
    requires Ranked(c, rank) && s < |c.syms| && u in Dependents(c, rank, s)
    ensures u < |c.syms| && ReadsSym(c.syms[u], w)
  {
    var p := ChainOfDependent(c, rank, s, u);
    w := p[|p| - 2];
    assert p[|p| - 2 + 1] in Dep(c, w);
  }

  lemma ProbeIsUntouched(c: Config, rank: seq<nat>, s: SymId, probe: SymId)
    requires Ranked(c, rank) && s < |c.syms|
    requires probe < |c.syms| && probe != s && IsProbe(c.syms[probe])
    ensures Untouched(c, rank, s, probe)
  {
    if probe in Dependents(c, rank, s) {
      var w := DependentReads(c, rank, s, probe);
    }
  }

  // ----- special symbols -----

  /** The prompts of s cannot come to m and refer to symbols of fixed value only, as do
      those of n, m and y, and of an environment symbol without a condition. */
  predicate Steady(c: Config, s: SymId)
    requires s < |c.syms|
  {
    forall k :: 0 <= k < |c.syms[s].prompts| ==>
      && PlainOpt(c.syms[s].prompts[k], Quiet(c))
      && forall u: SymId :: u in OptSyms(c.syms[s].prompts[k]) ==> u < |c.syms| && c.syms[u].special.Some?
  }

  /** The visibility of such a symbol never changes. */
  lemma SteadyVisibility(c: Config, rank: seq<nat>, users: Users, users': Users, s: SymId)
    requires Sound(c, rank, users) && Sound(c, rank, users') && s < |c.syms| && Steady(c, s)
    ensures VisibilityOf(c, rank, users, s) == VisibilityOf(c, rank, users', s)
  {
    var env, env' := EnvOf(c, rank, users), EnvOf(c, rank, users');
    var ps := c.syms[s].prompts;
    forall i, u: SymId | 0 <= i < |ps| && u in OptSyms(ps[i])
      ensures env(u) == env'(u)
    {
      assert c.syms[u].special.Some?;
    }
    EnvIsHushed(c, rank, users);
    PlainVisibility(N, ps, Quiet(c), env);
    VisibilityAgrees(N, ps, env, env', On(c, rank, users'));
  }

  /** The one prompt of s is `if u`, for a bool u. */
  predicate PromptedBy(c: Config, s: SymId, u: SymId) {
    && s < |c.syms| && u < |c.syms|
    && c.syms[s].prompts == [Some(At(Sym(u)))] && c.syms[u].ty == Bool && u in Quiet(c)
  }

  lemma PromptedVisibility(c: Config, rank: seq<nat>, users: Users, s: SymId, u: SymId)
    requires Sound(c, rank, users) && PromptedBy(c, s, u)
    ensures VisibilityOf(c, rank, users, s) == if Value(c, rank, users, u) == "y" then Y else N
  {
    var ps := c.syms[s].prompts;
    var env, on := EnvOf(c, rank, users), On(c, rank, users);
    QuietValue(c, rank, users, u);
    assert ps[1..] == [];
    assert EvalRec(At(Sym(u)), env) == if Value(c, rank, users, u) == "y" then Y else N;
    assert VisibilityFrom(N, ps, env, on) == VisibilityFrom(MaxOf(N, Eval(ps[0], env, on), on), [], env, on);
  }

  lemma BoolValue(c: Config, rank: seq<nat>, users: Users, u: SymId)
    requires Sound(c, rank, users) && u < |c.syms| && c.syms[u].ty == Bool && c.syms[u].special.None?
    ensures Value(c, rank, users, u) == "y" || Value(c, rank, users, u) == "n"
  {
    ValueIs(c, rank, users, u);
  }
}
