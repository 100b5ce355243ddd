/** What a user value, a default, a select or a range does to the value of a symbol, in
    every sound configuration. */
module KconfigLaws {
  import opened Wrappers
  import opened KconfigExpr
  import opened KconfigMake
  import opened KconfigSymbols
  import opened KconfigValues

  // ----- a symbol does not see its own user value -----

  /** The values below s, which are all that s sees. */
  ghost function LocalEnv(c: Config, rank: seq<nat>, users: Users, s: SymId): Env
    requires Sound(c, rank, users) && s < |c.syms|
  {
    (u: SymId) =>
      if u < |c.syms| && rank[u] < rank[s] then SymVal(IsTri(c.syms[u].ty), Value(c, rank, users, u)) else NOTHING
  }

  ghost predicate LocalOn(c: Config, rank: seq<nat>, users: Users, s: SymId)
    requires Sound(c, rank, users) && s < |c.syms|
  {
    c.modules.Some? && rank[c.modules.value] < rank[s] && Value(c, rank, users, c.modules.value) == "y"
  }

  lemma LocalValue(c: Config, rank: seq<nat>, users: Users, s: SymId)
    requires Sound(c, rank, users) && s < |c.syms| && c.syms[s].special.None?
    ensures var env, on := LocalEnv(c, rank, users, s), LocalOn(c, rank, users, s);
      Value(c, rank, users, s) == NewValue(c.num, c.syms[s], users[s], See(c.num, c.syms[s], env, on), on)
  {
  }

  lemma {:induction false} ValueBelow(c: Config, rank: seq<nat>, users: Users, s: SymId, v: Option<string>, u: SymId)
    requires Sound(c, rank, users) && s < |c.syms| && Sound(c, rank, users[s := v])
    requires u < |c.syms| && rank[u] < rank[s]
    ensures Value(c, rank, users, u) == Value(c, rank, users[s := v], u)
    decreases rank[u]
  {
    var users' := users[s := v];
    if c.syms[u].special.None? {
      forall t: SymId | t < |c.syms| && rank[t] < rank[u]
        ensures Value(c, rank, users, t) == Value(c, rank, users', t)
      {
        ValueBelow(c, rank, users, s, v, t);
      }
      LocalValue(c, rank, users, u);
      LocalValue(c, rank, users', u);
      var env, env' := LocalEnv(c, rank, users, u), LocalEnv(c, rank, users', u);
      SeeAgrees(c.num, c.syms[u], env, env', LocalOn(c, rank, users, u));
    }
  }

  /** What get_value of s looks up. */
  ghost function Sees(c: Config, rank: seq<nat>, users: Users, s: SymId): Seen
    requires Sound(c, rank, users) && s < |c.syms|
  {
    See(c.num, c.syms[s], EnvOf(c, rank, users), On(c, rank, users))
  }

  lemma OwnSeen(c: Config, rank: seq<nat>, users: Users, s: SymId, v: Option<string>)
    requires Sound(c, rank, users) && s < |c.syms| && Sound(c, rank, users[s := v])
    ensures Sees(c, rank, users, s) == Sees(c, rank, users[s := v], s)
  {
    var users', d := users[s := v], c.syms[s];
    var env, env' := EnvOf(c, rank, users), EnvOf(c, rank, users');
    forall u | ReadsSym(d, u)
      ensures env(u) == env'(u)
    {
      RankedReads(c, rank, s, u);
      ValueBelow(c, rank, users, s, v, u);
    }
    SeeAgrees(c.num, d, env, env', On(c, rank, users));
    if c.modules.Some? {
      if rank[c.modules.value] < rank[s] {
        ValueBelow(c, rank, users, s, v, c.modules.value);
      } else {
        EnvIsHushed(c, rank, users');
        PlainSee(c.num, d, Quiet(c), env');
      }
    }
  }

  /** The visibility of a symbol does not depend on its user value. */
  lemma OwnVisibility(c: Config, rank: seq<nat>, users: Users, s: SymId, v: Option<string>)
    requires Sound(c, rank, users) && s < |c.syms| && Sound(c, rank, users[s := v])
    ensures VisibilityOf(c, rank, users, s) == VisibilityOf(c, rank, users[s := v], s)
  {
    OwnSeen(c, rank, users, s, v);
  }

  lemma PlainOwn(c: Config, rank: seq<nat>, users: Users, s: SymId, v: Option<string>)
    requires Sound(c, rank, users) && s < |c.syms| && Sound(c, rank, users[s := v])
    requires On(c, rank, users) != On(c, rank, users[s := v]) && c.syms[s].special.None?
    ensures NewValue(c.num, c.syms[s], v, Sees(c, rank, users, s), true)
         == NewValue(c.num, c.syms[s], v, Sees(c, rank, users, s), false)
  {
    if rank[c.modules.value] < rank[s] {
      ValueBelow(c, rank, users, s, v, c.modules.value);
    }
    var env := EnvOf(c, rank, users);
    EnvIsHushed(c, rank, users);
    PlainSee(c.num, c.syms[s], Quiet(c), env);
    assert users[s := v][s] == v;
    PlainNewValue(c.num, c.syms[s], v, Quiet(c), env);
  }

  /** The value a user value gives depends on it and on what s sees without it. */
  lemma OwnValue(c: Config, rank: seq<nat>, users: Users, s: SymId, v: Option<string>)
    requires Sound(c, rank, users) && s < |c.syms| && Sound(c, rank, users[s := v]) && c.syms[s].special.None?
    ensures Value(c, rank, users[s := v], s)
         == NewValue(c.num, c.syms[s], v, Sees(c, rank, users, s), On(c, rank, users))
  {
    OwnSeen(c, rank, users, s, v);
    ValueIs(c, rank, users[s := v], s);
    if On(c, rank, users) != On(c, rank, users[s := v]) {
      PlainOwn(c, rank, users, s, v);
    }
  }

  lemma IgnoredNew(num: Numerals, d: SymDef, v: Option<string>, w: Option<string>, seen: Seen, on: bool)
    requires seen.vis == N
    ensures NewValue(num, d, v, seen, on) == NewValue(num, d, w, seen, on)
  {
  }

  /** While a symbol is invisible, its user value has no effect. */
  lemma InvisibleIsIgnored(c: Config, rank: seq<nat>, users: Users, s: SymId, v: Option<string>)
    requires Sound(c, rank, users) && s < |c.syms| && Sound(c, rank, users[s := v])
    requires VisibilityOf(c, rank, users, s) == N
    ensures Value(c, rank, users[s := v], s) == Value(c, rank, users, s)
  {
    if c.syms[s].special.None? {
      OwnValue(c, rank, users, s, v);
      ValueIs(c, rank, users, s);
      IgnoredNew(c.num, c.syms[s], users[s], v, Sees(c, rank, users, s), On(c, rank, users));
    }
  }

  // ----- visibility -----

  lemma {:induction false} VisibilityIsGreatest(vis: Tri, ps: seq<Option<Expr>>, env: Env, on: bool)
    requires Promote(vis, on) == vis
    ensures IsGreatest(VisibilityFrom(vis, ps, env, on), [vis] + KconfigMake.Values(ps, env, on))
    decreases |ps|
  {
    if ps != [] {
      var next := Max(vis, Eval(ps[0], env, on));
      VisibilityIsGreatest(next, ps[1..], env, on);
      assert KconfigMake.Values(ps, env, on) == [Eval(ps[0], env, on)] + KconfigMake.Values(ps[1..], env, on);
    } else {
      assert VisibilityFrom(vis, ps, env, on) in [vis];
    }
  }

  lemma GreatestOfRest(v: Tri, vs: seq<Tri>)
    requires IsGreatest(v, [N] + vs)
    ensures IsGreatest(v, vs) && (v == N <==> forall p :: p in vs ==> p == N)
  {
    assert forall p :: p in vs ==> p in [N] + vs;
  }

  /** A tristate is as visible as its most visible prompt, and any other symbol is visible
      exactly if some prompt is. */
  lemma VisibilityIs(c: Config, rank: seq<nat>, users: Users, s: SymId)
    requires Sound(c, rank, users) && s < |c.syms|
    ensures
      var vis, prompts := VisibilityOf(c, rank, users, s),
        KconfigMake.Values(c.syms[s].prompts, EnvOf(c, rank, users), On(c, rank, users));
      if c.syms[s].ty == Tristate then IsGreatest(vis, prompts)
      else vis == if forall p :: p in prompts ==> p == N then N else Y
  {
    var ps, env, on := c.syms[s].prompts, EnvOf(c, rank, users), On(c, rank, users);
    VisibilityIsGreatest(N, ps, env, on);
    GreatestOfRest(VisibilityFrom(N, ps, env, on), KconfigMake.Values(ps, env, on));
  }

  lemma PromotedVisibility(c: Config, rank: seq<nat>, users: Users, s: SymId)
    requires Sound(c, rank, users) && s < |c.syms|
    ensures var on := On(c, rank, users);
      Promote(VisibilityOf(c, rank, users, s), on) == VisibilityOf(c, rank, users, s)
  {
    var ps, env, on := c.syms[s].prompts, EnvOf(c, rank, users), On(c, rank, users);
    VisibilityIsGreatest(N, ps, env, on);
    assert forall t :: t in KconfigMake.Values(ps, env, on) ==> Promote(t, on) == t;
  }

  // ----- bool and tristate symbols -----

  lemma TriText(t: Tri)
    ensures TriOf(Text(t)) == t
    ensures forall v: string :: (v == "y" || v == "m" || v == "n") ==> Text(TriOf(v)) == v
  {
    assert "y"[0] != "m"[0] && "y"[0] != "n"[0] && "m"[0] != "n"[0];
  }

  /** How far s is selected. */
  ghost function Selected(c: Config, rank: seq<nat>, users: Users, s: SymId): Tri
    requires Sound(c, rank, users) && s < |c.syms|
  {
    Eval(Some(c.syms[s].revDep), EnvOf(c, rank, users), On(c, rank, users))
  }

  ghost predicate IsSwitch(c: Config, s: SymId) {
    s < |c.syms| && c.syms[s].special.None? && IsTri(c.syms[s].ty)
  }

  lemma SwitchValue(c: Config, rank: seq<nat>, users: Users, s: SymId)
    requires Sound(c, rank, users) && IsSwitch(c, s)
    ensures var t := TriValue(c.syms[s].ty, users[s], Sees(c, rank, users, s), On(c, rank, users));
      Value(c, rank, users, s) == Text(t) && TriOf(Value(c, rank, users, s)) == t
  {
    ValueIs(c, rank, users, s);
    TriText(TriValue(c.syms[s].ty, users[s], Sees(c, rank, users, s), On(c, rank, users)));
  }

  /** A symbol is at least as high as it is selected, whatever the user and the defaults
      say. */
  lemma SelectedAtLeast(c: Config, rank: seq<nat>, users: Users, s: SymId)
    requires Sound(c, rank, users) && IsSwitch(c, s)
    ensures Rank(Selected(c, rank, users, s)) <= Rank(TriOf(Value(c, rank, users, s)))
  {
    SwitchValue(c, rank, users, s);
  }

  lemma LeastIsUnique(v: Tri, w: Tri, s: seq<Tri>)
    requires IsLeast(v, s) && IsLeast(w, s)
    ensures v == w
  {
  }

  /** Each select counts: the symbol is at least as high as the least of the selecting symbol
      and the conditions of that select. */
  lemma EachSelectCounts(
    c: Config, rank: seq<nat>, users: Users, s: SymId, selects: seq<Select>, i: nat, v: Tri)
    requires Sound(c, rank, users) && IsSwitch(c, s) && c.syms[s].revDep == RevDep(selects) && i < |selects|
    requires IsLeast(v, SelectValues(selects[i], EnvOf(c, rank, users), On(c, rank, users)))
    ensures Rank(v) <= Rank(TriOf(Value(c, rank, users, s)))
  {
    var vs := RevDepIsGreatest(selects, EnvOf(c, rank, users), On(c, rank, users));
    SelectedAtLeast(c, rank, users, s);
    LeastIsUnique(v, vs[i], SelectValues(selects[i], EnvOf(c, rank, users), On(c, rank, users)));
    assert vs[i] in vs;
  }

  /** The user value of a visible symbol is its value exactly when it is high enough for the
      selects, and visible that high or selected just so. */
  lemma UserIsValueIff(c: Config, rank: seq<nat>, users: Users, s: SymId)
    requires Sound(c, rank, users) && IsSwitch(c, s) && users[s].Some?
    requires VisibilityOf(c, rank, users, s) != N
    ensures
      var u, on := users[s].value, On(c, rank, users);
      var rev, vis := Selected(c, rank, users, s), Promote(VisibilityOf(c, rank, users, s), on);
      Value(c, rank, users, s) == u <==>
        && (u == "m" ==> on)
        && Rank(rev) <= Rank(TriOf(u)) && (Rank(TriOf(u)) <= Rank(vis) || TriOf(u) == rev)
  {
    SwitchValue(c, rank, users, s);
    assert Assignable(c, s, users[s].value);
    TriText(N);
  }

  /** Without a select, the value is neither above the user value nor above the visibility. */
  lemma UserIsBound(c: Config, rank: seq<nat>, users: Users, s: SymId)
    requires Sound(c, rank, users) && IsSwitch(c, s) && users[s].Some?
    requires VisibilityOf(c, rank, users, s) != N && Selected(c, rank, users, s) == N
    ensures
      var v, on := TriOf(Value(c, rank, users, s)), On(c, rank, users);
      && Rank(v) <= Rank(Promote(TriOf(users[s].value), on))
      && Rank(v) <= Rank(Promote(VisibilityOf(c, rank, users, s), on))
  {
    SwitchValue(c, rank, users, s);
    assert Assignable(c, s, users[s].value);
    TriText(N);
  }

  /** Without modules nothing has the value m. */
  lemma NoModulesNoM(c: Config, rank: seq<nat>, users: Users, s: SymId)
    requires Sound(c, rank, users) && IsSwitch(c, s)
    requires !On(c, rank, users) || c.syms[s].ty == Bool
    ensures Value(c, rank, users, s) != "m"
  {
    SwitchValue(c, rank, users, s);
    TriText(M);
  }

  /** ... and a visible m counts as y: as a user value, and in every condition. */
  lemma WithoutModulesMIsY(c: Config, rank: seq<nat>, users: Users, s: SymId, e: Expr)
    requires Sound(c, rank, users) && IsSwitch(c, s) && users[s].Some? && !On(c, rank, users)
    requires VisibilityOf(c, rank, users, s) != N
    ensures users[s].value != "n" ==> Value(c, rank, users, s) == "y"
    ensures Eval(Some(e), EnvOf(c, rank, users), false) == N <==> EvalRec(e, EnvOf(c, rank, users)) == N
    ensures Eval(Some(e), EnvOf(c, rank, users), false) != M
  {
    SwitchValue(c, rank, users, s);
    assert Assignable(c, s, users[s].value);
    TriText(N);
  }

  lemma TextAdmitted(num: Numerals, ty: SymType, t: Tri)
    requires ty == Tristate || (ty == Bool && t != M)
    ensures Admits(num, ty, Text(t))
  {
  }

  /** Every value of a bool or tristate may also be assigned to it. */
  lemma ValueIsAssignable(c: Config, rank: seq<nat>, users: Users, s: SymId)
    requires Sound(c, rank, users) && IsSwitch(c, s) && c.syms[s].defined
    ensures Assignable(c, s, Value(c, rank, users, s))
  {
    SwitchValue(c, rank, users, s);
    TextAdmitted(c.num, c.syms[s].ty, TriValue(c.syms[s].ty, users[s], Sees(c, rank, users, s), On(c, rank, users)));
  }

  /** get_assignable_values */
  ghost function AssignableValues(c: Config, rank: seq<nat>, users: Users, s: SymId): seq<string>
    requires Sound(c, rank, users) && s < |c.syms|
  {
    var rev, vis := Selected(c, rank, users, s), VisibilityOf(c, rank, users, s);
    if !IsTri(c.syms[s].ty) || (rev == M && c.syms[s].ty == Bool) || Rank(vis) <= Rank(rev) then []
    else ["n", "m", "y"][Rank(rev)..Rank(vis) + 1]
  }

  lemma OfferedIs(lo: Tri, hi: Tri, v: string)
    requires Rank(lo) < Rank(hi)
    ensures v in ["n", "m", "y"][Rank(lo)..Rank(hi) + 1] <==>
      (v == "n" || v == "m" || v == "y") && Rank(lo) <= Rank(TriOf(v)) <= Rank(hi)
  {
    var all := ["n", "m", "y"];
    assert all[0] == "n" && all[1] == "m" && all[2] == "y";
    assert "n"[0] != "m"[0] && "n"[0] != "y"[0] && "m"[0] != "y"[0];
    var r := all[Rank(lo)..Rank(hi) + 1];
    assert forall i :: 0 <= i < |r| ==> r[i] == all[Rank(lo) + i];
    if Rank(lo) <= Rank(TriOf(v)) <= Rank(hi) && (v == "n" || v == "m" || v == "y") {
      assert r[Rank(TriOf(v)) - Rank(lo)] == v;
    }
  }

  lemma KeptIff(ty: SymType, v: string, seen: Seen, on: bool)
    requires v == "n" || (v == "m" && ty == Tristate) || v == "y"
    requires Promote(seen.vis, on) == seen.vis && Promote(seen.rev, on) == seen.rev
    requires Rank(seen.rev) < Rank(seen.vis) && (ty == Bool ==> seen.rev != M && seen.vis != M)
    ensures Text(TriValue(ty, Some(v), seen, on)) == v <==>
      (v == "m" ==> on) && Rank(seen.rev) <= Rank(TriOf(v)) <= Rank(seen.vis)
  {
    TriText(N);
    TriText(TriValue(ty, Some(v), seen, on));
  }

  /** What get_assignable_values offers for a symbol that can be changed is what may be
      assigned and is not truncated, but for m: that is offered between n and y even to a
      bool, which refuses it, and without modules, where it becomes y. */
  lemma OfferedIff(c: Config, rank: seq<nat>, users: Users, s: SymId, v: string)
    requires Sound(c, rank, users) && IsSwitch(c, s) && c.syms[s].defined
    requires AssignableValues(c, rank, users, s) != []
    ensures Assignable(c, s, v) ==> Sound(c, rank, users[s := Some(v)])
    ensures
      (v in AssignableValues(c, rank, users, s) && (v == "m" ==> c.syms[s].ty == Tristate && On(c, rank, users)))
      <==> Assignable(c, s, v) && Value(c, rank, users[s := Some(v)], s) == v
  {
    var rev, vis := Selected(c, rank, users, s), VisibilityOf(c, rank, users, s);
    OfferedIs(rev, vis, v);
    PromotedVisibility(c, rank, users, s);
    if Assignable(c, s, v) {
      OwnValue(c, rank, users, s, Some(v));
      KeptIff(c.syms[s].ty, v, Sees(c, rank, users, s), On(c, rank, users));
    } else if v in AssignableValues(c, rank, users, s) {
      assert v == "n" || v == "m" || v == "y";
      assert Admits(c.num, c.syms[s].ty, v) <==> v != "m" || c.syms[s].ty == Tristate;
    }
  }

  /** A visible bool that nothing selects is offered m, and refuses it. */
  lemma BoolIsOfferedM(c: Config, rank: seq<nat>, users: Users, s: SymId)
    requires Sound(c, rank, users) && IsSwitch(c, s) && c.syms[s].ty == Bool
    requires Selected(c, rank, users, s) == N && VisibilityOf(c, rank, users, s) != N
    ensures "m" in AssignableValues(c, rank, users, s) && !Assignable(c, s, "m")
  {
    assert "m"[0] != "y"[0] && "m"[0] != "n"[0];
    assert VisibilityOf(c, rank, users, s) == Y && TriOf("m") == M;
    OfferedIs(N, Y, "m");
    assert AssignableValues(c, rank, users, s) == ["n", "m", "y"][Rank(N)..Rank(Y) + 1];
  }

  // ----- defaults -----

  /** The user has no say in the value of s. */
  ghost predicate LeftToDefaults(c: Config, rank: seq<nat>, users: Users, s: SymId)
    requires Sound(c, rank, users) && s < |c.syms|
  {
    users[s].None? || VisibilityOf(c, rank, users, s) == N
  }

  /** The condition of the i-th default holds, and of none before it. */
  ghost predicate FirstDefault(c: Config, rank: seq<nat>, users: Users, s: SymId, i: nat)
    requires Sound(c, rank, users) && s < |c.syms|
  {
    var ds, env, on := c.syms[s].defaults, EnvOf(c, rank, users), On(c, rank, users);
    && i < |ds| && Eval(ds[i].cond, env, on) != N
    && forall j :: 0 <= j < i ==> Eval(ds[j].cond, env, on) == N
  }

  ghost predicate NoDefault(c: Config, rank: seq<nat>, users: Users, s: SymId)
    requires Sound(c, rank, users) && s < |c.syms|
  {
    var ds := c.syms[s].defaults;
    forall j :: 0 <= j < |ds| ==> Eval(ds[j].cond, EnvOf(c, rank, users), On(c, rank, users)) == N
  }

  lemma {:induction false} ActiveFirst(ds: seq<Default>, i: nat, env: Env, on: bool)
    requires i <= |ds| && forall j :: 0 <= j < i ==> Eval(ds[j].cond, env, on) == N
    requires i < |ds| ==> Eval(ds[i].cond, env, on) != N
    ensures Active(ds, env, on) == if i < |ds| then Some(ds[i]) else None
    decreases i
  {
    if i > 0 {
      ActiveFirst(ds[1..], i - 1, env, on);
    }
  }

  /** Left to its defaults and not selected, a tristate is the least of its first active
      default and that default's condition, and a bool is on exactly if that is not n. */
  lemma DefaultOfSwitch(c: Config, rank: seq<nat>, users: Users, s: SymId, i: nat) returns (least: Tri)
    requires Sound(c, rank, users) && IsSwitch(c, s) && LeftToDefaults(c, rank, users, s)
    requires Selected(c, rank, users, s) == N && FirstDefault(c, rank, users, s, i)
    ensures
      var d, env, on := c.syms[s].defaults[i], EnvOf(c, rank, users), On(c, rank, users);
      IsLeast(least, [Eval(Some(d.val), env, on), Eval(d.cond, env, on)])
    ensures Value(c, rank, users, s) ==
      if c.syms[s].ty == Tristate then Text(least) else if least == N then "n" else "y"
  {
    var d, env, on := c.syms[s].defaults[i], EnvOf(c, rank, users), On(c, rank, users);
    SwitchValue(c, rank, users, s);
    ActiveFirst(c.syms[s].defaults, i, env, on);
    least := Min(Eval(Some(d.val), env, on), Eval(d.cond, env, on));
  }

  /** A string left to its defaults is the text of the first active one: a string, or the
      value of a symbol. */
  lemma DefaultOfString(c: Config, rank: seq<nat>, users: Users, s: SymId, i: nat)
    requires Sound(c, rank, users) && s < |c.syms| && c.syms[s].special.None? && c.syms[s].ty == String
    requires LeftToDefaults(c, rank, users, s) && FirstDefault(c, rank, users, s, i)
    ensures
      var d := c.syms[s].defaults[i].val;
      && (d.At? && d.a.Str? ==> Value(c, rank, users, s) == d.a.s)
      && (d.At? && d.a.Sym? && d.a.id < |c.syms| ==> Value(c, rank, users, s) == Value(c, rank, users, d.a.id))
  {
    ValueIs(c, rank, users, s);
    ActiveFirst(c.syms[s].defaults, i, EnvOf(c, rank, users), On(c, rank, users));
  }

  /** With no active default either, a switch is off unless selected, and a string empty. */
  lemma WithoutDefault(c: Config, rank: seq<nat>, users: Users, s: SymId)
    requires Sound(c, rank, users) && s < |c.syms| && c.syms[s].special.None?
    requires LeftToDefaults(c, rank, users, s) && NoDefault(c, rank, users, s)
    ensures c.syms[s].ty == String ==> Value(c, rank, users, s) == ""
    ensures IsSwitch(c, s) ==>
      (Value(c, rank, users, s) == "n" <==> Selected(c, rank, users, s) == N)
  {
    ValueIs(c, rank, users, s);
    ActiveFirst(c.syms[s].defaults, |c.syms[s].defaults|, EnvOf(c, rank, users), On(c, rank, users));
    if IsSwitch(c, s) {
      SwitchValue(c, rank, users, s);
      TriText(N);
    }
  }

  // ----- strings -----

  /** A visible string takes any user value. */
  lemma StringTakesUser(c: Config, rank: seq<nat>, users: Users, s: SymId, v: string)
    requires Sound(c, rank, users) && s < |c.syms| && c.syms[s].special.None? && c.syms[s].defined
    requires c.syms[s].ty == String && VisibilityOf(c, rank, users, s) != N
    ensures Sound(c, rank, users[s := Some(v)]) && Value(c, rank, users[s := Some(v)], s) == v
  {
    var users' := users[s := Some(v)];
    OwnVisibility(c, rank, users, s, Some(v));
    ValueIs(c, rank, users', s);
  }

  /** `s = "w"` is y exactly for the user value w, `s != "w"` exactly for all others, and
      neither is ever m. */
  lemma RelationFollowsUser(c: Config, rank: seq<nat>, users: Users, s: SymId, v: string, w: string)
    requires Sound(c, rank, users) && s < |c.syms| && c.syms[s].special.None? && c.syms[s].defined
    requires c.syms[s].ty == String && VisibilityOf(c, rank, users, s) != N
    ensures Sound(c, rank, users[s := Some(v)])
    ensures var env := EnvOf(c, rank, users[s := Some(v)]);
      && EvalRec(Rel(true, Sym(s), Str(w)), env) == (if w == v then Y else N)
      && EvalRec(Rel(false, Sym(s), Str(w)), env) == (if w == v then N else Y)
  {
    StringTakesUser(c, rank, users, s, v);
  }

  /** In an expression a bool or tristate counts as its value, and any other symbol as n. */
  lemma SymbolCounts(c: Config, rank: seq<nat>, users: Users, s: SymId)
    requires Sound(c, rank, users) && s < |c.syms| && c.syms[s].special.None?
    ensures
      var t := EvalRec(At(Sym(s)), EnvOf(c, rank, users));
      if IsTri(c.syms[s].ty) then Text(t) == Value(c, rank, users, s) else t == N
  {
    if IsTri(c.syms[s].ty) {
      SwitchValue(c, rank, users, s);
    }
  }

  /** n, m, y and what comes from the environment keep their value, and cannot be assigned. */
  lemma SpecialIsFixed(c: Config, rank: seq<nat>, users: Users, s: SymId)
    requires Sound(c, rank, users) && s < |c.syms| && c.syms[s].special.Some?
    ensures Some(Value(c, rank, users, s)) == c.syms[s].special && forall v :: !Assignable(c, s, v)
  {
  }

  /** A symbol that is only referred to has its name as its value. */
  lemma UndefinedIsName(c: Config, rank: seq<nat>, users: Users, s: SymId)
    requires Sound(c, rank, users) && s < |c.syms| && c.syms[s].special.None? && c.syms[s].ty == Unknown
    ensures Value(c, rank, users, s) == c.syms[s].name && forall v :: !Assignable(c, s, v)
  {
    ValueIs(c, rank, users, s);
  }

  // ----- numbers -----

  /** A number in the notation of the type. */
  predicate IsNumber(c: Config, ty: SymType, t: string) {
    c.num.isNumber(t, if ty == Hex then 16 else 10)
  }

  function NumberOf(c: Config, ty: SymType, t: string): int {
    c.num.parse(t, if ty == Hex then 16 else 10)
  }

  /** What int(), str() and hex() promise: a number that is shown reads as itself, and an
      empty text is no number. */
  ghost predicate Readable(num: Numerals) {
    && (forall n: int, b: nat :: b == 10 || b == 16 ==>
          num.isNumber(num.show(n, b), b) && num.parse(num.show(n, b), b) == n)
    && !num.isNumber("", 10) && !num.isNumber("", 16)
  }

  ghost predicate IsQuantity(c: Config, s: SymId) {
    s < |c.syms| && c.syms[s].special.None? && (c.syms[s].ty == Int || c.syms[s].ty == Hex)
  }

  /** The text of a bound stands for n: a bound that is no number counts as 0. */
  ghost predicate Bounds(c: Config, rank: seq<nat>, users: Users, ty: SymType, a: Atom, n: int)
    requires Sound(c, rank, users)
  {
    var t := AtomText(a, EnvOf(c, rank, users));
    n == if IsNumber(c, ty, t) then NumberOf(c, ty, t) else 0
  }

  /** The first range of s whose condition holds goes from lo to hi. */
  ghost predicate InForce(c: Config, rank: seq<nat>, users: Users, s: SymId, i: nat, lo: int, hi: int)
    requires Sound(c, rank, users) && s < |c.syms|
  {
    var rs, env, on := c.syms[s].ranges, EnvOf(c, rank, users), On(c, rank, users);
    && i < |rs| && Eval(rs[i].cond, env, on) != N
    && (forall j :: 0 <= j < i ==> Eval(rs[j].cond, env, on) == N)
    && Bounds(c, rank, users, c.syms[s].ty, rs[i].low, lo) && Bounds(c, rank, users, c.syms[s].ty, rs[i].high, hi)
  }

  ghost predicate Unlimited(c: Config, rank: seq<nat>, users: Users, s: SymId)
    requires Sound(c, rank, users) && s < |c.syms|
  {
    var rs := c.syms[s].ranges;
    forall j :: 0 <= j < |rs| ==> Eval(rs[j].cond, EnvOf(c, rank, users), On(c, rank, users)) == N
  }

  lemma {:induction false} RangeFirst(rs: seq<Range>, i: nat, env: Env, on: bool)
    requires i <= |rs| && forall j :: 0 <= j < i ==> Eval(rs[j].cond, env, on) == N
    requires i < |rs| ==> Eval(rs[i].cond, env, on) != N
    ensures ActiveRange(rs, env, on) == if i < |rs| then Some(rs[i]) else None
    decreases i
  {
    if i > 0 {
      RangeFirst(rs[1..], i - 1, env, on);
    }
  }

  lemma LimitsAre(c: Config, rank: seq<nat>, users: Users, s: SymId, i: nat, lo: int, hi: int)
    requires Sound(c, rank, users) && IsQuantity(c, s) && InForce(c, rank, users, s, i, lo, hi)
    ensures Sees(c, rank, users, s).limits == Some((lo, hi))
  {
    RangeFirst(c.syms[s].ranges, i, EnvOf(c, rank, users), On(c, rank, users));
  }

  lemma NoLimits(c: Config, rank: seq<nat>, users: Users, s: SymId)
    requires Sound(c, rank, users) && IsQuantity(c, s) && Unlimited(c, rank, users, s)
    ensures Sees(c, rank, users, s).limits == None
  {
    RangeFirst(c.syms[s].ranges, |c.syms[s].ranges|, EnvOf(c, rank, users), On(c, rank, users));
  }

  lemma QuantityValue(c: Config, rank: seq<nat>, users: Users, s: SymId)
    requires Sound(c, rank, users) && IsQuantity(c, s)
    ensures Value(c, rank, users, s)
      == NumberValue(c.num, if c.syms[s].ty == Hex then 16 else 10, users[s], Sees(c, rank, users, s))
  {
    ValueIs(c, rank, users, s);
  }

  /** Exactly the numbers can be assigned.  One is the value of a visible symbol, just as it
      was written, if it is within the range in force; otherwise the value is what it is
      without it. */
  lemma NumberTakesUser(
    c: Config, rank: seq<nat>, users: Users, s: SymId, v: string, i: nat, lo: int, hi: int)
    requires Sound(c, rank, users) && IsQuantity(c, s) && c.syms[s].defined
    requires users[s] == None && VisibilityOf(c, rank, users, s) != N && InForce(c, rank, users, s, i, lo, hi)
    ensures Assignable(c, s, v) <==> IsNumber(c, c.syms[s].ty, v)
    ensures IsNumber(c, c.syms[s].ty, v) ==> Sound(c, rank, users[s := Some(v)])
    ensures IsNumber(c, c.syms[s].ty, v) ==>
      Value(c, rank, users[s := Some(v)], s)
        == if lo <= NumberOf(c, c.syms[s].ty, v) <= hi then v else Value(c, rank, users, s)
  {
    var users' := users[s := Some(v)];
    assert Assignable(c, s, v) <==> IsNumber(c, c.syms[s].ty, v);
    if IsNumber(c, c.syms[s].ty, v) {
      OwnSeen(c, rank, users, s, Some(v));
      LimitsAre(c, rank, users, s, i, lo, hi);
      QuantityValue(c, rank, users, s);
      QuantityValue(c, rank, users', s);
    }
  }

  lemma UnlimitedTakesUser(c: Config, rank: seq<nat>, users: Users, s: SymId, v: string)
    requires Sound(c, rank, users) && IsQuantity(c, s) && c.syms[s].defined && IsNumber(c, c.syms[s].ty, v)
    requires VisibilityOf(c, rank, users, s) != N && Unlimited(c, rank, users, s)
    ensures Sound(c, rank, users[s := Some(v)]) && Value(c, rank, users[s := Some(v)], s) == v
  {
    assert Assignable(c, s, v);
    OwnSeen(c, rank, users, s, Some(v));
    NoLimits(c, rank, users, s);
    QuantityValue(c, rank, users[s := Some(v)], s);
  }

  /** Whatever users and defaults say, a value that is a number is within the range in force,
      exactly if that range is not empty. */
  lemma NumberInRange(c: Config, rank: seq<nat>, users: Users, s: SymId, i: nat, lo: int, hi: int)
    requires Sound(c, rank, users) && IsQuantity(c, s) && Readable(c.num)
    requires InForce(c, rank, users, s, i, lo, hi) && IsNumber(c, c.syms[s].ty, Value(c, rank, users, s))
    ensures lo <= NumberOf(c, c.syms[s].ty, Value(c, rank, users, s)) <= hi <==> lo <= hi
  {
    LimitsAre(c, rank, users, s, i, lo, hi);
    QuantityValue(c, rank, users, s);
  }

  function Distance(a: int, b: int): nat {
    if a < b then b - a else a - b
  }

  /** A number left to its defaults takes the first active one: as it is written if it is no
      number or within the range in force, and otherwise the number of the range that is
      nearest to it. */
  lemma DefaultOfNumber(
    c: Config, rank: seq<nat>, users: Users, s: SymId, k: nat, i: nat, lo: int, hi: int, n: int)
    requires Sound(c, rank, users) && IsQuantity(c, s) && Readable(c.num)
    requires LeftToDefaults(c, rank, users, s) && FirstDefault(c, rank, users, s, k)
    requires c.syms[s].defaults[k].val.At? && InForce(c, rank, users, s, i, lo, hi) && lo <= n <= hi
    ensures
      var ty, v := c.syms[s].ty, Value(c, rank, users, s);
      var t := AtomText(c.syms[s].defaults[k].val.a, EnvOf(c, rank, users));
      if IsNumber(c, ty, t) && !(lo <= NumberOf(c, ty, t) <= hi) then
        && IsNumber(c, ty, v) && lo <= NumberOf(c, ty, v) <= hi
        && Distance(NumberOf(c, ty, v), NumberOf(c, ty, t)) <= Distance(n, NumberOf(c, ty, t))
      else v == t
  {
    LimitsAre(c, rank, users, s, i, lo, hi);
    ActiveFirst(c.syms[s].defaults, k, EnvOf(c, rank, users), On(c, rank, users));
    QuantityValue(c, rank, users, s);
  }

  lemma UnlimitedDefault(c: Config, rank: seq<nat>, users: Users, s: SymId, k: nat)
    requires Sound(c, rank, users) && IsQuantity(c, s) && Unlimited(c, rank, users, s)
    requires LeftToDefaults(c, rank, users, s) && FirstDefault(c, rank, users, s, k)
    requires c.syms[s].defaults[k].val.At?
    ensures Value(c, rank, users, s) == AtomText(c.syms[s].defaults[k].val.a, EnvOf(c, rank, users))
  {
    NoLimits(c, rank, users, s);
    ActiveFirst(c.syms[s].defaults, k, EnvOf(c, rank, users), On(c, rank, users));
    QuantityValue(c, rank, users, s);
  }

  /** With no default either, a number is empty, or the low end of a range above zero. */
  lemma NumberWithoutDefault(c: Config, rank: seq<nat>, users: Users, s: SymId, i: nat, lo: int, hi: int)
    requires Sound(c, rank, users) && IsQuantity(c, s) && Readable(c.num)
    requires LeftToDefaults(c, rank, users, s) && NoDefault(c, rank, users, s)
    ensures Unlimited(c, rank, users, s) ==> Value(c, rank, users, s) == ""
    ensures InForce(c, rank, users, s, i, lo, hi) ==>
      var ty, v := c.syms[s].ty, Value(c, rank, users, s);
      if lo > 0 then IsNumber(c, ty, v) && NumberOf(c, ty, v) == lo else v == ""
  {
    ActiveFirst(c.syms[s].defaults, |c.syms[s].defaults|, EnvOf(c, rank, users), On(c, rank, users));
    QuantityValue(c, rank, users, s);
    if Unlimited(c, rank, users, s) {
      NoLimits(c, rank, users, s);
    }
    if InForce(c, rank, users, s, i, lo, hi) {
      LimitsAre(c, rank, users, s, i, lo, hi);
    }
  }
}
