/** Where the caches of symbols do not follow the values: exactly when, and with which
    configurations. */
module KconfigStale {
  import opened Wrappers
  import opened KconfigExpr
  import opened KconfigSymbols
  import opened KconfigValues
  import opened KconfigCache

  // ----- MODULES -----

  /** A new user value of s, with s and its dependents cleared, leaves right caches exactly
      when it does not enable or disable modules, in any configuration where the value of
      a plain `default m` next to s is cached.  unset_user_value clears no more for
      MODULES, and set_user_value no more for a symbol MODULES depends on. */
  lemma RightIff(
    c: Config, rank: seq<nat>, users: Users, s: SymId, v: Option<string>, probe: SymId,
    frozen: seq<Option<Tri>>, before: seq<Cache>, after: seq<Cache>)
    requires Sound(c, rank, users) && s < |c.syms| && Sound(c, rank, users[s := v])
    requires AreRight(c, rank, users, frozen, before) && Cleared(c, before, Dependents(c, rank, s) + {s}, after)
    requires probe < |c.syms| && probe != s && IsProbe(c.syms[probe]) && before[probe].val.Some?
    ensures AreRight(c, rank, users[s := v], frozen, after) <==> (On(c, rank, users) <==> On(c, rank, users[s := v]))
  {
    if On(c, rank, users) == On(c, rank, users[s := v]) {
      ClearedAreRight(c, rank, users, s, v, frozen, before, after);
    } else {
      ProbeIsUntouched(c, rank, s, probe);
      ProbeValue(c, rank, users, probe);
      ProbeValue(c, rank, users[s := v], probe);
      assert IsRight(c, rank, users, probe, before[probe], frozen[probe]);
      assert "m"[0] != "y"[0];
      assert !IsRight(c, rank, users[s := v], probe, after[probe], frozen[probe]);
    }
  }

  /** `config A bool "A"`, `config MODULES bool "Modules"` with a condition or without, and
      a tristate with `default m`. */
  function ModulesConfig(num: Numerals, cond: Option<Expr>): Config {
    Config(
      [ SymDef("A", Bool, None, true, [None], [], [], CONST_N),
        SymDef("MODULES", Bool, None, true, [cond], [], [], CONST_N),
        SymDef("DRIVER", Tristate, None, true, [], [Default(At(Str("m")), None)], [], CONST_N) ],
      Some(1), num)
  }

  const IF_A: Option<Expr> := Some(At(Sym(0)))
  const RANK: seq<nat> := [0, 1, 2]

  /** Only MODULES reads a symbol, and only with the condition. */
  lemma ModulesReads(num: Numerals, cond: Option<Expr>, t: SymId, u: SymId)
    requires (cond == None || cond == IF_A) && t < 3
    ensures ReadsSym(ModulesConfig(num, cond).syms[t], u) <==> t == 1 && cond == IF_A && u == 0
  {
    var d := ModulesConfig(num, cond).syms[t];
    assert Syms(CONST_N) == {} && Syms(At(Str("m"))) == {} && Syms(At(Sym(0))) == {0};
    if t == 1 && cond == IF_A && u == 0 {
      assert u in OptSyms(d.prompts[0]);
    }
  }

  lemma ModulesIsRanked(num: Numerals, cond: Option<Expr>)
    requires cond == None || cond == IF_A
    ensures Ranked(ModulesConfig(num, cond), RANK)
  {
    var c := ModulesConfig(num, cond);
    forall s, u: SymId | 0 <= s < 3 && ReadsSym(c.syms[s], u)
      ensures s == 1 && u == 0
    {
      ModulesReads(num, cond, s, u);
    }
    assert "n"[0] != "m"[0];
    assert 0 in Quiet(c);
    assert PlainDef(c.syms[0], Quiet(c));
    assert PlainOpt(cond, Quiet(c)) && PlainDef(c.syms[1], Quiet(c));
    forall s | 0 <= s < 3
      ensures RANK[1] < RANK[s] || PlainDef(c.syms[s], Quiet(c))
    {
      assert s == 0 || s == 1 || s == 2;
    }
  }

  lemma ModulesIsSound(num: Numerals, cond: Option<Expr>, users: Users)
    requires cond == None || cond == IF_A
    requires |users| == 3 && users[2] == None
    requires forall s :: 0 <= s < 2 ==> users[s] == None || users[s] == Some("y") || users[s] == Some("n")
    ensures Sound(ModulesConfig(num, cond), RANK, users)
  {
    ModulesIsRanked(num, cond);
  }

  /** A bool with one prompt and nothing else. */
  lemma PromptedBoolValue(c: Config, rank: seq<nat>, users: Users, s: SymId)
    requires Sound(c, rank, users) && s < |c.syms|
    requires var d := c.syms[s];
      d.ty == Bool && d.special.None? && d.defaults == [] && d.revDep == CONST_N
    ensures Value(c, rank, users, s) ==
      if VisibilityOf(c, rank, users, s) != N && users[s] == Some("y") then "y" else "n"
    ensures c.syms[s].prompts == [None] ==> VisibilityOf(c, rank, users, s) == Y
  {
    var d, env, on := c.syms[s], EnvOf(c, rank, users), On(c, rank, users);
    ValueIs(c, rank, users, s);
    assert EvalRec(d.revDep, env) == N;
    assert "n"[0] != "y"[0] && "n"[0] != "m"[0];
    if users[s].Some? {
      assert Assignable(c, s, users[s].value);
    }
    if d.prompts == [None] {
      assert d.prompts[1..] == [];
      assert VisibilityFrom(N, d.prompts, env, on) == VisibilityFrom(MaxOf(N, Y, on), [], env, on) == Y;
    }
  }

  /** The values and visibilities of that configuration. */
  lemma ModulesValues(num: Numerals, cond: Option<Expr>, users: Users)
    requires (cond == None || cond == IF_A) && Sound(ModulesConfig(num, cond), RANK, users)
    ensures var c, a := ModulesConfig(num, cond), users[0] == Some("y");
      var shown := cond == None || a;
      && Value(c, RANK, users, 0) == (if a then "y" else "n") && VisibilityOf(c, RANK, users, 0) == Y
      && Value(c, RANK, users, 1) == (if shown && users[1] == Some("y") then "y" else "n")
      && VisibilityOf(c, RANK, users, 1) == (if shown then Y else N)
      && Value(c, RANK, users, 2) == if shown && users[1] == Some("y") then "m" else "y"
  {
    var c := ModulesConfig(num, cond);
    PromptedBoolValue(c, RANK, users, 0);
    PromptedBoolValue(c, RANK, users, 1);
    assert "n"[0] != "y"[0];
    if cond == IF_A {
      assert 0 in Quiet(c);
      PromptedVisibility(c, RANK, users, 1, 0);
    }
    ProbeValue(c, RANK, users, 2);
  }

  lemma ModulesDependents(num: Numerals, cond: Option<Expr>, s: SymId)
    requires (cond == None || cond == IF_A) && s < 3 && Ranked(ModulesConfig(num, cond), RANK)
    ensures Dependents(ModulesConfig(num, cond), RANK, s) == if s == 0 && cond == IF_A then {1} else {}
  {
    var c := ModulesConfig(num, cond);
    forall t: SymId, u: SymId | t < 3 && u < 3
      ensures t in Dep(c, u) <==> t == 1 && cond == IF_A && u == 0
    {
      ModulesReads(num, cond, t, u);
    }
    assert Dep(c, 1) == Dep(c, 2) == {};
    assert Dependents(c, RANK, 1) == {};
  }

  const UNSEEN: seq<Option<Tri>> := [None, None, None]

  /** The caches after the first two symbols were looked at and the value of the third. */
  ghost function Filled(c: Config, users: Users): (x: seq<Cache>)
    requires Sound(c, RANK, users) && |c.syms| == 3
  {
    [ Cache(Some(Value(c, RANK, users, 0)), Some(VisibilityOf(c, RANK, users, 0))),
      Cache(Some(Value(c, RANK, users, 1)), Some(VisibilityOf(c, RANK, users, 1))),
      Cache(Some(Value(c, RANK, users, 2)), None) ]
  }

  lemma FilledIsRight(c: Config, users: Users)
    requires Sound(c, RANK, users) && |c.syms| == 3
    requires c.syms[0].special.None? && c.syms[1].special.None? && c.syms[2].special.None?
    ensures AreRight(c, RANK, users, UNSEEN, Filled(c, users))
  {
    forall i | 0 <= i < 3
      ensures IsRight(c, RANK, users, i, Filled(c, users)[i], UNSEEN[i])
    {
      assert i == 0 || i == 1 || i == 2;
    }
  }

  lemma Clearing(c: Config, before: seq<Cache>, us: set<SymId>, after: seq<Cache>)
    requires |c.syms| == |before| == |after| == 3
    requires c.syms[0].special.None? && c.syms[1].special.None? && c.syms[2].special.None?
    requires after[0] == if 0 in us then Cache(None, None) else before[0]
    requires after[1] == if 1 in us then Cache(None, None) else before[1]
    requires after[2] == if 2 in us then Cache(None, None) else before[2]
    ensures Cleared(c, before, us, after)
  {
  }

  /** Clearing s and its dependents keeps what is cached of the third symbol. */
  lemma KeepThird(c: Config, users: Users, s: SymId) returns (before: seq<Cache>, after: seq<Cache>)
    requires Sound(c, RANK, users) && |c.syms| == 3 && s < 3
    requires c.syms[0].special.None? && c.syms[1].special.None? && c.syms[2].special.None?
    requires 2 !in Dependents(c, RANK, s) + {s}
    ensures AreRight(c, RANK, users, UNSEEN, before) && Cleared(c, before, Dependents(c, RANK, s) + {s}, after)
    ensures after[2].val == Some(Value(c, RANK, users, 2))
  {
    var us := Dependents(c, RANK, s) + {s};
    before := Filled(c, users);
    FilledIsRight(c, users);
    after := [if 0 in us then Cache(None, None) else before[0],
              if 1 in us then Cache(None, None) else before[1],
              before[2]];
    Clearing(c, before, us, after);
  }

  /** unset_user_value on MODULES, after it was y: DRIVER stays m in its cache, and is y. */
  lemma UnsetModulesGoesStale(num: Numerals) returns (before: seq<Cache>, after: seq<Cache>)
    ensures var c, users := ModulesConfig(num, None), [None, Some("y"), None];
      && Sound(c, RANK, users) && Sound(c, RANK, users[1 := None])
      && AreRight(c, RANK, users, UNSEEN, before)
      && Cleared(c, before, Dependents(c, RANK, 1) + {1}, after)
      && after[2].val == Some("m") && Value(c, RANK, users[1 := None], 2) == "y"
  {
    var c, users := ModulesConfig(num, None), [None, Some("y"), None];
    ModulesIsSound(num, None, users);
    ModulesIsSound(num, None, users[1 := None]);
    ModulesValues(num, None, users);
    ModulesValues(num, None, users[1 := None]);
    ModulesDependents(num, None, 1);
    before, after := KeepThird(c, users, 1);
  }

  /** set_user_value on a symbol that MODULES depends on, A from y to n: DRIVER stays m in
      its cache, and is y. */
  lemma SetBelowModulesGoesStale(num: Numerals) returns (before: seq<Cache>, after: seq<Cache>)
    ensures var c, users := ModulesConfig(num, IF_A), [Some("y"), Some("y"), None];
      && Sound(c, RANK, users) && Sound(c, RANK, Assign(c, users, 0, "n"))
      && AreRight(c, RANK, users, UNSEEN, before)
      && Cleared(c, before, Dependents(c, RANK, 0) + {0}, after)
      && after[2].val == Some("m") && Value(c, RANK, Assign(c, users, 0, "n"), 2) == "y"
  {
    var c, users := ModulesConfig(num, IF_A), [Some("y"), Some("y"), None];
    var users' := Assign(c, users, 0, "n");
    assert users' == [Some("n"), Some("y"), None];
    ModulesIsSound(num, IF_A, users);
    ModulesIsSound(num, IF_A, users');
    ModulesValues(num, IF_A, users);
    assert "n"[0] != "y"[0];
    ModulesValues(num, IF_A, users');
    ModulesDependents(num, IF_A, 0);
    before, after := KeepThird(c, users, 0);
  }

  // ----- special symbols -----

  /** The cached visibility of an environment symbol with the one prompt `if u` stays right
      exactly when the value of the bool u stays what it was, whatever is invalidated. */
  lemma FrozenIff(
    c: Config, rank: seq<nat>, users: Users, users': Users, s: SymId, u: SymId,
    before: seq<Cache>, us: set<SymId>, after: seq<Cache>)
    requires Sound(c, rank, users) && Sound(c, rank, users')
    requires PromptedBy(c, s, u) && c.syms[s].special.Some?
    requires Cleared(c, before, us, after) && before[s].vis == Some(VisibilityOf(c, rank, users, s))
    ensures after[s].vis == Some(VisibilityOf(c, rank, users', s))
      <==> Value(c, rank, users, u) == Value(c, rank, users', u)
  {
    PromptedVisibility(c, rank, users, s, u);
    PromptedVisibility(c, rank, users', s, u);
    if c.syms[u].special.None? {
      BoolValue(c, rank, users, u);
      BoolValue(c, rank, users', u);
    }
  }

  /** `config SWITCH bool "Switch"`, and a symbol from the environment with a prompt
      `if SWITCH`. */
  function PromptedEnvConfig(num: Numerals): Config {
    Config(
      [ SymDef("SWITCH", Bool, None, true, [None], [], [], CONST_N),
        SymDef("ARCH", String, Some("arm"), true, [IF_A], [], [], CONST_N) ],
      None, num)
  }

  lemma PromptedEnvIsSound(num: Numerals, users: Users)
    requires |users| == 2 && users[1] == None && (users[0] == None || users[0] == Some("y"))
    ensures Sound(PromptedEnvConfig(num), [0, 1], users)
  {
    var c := PromptedEnvConfig(num);
    assert Syms(CONST_N) == {} && OptSyms(None) == {} && OptSyms(IF_A) == {0};
    forall s, u: SymId | 0 <= s < 2 && ReadsSym(c.syms[s], u)
      ensures s == 1 && u == 0
    {
    }
  }

  /** SWITCH from n to y: the visibility of ARCH stays n in its cache, and is y. */
  lemma SpecialVisibilityGoesStale(num: Numerals)
    ensures var c, rank, users := PromptedEnvConfig(num), [0, 1], [None, None];
      var caches := [Cache(None, None), Cache(Some("arm"), Some(N))];
      && Sound(c, rank, users) && Sound(c, rank, Assign(c, users, 0, "y"))
      && AreRight(c, rank, users, [None, Some(N)], caches)
      && Cleared(c, caches, Dependents(c, rank, 0) + {0}, caches)
      && VisibilityOf(c, rank, users, 1) == N && VisibilityOf(c, rank, Assign(c, users, 0, "y"), 1) == Y
  {
    var c, rank, users := PromptedEnvConfig(num), [0, 1], [None, None];
    var users' := Assign(c, users, 0, "y");
    assert users' == [Some("y"), None];
    PromptedEnvIsSound(num, users);
    PromptedEnvIsSound(num, users');
    assert 0 in Quiet(c);
    PromptedBoolValue(c, rank, users, 0);
    PromptedBoolValue(c, rank, users', 0);
    PromptedVisibility(c, rank, users, 1, 0);
    PromptedVisibility(c, rank, users', 1, 0);
    assert "n"[0] != "y"[0];
  }
}
