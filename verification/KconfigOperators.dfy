/** What the tokens of an expression mean: the operators and their precedence, and what
    becomes of m in a condition. */
module KconfigOperators {
  import opened Wrappers
  import opened KconfigExpr
  import opened KconfigMake
  import opened KconfigPrint

  // ----- operators and precedence -----

  /** An operand in parentheses. */
  function Group(e: Expr): seq<Token> {
    [OpenToken] + Print(e) + [CloseToken]
  }

  lemma GroupIs(e: Expr, rest: seq<Token>)
    requires Filled(e)
    ensures ParseFactor(Group(e) + rest, Off) == Done(Norm(e), rest)
  {
    ExprOf(e, [CloseToken] + rest);
    InParentheses(Print(e), Norm(e), rest);
  }

  lemma OneFactor(a: seq<Token>, v: Expr, rest: seq<Token>)
    requires ParseFactor(a + rest, Off) == Done(v, rest) && !Starts(rest, AndToken)
    ensures ParseTerm(a + rest, Off) == Done(v, rest)
  {
  }

  lemma TwoFactors(a: seq<Token>, v: Expr, b: seq<Token>, w: Expr, rest: seq<Token>)
    requires ParseFactor(a + ([AndToken] + b + rest), Off) == Done(v, [AndToken] + b + rest)
    requires ParseFactor(b + rest, Off) == Done(w, rest) && !Starts(rest, AndToken)
    ensures ParseTerm(a + ([AndToken] + b + rest), Off) == Done(And([v, w]), rest)
  {
    assert ([AndToken] + b + rest)[1..] == b + rest;
    assert ParseFactors(b + rest, Off) == Done([w], rest);
    assert [v] + [w] == [v, w];
  }

  lemma OneTerm(a: seq<Token>, v: Expr)
    requires ParseTerm(a, Off) == Done(v, [])
    ensures ParseExpr(a, Off) == Done(v, [])
  {
  }

  lemma TwoTerms(a: seq<Token>, v: Expr, b: seq<Token>, w: Expr)
    requires ParseTerm(a + ([OrToken] + b), Off) == Done(v, [OrToken] + b) && ParseTerm(b, Off) == Done(w, [])
    ensures ParseExpr(a + ([OrToken] + b), Off) == Done(Or([v, w]), [])
  {
    assert ([OrToken] + b)[1..] == b;
    assert ParseTerms(b, Off) == Done([w], []);
    assert [v] + [w] == [v, w];
  }

  /** The tokens are an expression, all of them, and it has value v. */
  predicate Means(ts: seq<Token>, env: Env, v: Tri) {
    var p := ParseExpr(ts, Off);
    p.Done? && p.rest == [] && EvalRec(p.value, env) == v
  }

  lemma MeansIs(ts: seq<Token>, e: Expr, env: Env)
    requires ParseExpr(ts, Off) == Done(e, [])
    ensures Means(ts, env, EvalRec(e, env))
  {
  }

  lemma AndTokens(e: Expr, f: Expr)
    requires Filled(e) && Filled(f)
    ensures ParseExpr(Group(e) + ([AndToken] + Group(f)), Off) == Done(And([Norm(e), Norm(f)]), [])
  {
    assert Group(f) + [] == Group(f) && [AndToken] + Group(f) + [] == [AndToken] + Group(f);
    GroupIs(f, []);
    GroupIs(e, [AndToken] + Group(f));
    TwoFactors(Group(e), Norm(e), Group(f), Norm(f), []);
    OneTerm(Group(e) + ([AndToken] + Group(f)), And([Norm(e), Norm(f)]));
  }

  lemma OrTokens(e: Expr, f: Expr)
    requires Filled(e) && Filled(f)
    ensures ParseExpr(Group(e) + ([OrToken] + Group(f)), Off) == Done(Or([Norm(e), Norm(f)]), [])
  {
    assert Group(f) + [] == Group(f);
    GroupIs(f, []);
    GroupIs(e, [OrToken] + Group(f));
    OneFactor(Group(e), Norm(e), [OrToken] + Group(f));
    OneFactor(Group(f), Norm(f), []);
    TwoTerms(Group(e), Norm(e), Group(f), Norm(f));
  }

  lemma NotTokens(e: Expr)
    requires Filled(e)
    ensures ParseExpr([NotToken] + Group(e), Off) == Done(Not(Norm(e)), [])
  {
    assert Group(e) + [] == Group(e) && [NotToken] + Group(e) + [] == [NotToken] + Group(e);
    GroupIs(e, []);
    Negated(Group(e), Norm(e), []);
    OneFactor([NotToken] + Group(e), Not(Norm(e)), []);
    OneTerm([NotToken] + Group(e), Not(Norm(e)));
  }

  /** && is the least and || the greatest of the operands, and ! turns the order around. */
  lemma OperatorsMean(e: Expr, f: Expr, env: Env)
    requires Filled(e) && Filled(f)
    ensures Means(Group(e) + ([AndToken] + Group(f)), env, Min(EvalRec(e, env), EvalRec(f, env)))
    ensures Means(Group(e) + ([OrToken] + Group(f)), env, Max(EvalRec(e, env), EvalRec(f, env)))
    ensures Means([NotToken] + Group(e), env, Inverse(EvalRec(e, env)))
  {
    NormValue(e, env);
    NormValue(f, env);
    PairValue(Norm(e), Norm(f), env);
    AndTokens(e, f);
    MeansIs(Group(e) + ([AndToken] + Group(f)), And([Norm(e), Norm(f)]), env);
    OrTokens(e, f);
    MeansIs(Group(e) + ([OrToken] + Group(f)), Or([Norm(e), Norm(f)]), env);
    NotTokens(e);
    MeansIs([NotToken] + Group(e), Not(Norm(e)), env);
  }

  lemma PrecedenceRight(e: Expr, f: Expr, g: Expr, env: Env)
    requires Filled(e) && Filled(f) && Filled(g)
    ensures Means(Group(e) + ([OrToken] + (Group(f) + ([AndToken] + Group(g)))), env,
                  Max(EvalRec(Norm(e), env), Min(EvalRec(Norm(f), env), EvalRec(Norm(g), env))))
  {
    var b := Group(f) + ([AndToken] + Group(g));
    assert Group(g) + [] == Group(g) && [AndToken] + Group(g) + [] == [AndToken] + Group(g);
    GroupIs(g, []);
    GroupIs(f, [AndToken] + Group(g));
    TwoFactors(Group(f), Norm(f), Group(g), Norm(g), []);
    GroupIs(e, [OrToken] + b);
    OneFactor(Group(e), Norm(e), [OrToken] + b);
    TwoTerms(Group(e), Norm(e), b, And([Norm(f), Norm(g)]));
    PairValue(Norm(f), Norm(g), env);
    PairValue(Norm(e), And([Norm(f), Norm(g)]), env);
  }

  lemma PrecedenceLeft(e: Expr, f: Expr, g: Expr, env: Env)
    requires Filled(e) && Filled(f) && Filled(g)
    ensures Means(Group(e) + ([AndToken] + Group(f) + ([OrToken] + Group(g))), env,
                  Max(Min(EvalRec(Norm(e), env), EvalRec(Norm(f), env)), EvalRec(Norm(g), env)))
  {
    var rest := [OrToken] + Group(g);
    assert Group(g) + [] == Group(g);
    GroupIs(g, []);
    OneFactor(Group(g), Norm(g), []);
    GroupIs(f, rest);
    GroupIs(e, [AndToken] + Group(f) + rest);
    TwoFactors(Group(e), Norm(e), Group(f), Norm(f), rest);
    var a := Group(e) + ([AndToken] + Group(f));
    assert Group(e) + ([AndToken] + Group(f) + rest) == a + rest;
    TwoTerms(a, And([Norm(e), Norm(f)]), Group(g), Norm(g));
    PairValue(Norm(e), Norm(f), env);
    PairValue(And([Norm(e), Norm(f)]), Norm(g), env);
  }

  /** && binds stronger than ||, on either side. */
  lemma PrecedenceIs(e: Expr, f: Expr, g: Expr, env: Env)
    requires Filled(e) && Filled(f) && Filled(g)
    ensures Means(Group(e) + ([OrToken] + (Group(f) + ([AndToken] + Group(g)))), env,
                  Max(EvalRec(e, env), Min(EvalRec(f, env), EvalRec(g, env))))
    ensures Means(Group(e) + ([AndToken] + Group(f) + ([OrToken] + Group(g))), env,
                  Max(Min(EvalRec(e, env), EvalRec(f, env)), EvalRec(g, env)))
  {
    NormValue(e, env);
    NormValue(f, env);
    NormValue(g, env);
    PrecedenceRight(e, f, g, env);
    PrecedenceLeft(e, f, g, env);
  }

  lemma RelationTokens(l: Atom, equal: bool, r: Atom)
    ensures ParseExpr([AtomToken(l), if equal then EqualToken else UnequalToken, AtomToken(r)], Off)
      == Done(Rel(equal, l, r), [])
  {
    var ts := [AtomToken(l), if equal then EqualToken else UnequalToken, AtomToken(r)];
    assert ts[3..] == [] && ts + [] == ts;
    assert ParseFactor(ts, Off) == Done(Rel(equal, l, r), []);
    OneFactor(ts, Rel(equal, l, r), []);
    OneTerm(ts, Rel(equal, l, r));
  }

  /** A relation compares the texts of its operands. */
  lemma RelationsMean(l: Atom, r: Atom, env: Env)
    ensures Means([AtomToken(l), EqualToken, AtomToken(r)], env,
                  if AtomText(l, env) == AtomText(r, env) then Y else N)
    ensures Means([AtomToken(l), UnequalToken, AtomToken(r)], env,
                  if AtomText(l, env) == AtomText(r, env) then N else Y)
  {
    RelationTokens(l, true, r);
    RelationTokens(l, false, r);
    RelationIs(l, r, env);
  }

  // ----- m in a condition -----

  /** e with every m, the symbol or the string, replaced outside relations. */
  function Replace(e: Expr, m: SymId, put: Expr): Expr
    decreases e
  {
    match e
    case At(a) => if a == Sym(m) || a == Str("m") then put else e
    case And(es) => And(ReplaceAll(es, m, put))
    case Or(es) => Or(ReplaceAll(es, m, put))
    case Not(x) => Not(Replace(x, m, put))
    case Rel(_, _, _) => e
  }

  function ReplaceAll(es: seq<Expr>, m: SymId, put: Expr): (r: seq<Expr>)
    ensures |r| == |es|
    ensures forall i :: 0 <= i < |es| ==> r[i] == Replace(es[i], m, put)
    decreases es
  {
    if es == [] then [] else [Replace(es[0], m, put)] + ReplaceAll(es[1..], m, put)
  }

  /** "m" && MODULES */
  function GuardedM(modules: SymId): Expr {
    And([At(Str("m")), At(Sym(modules))])
  }

  function Guarded(p: Parse<Expr>, m: SymId, modules: SymId): Parse<Expr> {
    match p
    case Fail => Fail
    case Done(e, rest) => Done(Replace(e, m, GuardedM(modules)), rest)
  }

  function GuardedAll(p: Parse<seq<Expr>>, m: SymId, modules: SymId): Parse<seq<Expr>> {
    match p
    case Fail => Fail
    case Done(es, rest) => Done(ReplaceAll(es, m, GuardedM(modules)), rest)
  }

  lemma ReplaceCollapse(es: seq<Expr>, conj: bool, m: SymId, put: Expr)
    requires es != []
    ensures Replace(Collapse(es, conj), m, put) == Collapse(ReplaceAll(es, m, put), conj)
  {
  }

  lemma ReplaceOne(e: Expr, m: SymId, put: Expr)
    ensures ReplaceAll([e], m, put) == [Replace(e, m, put)]
  {
  }

  lemma ReplaceMore(e: Expr, es: seq<Expr>, m: SymId, put: Expr)
    ensures ReplaceAll([e] + es, m, put) == [Replace(e, m, put)] + ReplaceAll(es, m, put)
  {
    assert ([e] + es)[1..] == es;
  }

  lemma {:induction false} ExprGuarded(ts: seq<Token>, m: SymId, modules: SymId)
    ensures ParseExpr(ts, On(m, modules)) == Guarded(ParseExpr(ts, Off), m, modules)
    decreases |ts|, 4
  {
    TermsGuarded(ts, m, modules);
    var p := ParseTerms(ts, Off);
    if p.Done? {
      ReplaceCollapse(p.value, false, m, GuardedM(modules));
    }
  }

  lemma {:induction false} TermsGuarded(ts: seq<Token>, m: SymId, modules: SymId)
    ensures ParseTerms(ts, On(m, modules)) == GuardedAll(ParseTerms(ts, Off), m, modules)
    decreases |ts|, 3
  {
    TermGuarded(ts, m, modules);
    var p := ParseTerm(ts, Off);
    if p.Done? {
      ReplaceOne(p.value, m, GuardedM(modules));
      if Starts(p.rest, OrToken) {
        TermsGuarded(p.rest[1..], m, modules);
        var q := ParseTerms(p.rest[1..], Off);
        if q.Done? {
          ReplaceMore(p.value, q.value, m, GuardedM(modules));
        }
      }
    }
  }

  lemma {:induction false} TermGuarded(ts: seq<Token>, m: SymId, modules: SymId)
    ensures ParseTerm(ts, On(m, modules)) == Guarded(ParseTerm(ts, Off), m, modules)
    decreases |ts|, 2
  {
    FactorsGuarded(ts, m, modules);
    var p := ParseFactors(ts, Off);
    if p.Done? {
      ReplaceCollapse(p.value, true, m, GuardedM(modules));
    }
  }

  lemma {:induction false} FactorsGuarded(ts: seq<Token>, m: SymId, modules: SymId)
    ensures ParseFactors(ts, On(m, modules)) == GuardedAll(ParseFactors(ts, Off), m, modules)
    decreases |ts|, 1
  {
    FactorGuarded(ts, m, modules);
    var p := ParseFactor(ts, Off);
    if p.Done? {
      ReplaceOne(p.value, m, GuardedM(modules));
      if Starts(p.rest, AndToken) {
        FactorsGuarded(p.rest[1..], m, modules);
        var q := ParseFactors(p.rest[1..], Off);
        if q.Done? {
          ReplaceMore(p.value, q.value, m, GuardedM(modules));
        }
      }
    }
  }

  lemma {:induction false} FactorGuarded(ts: seq<Token>, m: SymId, modules: SymId)
    ensures ParseFactor(ts, On(m, modules)) == Guarded(ParseFactor(ts, Off), m, modules)
    decreases |ts|, 0
  {
    if ts != [] {
      match ts[0]
      case NotToken => FactorGuarded(ts[1..], m, modules);
      case OpenToken => ExprGuarded(ts[1..], m, modules);
      case _ =>
    }
  }

  /** Only the value of the replacement matters. */
  lemma {:induction false} ReplaceValue(e: Expr, m: SymId, put: Expr, put': Expr, env: Env)
    requires EvalRec(put, env) == EvalRec(put', env)
    ensures EvalRec(Replace(e, m, put), env) == EvalRec(Replace(e, m, put'), env)
    decreases e
  {
    match e
    case At(_) =>
    case And(es) => ReplaceAllValue(es, m, put, put', env);
    case Or(es) => ReplaceAllValue(es, m, put, put', env);
    case Not(x) => ReplaceValue(x, m, put, put', env);
    case Rel(_, _, _) =>
  }

  lemma {:induction false} ReplaceAllValue(es: seq<Expr>, m: SymId, put: Expr, put': Expr, env: Env)
    requires EvalRec(put, env) == EvalRec(put', env)
    ensures EvalAnd(ReplaceAll(es, m, put), env) == EvalAnd(ReplaceAll(es, m, put'), env)
    ensures EvalOr(ReplaceAll(es, m, put), env) == EvalOr(ReplaceAll(es, m, put'), env)
    decreases es
  {
    if es != [] {
      ReplaceValue(es[0], m, put, put', env);
      ReplaceAllValue(es[1..], m, put, put', env);
    }
  }

  /** Replacing m by the string "m" changes no value, if m has the value m. */
  lemma {:induction false} ReplaceByM(e: Expr, m: SymId, env: Env)
    requires env(m) == SymVal(true, "m")
    ensures EvalRec(Replace(e, m, At(Str("m"))), env) == EvalRec(e, env)
    decreases e
  {
    match e
    case At(_) =>
    case And(es) => ReplaceAllByM(es, m, env);
    case Or(es) => ReplaceAllByM(es, m, env);
    case Not(x) => ReplaceByM(x, m, env);
    case Rel(_, _, _) =>
  }

  lemma {:induction false} ReplaceAllByM(es: seq<Expr>, m: SymId, env: Env)
    requires env(m) == SymVal(true, "m")
    ensures EvalAnd(ReplaceAll(es, m, At(Str("m"))), env) == EvalAnd(es, env)
    ensures EvalOr(ReplaceAll(es, m, At(Str("m"))), env) == EvalOr(es, env)
    decreases es
  {
    if es != [] {
      ReplaceByM(es[0], m, env);
      ReplaceAllByM(es[1..], m, env);
    }
  }

  lemma GuardedValue(modules: SymId, env: Env)
    requires env(modules).tri && (env(modules).value == "y" || env(modules).value == "n")
    ensures EvalRec(GuardedM(modules), env) == if env(modules).value == "y" then M else N
  {
    PairValue(At(Str("m")), At(Sym(modules)), env);
    assert "n"[0] != "y"[0] && "n"[0] != "m"[0];
  }

  /** In a condition, m counts as m while MODULES is y, and as n while it is n; all else is
      parsed as it is elsewhere. */
  lemma ConditionMeans(ts: seq<Token>, m: SymId, modules: SymId, env: Env)
    requires env(m) == SymVal(true, "m")
    requires env(modules).tri && (env(modules).value == "y" || env(modules).value == "n")
    ensures
      var p, q := ParseExpr(ts, Off), ParseExpr(ts, On(m, modules));
      && (p.Done? <==> q.Done?)
      && (p.Done? ==>
            && q.rest == p.rest
            && EvalRec(q.value, env)
               == EvalRec(if env(modules).value == "y" then p.value else Replace(p.value, m, CONST_N), env))
  {
    ExprGuarded(ts, m, modules);
    GuardedValue(modules, env);
    assert "n"[0] != "y"[0] && "n"[0] != "m"[0] && "m"[0] != "y"[0];
    assert EvalRec(At(Str("m")), env) == M && EvalRec(CONST_N, env) == N;
    var p := ParseExpr(ts, Off);
    if p.Done? {
      ReplaceValue(
        p.value, m, GuardedM(modules), if env(modules).value == "y" then At(Str("m")) else CONST_N, env);
      ReplaceByM(p.value, m, env);
    }
  }
}
