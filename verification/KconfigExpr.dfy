/** Kconfig expressions and their tristate values. */
module KconfigExpr {
  import opened Wrappers

  datatype Tri = N | M | Y

  function Rank(t: Tri): nat {
    match t
    case N => 0
    case M => 1
    case Y => 2
  }

  function Min(a: Tri, b: Tri): Tri {
    if Rank(a) < Rank(b) then a else b
  }

  function Max(a: Tri, b: Tri): Tri {
    if Rank(a) > Rank(b) then a else b
  }

  function TriOf(s: string): Tri {
    if s == "y" then Y else if s == "m" then M else N
  }

  function Text(t: Tri): string {
    match t
    case N => "n"
    case M => "m"
    case Y => "y"
  }

  type SymId = nat

  /** A symbol, or a string: a constant symbol. */
  datatype Atom = Sym(id: SymId) | Str(s: string)

  datatype Expr =
    | At(a: Atom)
    | And(es: seq<Expr>)
    | Or(es: seq<Expr>)
    | Not(e: Expr)
    | Rel(equal: bool, l: Atom, r: Atom)

  const CONST_Y := At(Str("y"))
  const CONST_N := At(Str("n"))

  /** What evaluation sees of a symbol: whether it is a bool or tristate, and its value. */
  datatype SymVal = SymVal(tri: bool, value: string)

  type Env = SymId -> SymVal

  function AtomText(a: Atom, env: Env): string {
    match a
    case Sym(id) => env(id).value
    case Str(s) => s
  }

  function AtomValue(a: Atom, env: Env): Tri {
    match a
    case Sym(id) => if env(id).tri then TriOf(env(id).value) else N
    case Str(s) => TriOf(s)
  }

  /** _eval_expr_rec */
  function EvalRec(e: Expr, env: Env): Tri
    decreases e
  {
    match e
    case At(a) => AtomValue(a, env)
    case And(es) => EvalAnd(es, env)
    case Or(es) => EvalOr(es, env)
    case Not(x) => (match EvalRec(x, env) case Y => N case N => Y case M => M)
    case Rel(equal, l, r) => if (AtomText(l, env) == AtomText(r, env)) == equal then Y else N
  }

  /** The least value of a list. */
  function EvalAnd(es: seq<Expr>, env: Env): Tri
    decreases es
  {
    if es == [] then Y else Min(EvalRec(es[0], env), EvalAnd(es[1..], env))
  }

  /** The greatest value of a list. */
  function EvalOr(es: seq<Expr>, env: Env): Tri
    decreases es
  {
    if es == [] then N else Max(EvalRec(es[0], env), EvalOr(es[1..], env))
  }

  /** Without modules, m counts as y. */
  function Promote(t: Tri, modules: bool): Tri {
    if t == M && !modules then Y else t
  }

  /** _eval_expr: a missing condition is y. */
  function Eval(e: Option<Expr>, env: Env, modules: bool): Tri {
    match e
    case None => Y
    case Some(x) => Promote(EvalRec(x, env), modules)
  }

  // ----- the symbols of an expression -----

  function AtomSyms(a: Atom): set<SymId> {
    if a.Sym? then {a.id} else {}
  }

  /** _get_expr_syms */
  function Syms(e: Expr): set<SymId>
    decreases e
  {
    match e
    case At(a) => AtomSyms(a)
    case And(es) => SymsAll(es)
    case Or(es) => SymsAll(es)
    case Not(x) => Syms(x)
    case Rel(_, l, r) => AtomSyms(l) + AtomSyms(r)
  }

  function SymsAll(es: seq<Expr>): set<SymId>
    decreases es
  {
    if es == [] then {} else Syms(es[0]) + SymsAll(es[1..])
  }

  function OptSyms(e: Option<Expr>): set<SymId> {
    if e.None? then {} else Syms(e.value)
  }

  /** The value of an expression depends on its symbols only. */
  lemma {:induction false} EvalAgrees(e: Expr, env: Env, env': Env)
    requires forall id :: id in Syms(e) ==> env(id) == env'(id)
    ensures EvalRec(e, env) == EvalRec(e, env')
    decreases e
  {
    match e
    case At(a) =>
    case And(es) => EvalAllAgrees(es, env, env');
    case Or(es) => EvalAllAgrees(es, env, env');
    case Not(x) => EvalAgrees(x, env, env');
    case Rel(_, l, r) =>
  }

  lemma {:induction false} EvalAllAgrees(es: seq<Expr>, env: Env, env': Env)
    requires forall id :: id in SymsAll(es) ==> env(id) == env'(id)
    ensures EvalAnd(es, env) == EvalAnd(es, env') && EvalOr(es, env) == EvalOr(es, env')
    decreases es
  {
    if es != [] {
      EvalAgrees(es[0], env, env');
      EvalAllAgrees(es[1..], env, env');
    }
  }

  // ----- lists -----

  lemma MinMaxAssociate(a: Tri, b: Tri, c: Tri)
    ensures Min(Min(a, b), c) == Min(a, Min(b, c)) && Max(Max(a, b), c) == Max(a, Max(b, c))
  {
  }

  lemma {:induction false} EvalConcat(s: seq<Expr>, t: seq<Expr>, env: Env)
    ensures EvalAnd(s + t, env) == Min(EvalAnd(s, env), EvalAnd(t, env))
    ensures EvalOr(s + t, env) == Max(EvalOr(s, env), EvalOr(t, env))
    decreases |s|
  {
    if s == [] {
      assert s + t == t;
    } else {
      EvalConcat(s[1..], t, env);
      assert (s + t)[1..] == s[1..] + t && (s + t)[0] == s[0];
      var h := EvalRec(s[0], env);
      MinMaxAssociate(h, EvalAnd(s[1..], env), EvalAnd(t, env));
      MinMaxAssociate(h, EvalOr(s[1..], env), EvalOr(t, env));
    }
  }

  lemma EvalSingle(e: Expr, env: Env)
    ensures EvalAnd([e], env) == EvalRec(e, env) == EvalOr([e], env)
  {
    assert [e][1..] == [];
  }

  // ----- what the operators mean -----

  /** && is n as soon as one operand is, and y only if all are. */
  lemma {:induction false} AndIs(es: seq<Expr>, env: Env)
    ensures EvalRec(And(es), env) == N <==> exists i :: 0 <= i < |es| && EvalRec(es[i], env) == N
    ensures EvalRec(And(es), env) == Y <==> forall i :: 0 <= i < |es| ==> EvalRec(es[i], env) == Y
    decreases |es|
  {
    if es != [] {
      AndIs(es[1..], env);
      assert EvalRec(And(es), env) == Min(EvalRec(es[0], env), EvalRec(And(es[1..]), env));
      assert es == [es[0]] + es[1..];
      if i :| 0 <= i < |es[1..]| && EvalRec(es[1..][i], env) == N {
        assert EvalRec(es[i + 1], env) == N;
      }
    }
  }

  /** || is y as soon as one operand is, and n only if all are. */
  lemma {:induction false} OrIs(es: seq<Expr>, env: Env)
    ensures EvalRec(Or(es), env) == Y <==> exists i :: 0 <= i < |es| && EvalRec(es[i], env) == Y
    ensures EvalRec(Or(es), env) == N <==> forall i :: 0 <= i < |es| ==> EvalRec(es[i], env) == N
    decreases |es|
  {
    if es != [] {
      OrIs(es[1..], env);
      assert EvalRec(Or(es), env) == Max(EvalRec(es[0], env), EvalRec(Or(es[1..]), env));
      assert es == [es[0]] + es[1..];
      if i :| 0 <= i < |es[1..]| && EvalRec(es[1..][i], env) == Y {
        assert EvalRec(es[i + 1], env) == Y;
      }
    }
  }

  function Inverse(t: Tri): Tri {
    match t
    case Y => N
    case M => M
    case N => Y
  }

  lemma InverseIs(a: Tri, b: Tri)
    ensures Inverse(Inverse(a)) == a
    ensures Rank(Inverse(a)) <= Rank(Inverse(b)) <==> Rank(b) <= Rank(a)
    ensures Inverse(Min(a, b)) == Max(Inverse(a), Inverse(b)) && Inverse(Max(a, b)) == Min(Inverse(a), Inverse(b))
  {
  }

  lemma NotIs(a: Expr, env: Env)
    ensures EvalRec(Not(a), env) == Inverse(EvalRec(a, env))
  {
  }

  /** ! reverses the order of the tristates, and undoes itself. */
  lemma NotReverses(a: Expr, b: Expr, env: Env)
    ensures EvalRec(Not(Not(a)), env) == EvalRec(a, env)
    ensures Rank(EvalRec(Not(a), env)) <= Rank(EvalRec(Not(b), env))
      <==> Rank(EvalRec(b, env)) <= Rank(EvalRec(a, env))
  {
    NotIs(a, env);
    NotIs(b, env);
    NotIs(Not(a), env);
    InverseIs(EvalRec(a, env), EvalRec(b, env));
  }

  function Negations(es: seq<Expr>): (r: seq<Expr>)
    ensures |r| == |es|
    ensures forall i :: 0 <= i < |es| ==> r[i] == Not(es[i])
  {
    if es == [] then [] else [Not(es[0])] + Negations(es[1..])
  }

  lemma {:induction false} NegationsValue(es: seq<Expr>, env: Env)
    ensures EvalOr(Negations(es), env) == Inverse(EvalAnd(es, env))
    ensures EvalAnd(Negations(es), env) == Inverse(EvalOr(es, env))
    decreases |es|
  {
    if es != [] {
      NegationsValue(es[1..], env);
      NotIs(es[0], env);
      assert Negations(es)[0] == Not(es[0]) && Negations(es)[1..] == Negations(es[1..]);
      InverseIs(EvalRec(es[0], env), EvalAnd(es[1..], env));
      InverseIs(EvalRec(es[0], env), EvalOr(es[1..], env));
    }
  }

  /** The laws of De Morgan. */
  lemma DeMorgan(es: seq<Expr>, env: Env)
    ensures EvalRec(Not(And(es)), env) == EvalRec(Or(Negations(es)), env)
    ensures EvalRec(Not(Or(es)), env) == EvalRec(And(Negations(es)), env)
  {
    NegationsValue(es, env);
    NotIs(And(es), env);
    NotIs(Or(es), env);
  }

  /** = compares texts and != is its opposite, and neither is ever m. */
  lemma RelationIs(l: Atom, r: Atom, env: Env)
    ensures EvalRec(Rel(true, l, r), env) == Y <==> AtomText(l, env) == AtomText(r, env)
    ensures EvalRec(Rel(true, l, r), env) != M
    ensures EvalRec(Rel(false, l, r), env) == EvalRec(Not(Rel(true, l, r)), env)
  {
  }
}
