/** Printing an expression and parsing what was printed. */
module KconfigPrint {
  import opened KconfigExpr

  datatype Token =
    | AtomToken(a: Atom)
    | AndToken
    | OrToken
    | NotToken
    | OpenToken
    | CloseToken
    | EqualToken
    | UnequalToken
    | KeywordToken(k: nat)   // any other keyword

  // ----- printing: _expr_to_str_rec and _intersperse -----

  function Print(e: Expr): seq<Token>
    decreases e, 0
  {
    match e
    case At(a) => [AtomToken(a)]
    case And(es) => PrintList(es, true)
    case Or(es) => PrintList(es, false)
    case Not(x) => if x.At? then [NotToken] + Print(x) else [NotToken, OpenToken] + Print(x) + [CloseToken]
    case Rel(equal, l, r) => [AtomToken(l), if equal then EqualToken else UnequalToken, AtomToken(r)]
  }

  /** An operand, in parentheses if it binds weaker than the operator. */
  function PrintOperand(e: Expr, conj: bool): seq<Token>
    decreases e, 1
  {
    if conj && e.Or? then [OpenToken] + Print(e) + [CloseToken] else Print(e)
  }

  function PrintList(es: seq<Expr>, conj: bool): seq<Token>
    decreases es
  {
    if es == [] then []
    else PrintOperand(es[0], conj) + PrintMore(es[1..], conj)
  }

  /** The operands after the first, each after the operator. */
  function PrintMore(es: seq<Expr>, conj: bool): seq<Token>
    decreases es
  {
    if es == [] then []
    else [if conj then AndToken else OrToken] + PrintOperand(es[0], conj) + PrintMore(es[1..], conj)
  }

  // ----- parsing: _parse_expr_rec, _parse_or_term and _parse_factor -----

  /** Whether m is rewritten to "m" && MODULES. */
  datatype Transform = Off | On(m: SymId, modules: SymId)

  datatype Parse<T> = Done(value: T, rest: seq<Token>) | Fail

  predicate Starts(ts: seq<Token>, t: Token) {
    ts != [] && ts[0] == t
  }

  /** One operand needs no node of its own. */
  function Collapse(es: seq<Expr>, conj: bool): Expr
    requires es != []
  {
    if |es| == 1 then es[0] else if conj then And(es) else Or(es)
  }

  function ParseExpr(ts: seq<Token>, tm: Transform): (r: Parse<Expr>)
    ensures r.Done? ==> |r.rest| < |ts|
    decreases |ts|, 4
  {
    match ParseTerms(ts, tm)
    case Fail => Fail
    case Done(es, rest) => Done(Collapse(es, false), rest)
  }

  /** Terms separated by ||. */
  function ParseTerms(ts: seq<Token>, tm: Transform): (r: Parse<seq<Expr>>)
    ensures r.Done? ==> |r.rest| < |ts| && r.value != []
    decreases |ts|, 3
  {
    match ParseTerm(ts, tm)
    case Fail => Fail
    case Done(e, rest) =>
      if !Starts(rest, OrToken) then Done([e], rest) else
        match ParseTerms(rest[1..], tm)
        case Fail => Fail
        case Done(es, rest') => Done([e] + es, rest')
  }

  function ParseTerm(ts: seq<Token>, tm: Transform): (r: Parse<Expr>)
    ensures r.Done? ==> |r.rest| < |ts|
    decreases |ts|, 2
  {
    match ParseFactors(ts, tm)
    case Fail => Fail
    case Done(es, rest) => Done(Collapse(es, true), rest)
  }

  /** Factors separated by &&. */
  function ParseFactors(ts: seq<Token>, tm: Transform): (r: Parse<seq<Expr>>)
    ensures r.Done? ==> |r.rest| < |ts| && r.value != []
    decreases |ts|, 1
  {
    match ParseFactor(ts, tm)
    case Fail => Fail
    case Done(e, rest) =>
      if !Starts(rest, AndToken) then Done([e], rest) else
        match ParseFactors(rest[1..], tm)
        case Fail => Fail
        case Done(es, rest') => Done([e] + es, rest')
  }

  predicate IsM(a: Atom, tm: Transform) {
    tm.On? && (a == Str("m") || a == Sym(tm.m))
  }

  function ParseFactor(ts: seq<Token>, tm: Transform): (r: Parse<Expr>)
    ensures r.Done? ==> |r.rest| < |ts|
    decreases |ts|, 0
  {
    if ts == [] then Fail
    else match ts[0]
      case AtomToken(a) =>
        if !Starts(ts[1..], EqualToken) && !Starts(ts[1..], UnequalToken) then
          Done(if IsM(a, tm) then And([At(Str("m")), At(Sym(tm.modules))]) else At(a), ts[1..])
        else if |ts| > 2 && ts[2].AtomToken? then Done(Rel(ts[1] == EqualToken, a, ts[2].a), ts[3..])
        else Fail
      case NotToken =>
        (match ParseFactor(ts[1..], tm)
         case Fail => Fail
         case Done(e, rest) => Done(Not(e), rest))
      case OpenToken =>
        (match ParseExpr(ts[1..], tm)
         case Fail => Fail
         case Done(e, rest) => if Starts(rest, CloseToken) then Done(e, rest[1..]) else Fail)
      case _ => Fail
  }

  // ----- what printing loses -----

  /** Every operator has an operand. */
  predicate Filled(e: Expr)
    decreases e, 0
  {
    match e
    case At(_) => true
    case And(es) => es != [] && FilledAll(es)
    case Or(es) => es != [] && FilledAll(es)
    case Not(x) => Filled(x)
    case Rel(_, _, _) => true
  }

  predicate FilledAll(es: seq<Expr>)
    decreases es
  {
    es == [] || (Filled(es[0]) && FilledAll(es[1..]))
  }

  /** The expression with nested conjunctions and disjunctions merged, and nodes with
      one operand replaced by it: all that printing keeps. */
  function Norm(e: Expr): Expr
    requires Filled(e)
    decreases e, 0
  {
    match e
    case At(_) => e
    case And(es) => Collapse(Operands(es, true), true)
    case Or(es) => Collapse(Operands(es, false), false)
    case Not(x) => Not(Norm(x))
    case Rel(_, _, _) => e
  }

  /** The operands an operand is printed as. */
  function Spread(e: Expr, conj: bool): (r: seq<Expr>)
    requires Filled(e)
    ensures r != []
    decreases e, 1
  {
    if (conj && e.And?) || (!conj && e.Or?) then Operands(e.es, conj) else [Norm(e)]
  }

  function Operands(es: seq<Expr>, conj: bool): (r: seq<Expr>)
    requires FilledAll(es)
    ensures es != [] ==> r != []
    decreases es
  {
    if es == [] then [] else Spread(es[0], conj) + Operands(es[1..], conj)
  }

  // ----- parsing what was printed -----

  predicate NoRelation(ts: seq<Token>) {
    !Starts(ts, EqualToken) && !Starts(ts, UnequalToken)
  }

  /** What was parsed, after es. */
  function After(es: seq<Expr>, p: Parse<seq<Expr>>): Parse<seq<Expr>> {
    match p
    case Fail => Fail
    case Done(fs, rest) => Done(es + fs, rest)
  }

  /** Factors es, then what follows ts as more factors. */
  function ThenFactors(es: seq<Expr>, ts: seq<Token>, tm: Transform): Parse<seq<Expr>> {
    if !Starts(ts, AndToken) then Done(es, ts) else After(es, ParseFactors(ts[1..], tm))
  }

  function ThenTerms(es: seq<Expr>, ts: seq<Token>, tm: Transform): Parse<seq<Expr>> {
    if !Starts(ts, OrToken) then Done(es, ts) else After(es, ParseTerms(ts[1..], tm))
  }

  /** One factor more. */
  lemma FactorsStep(es: seq<Expr>, ts: seq<Token>, tm: Transform)
    ensures match ParseFactor(ts, tm)
            case Fail => After(es, ParseFactors(ts, tm)) == Fail
            case Done(e, rest) => After(es, ParseFactors(ts, tm)) == ThenFactors(es + [e], rest, tm)
  {
    var p := ParseFactor(ts, tm);
    if p.Done? {
      assert forall fs :: es + ([p.value] + fs) == (es + [p.value]) + fs;
    }
  }

  /** One term more. */
  lemma TermsStep(es: seq<Expr>, ts: seq<Token>, tm: Transform)
    ensures match ParseTerm(ts, tm)
            case Fail => After(es, ParseTerms(ts, tm)) == Fail
            case Done(e, rest) => After(es, ParseTerms(ts, tm)) == ThenTerms(es + [e], rest, tm)
  {
    var p := ParseTerm(ts, tm);
    if p.Done? {
      assert forall fs :: es + ([p.value] + fs) == (es + [p.value]) + fs;
    }
  }

  /** What may follow a complete expression. */
  predicate Closes(ts: seq<Token>) {
    NoRelation(ts) && !Starts(ts, AndToken) && !Starts(ts, OrToken)
  }

  /** A printed operand of && is parsed as the factors it spreads into. */
  lemma {:induction false} FactorsOf(e: Expr, rest: seq<Token>)
    requires Filled(e) && NoRelation(rest)
    ensures ParseFactors(PrintOperand(e, true) + rest, Off) == ThenFactors(Spread(e, true), rest, Off)
    decreases e, 2
  {
    if e.And? {
      FactorsOfList(e.es, rest);
    } else {
      FactorOf(e, rest);
    }
  }

  lemma InParentheses(ts: seq<Token>, v: Expr, rest: seq<Token>)
    requires ParseExpr(ts + ([CloseToken] + rest), Off) == Done(v, [CloseToken] + rest)
    ensures ParseFactor([OpenToken] + ts + [CloseToken] + rest, Off) == Done(v, rest)
  {
    var us := [OpenToken] + ts + [CloseToken] + rest;
    assert us[0] == OpenToken && us[1..] == ts + ([CloseToken] + rest);
    assert ([CloseToken] + rest)[1..] == rest;
  }

  lemma Negated(ts: seq<Token>, v: Expr, rest: seq<Token>)
    requires ParseFactor(ts, Off) == Done(v, rest)
    ensures ParseFactor([NotToken] + ts, Off) == Done(Not(v), rest)
  {
    assert ([NotToken] + ts)[1..] == ts;
  }

  lemma {:induction false} FactorOf(e: Expr, rest: seq<Token>)
    requires Filled(e) && NoRelation(rest) && !e.And?
    ensures ParseFactor(PrintOperand(e, true) + rest, Off) == Done(Norm(e), rest)
    decreases e, 1
  {
    var ts := PrintOperand(e, true) + rest;
    match e
    case At(a) => assert ts[1..] == rest;
    case Rel(equal, l, r) => assert ts[3..] == rest;
    case Or(es) =>
      TermsOfList(es, [CloseToken] + rest);
      InParentheses(Print(e), Norm(e), rest);
    case Not(x) =>
      if x.At? {
        assert Print(e) == [NotToken] + [AtomToken(x.a)];
        assert ts == [NotToken] + ([AtomToken(x.a)] + rest);
        assert ([AtomToken(x.a)] + rest)[1..] == rest;
        Negated([AtomToken(x.a)] + rest, x, rest);
      } else {
        ExprOf(x, [CloseToken] + rest);
        InParentheses(Print(x), Norm(x), rest);
        var inner := [OpenToken] + Print(x) + [CloseToken];
        assert ts == [NotToken] + (inner + rest);
        Negated(inner + rest, Norm(x), rest);
      }
  }

  lemma FactorsJoin(a: seq<Expr>, b: seq<Expr>, ts: seq<Token>)
    ensures After(a, ThenFactors(b, ts, Off)) == ThenFactors(a + b, ts, Off)
  {
    assert forall fs :: (a + b) + fs == a + (b + fs);
  }

  lemma {:induction false} FactorsOfList(es: seq<Expr>, rest: seq<Token>)
    requires es != [] && FilledAll(es) && NoRelation(rest)
    ensures ParseFactors(PrintList(es, true) + rest, Off) == ThenFactors(Operands(es, true), rest, Off)
    decreases es
  {
    var more := PrintMore(es[1..], true) + rest;
    assert PrintList(es, true) + rest == PrintOperand(es[0], true) + more;
    if es[1..] == [] {
      assert more == rest;
      FactorsOf(es[0], rest);
      assert Operands(es, true) == Spread(es[0], true) + [] == Spread(es[0], true);
    } else {
      assert more[1..] == PrintList(es[1..], true) + rest;
      FactorsOf(es[0], more);
      FactorsOfList(es[1..], rest);
      FactorsJoin(Spread(es[0], true), Operands(es[1..], true), rest);
    }
  }

  /** A printed operand of || is parsed as the terms it spreads into. */
  lemma {:induction false} TermsOf(e: Expr, rest: seq<Token>)
    requires Filled(e) && NoRelation(rest) && !Starts(rest, AndToken)
    ensures ParseTerms(Print(e) + rest, Off) == ThenTerms(Spread(e, false), rest, Off)
    decreases e, 3
  {
    if e.Or? {
      TermsOfList(e.es, rest);
    } else {
      FactorsOf(e, rest);
      assert PrintOperand(e, true) == Print(e);
      assert ParseTerm(Print(e) + rest, Off) == Done(Norm(e), rest);
    }
  }

  lemma TermsJoin(a: seq<Expr>, b: seq<Expr>, ts: seq<Token>)
    ensures After(a, ThenTerms(b, ts, Off)) == ThenTerms(a + b, ts, Off)
  {
    assert forall fs :: (a + b) + fs == a + (b + fs);
  }

  lemma {:induction false} TermsOfList(es: seq<Expr>, rest: seq<Token>)
    requires es != [] && FilledAll(es) && NoRelation(rest) && !Starts(rest, AndToken)
    ensures ParseTerms(PrintList(es, false) + rest, Off) == ThenTerms(Operands(es, false), rest, Off)
    decreases es
  {
    var more := PrintMore(es[1..], false) + rest;
    assert PrintList(es, false) + rest == Print(es[0]) + more;
    if es[1..] == [] {
      assert more == rest;
      TermsOf(es[0], rest);
      assert Operands(es, false) == Spread(es[0], false) + [] == Spread(es[0], false);
    } else {
      assert more[1..] == PrintList(es[1..], false) + rest;
      TermsOf(es[0], more);
      TermsOfList(es[1..], rest);
      TermsJoin(Spread(es[0], false), Operands(es[1..], false), rest);
    }
  }

  /** Parsing a printed expression gives it back with nested operators merged. */
  lemma {:induction false} ExprOf(e: Expr, rest: seq<Token>)
    requires Filled(e) && Closes(rest)
    ensures ParseExpr(Print(e) + rest, Off) == Done(Norm(e), rest)
    decreases e, 4
  {
    TermsOf(e, rest);
  }

  // ----- printing keeps the meaning -----

  lemma CollapseValue(es: seq<Expr>, env: Env)
    requires es != []
    ensures EvalRec(Collapse(es, true), env) == EvalAnd(es, env)
    ensures EvalRec(Collapse(es, false), env) == EvalOr(es, env)
  {
    if |es| == 1 {
      EvalSingle(es[0], env);
      assert es == [es[0]];
    }
  }

  lemma {:induction false} NormValue(e: Expr, env: Env)
    requires Filled(e)
    ensures EvalRec(Norm(e), env) == EvalRec(e, env)
    decreases e, 0
  {
    match e
    case At(_) =>
    case And(es) =>
      OperandsValue(es, env);
      CollapseValue(Operands(es, true), env);
    case Or(es) =>
      OperandsValue(es, env);
      CollapseValue(Operands(es, false), env);
    case Not(x) => NormValue(x, env);
    case Rel(_, _, _) =>
  }

  lemma {:induction false} SpreadValue(e: Expr, env: Env)
    requires Filled(e)
    ensures EvalAnd(Spread(e, true), env) == EvalRec(e, env) == EvalOr(Spread(e, false), env)
    decreases e, 1
  {
    NormValue(e, env);
    EvalSingle(Norm(e), env);
    if e.And? || e.Or? {
      OperandsValue(e.es, env);
    }
  }

  lemma {:induction false} OperandsValue(es: seq<Expr>, env: Env)
    requires FilledAll(es)
    ensures EvalAnd(Operands(es, true), env) == EvalAnd(es, env)
    ensures EvalOr(Operands(es, false), env) == EvalOr(es, env)
    decreases es
  {
    if es != [] {
      SpreadValue(es[0], env);
      OperandsValue(es[1..], env);
      EvalConcat(Spread(es[0], true), Operands(es[1..], true), env);
      EvalConcat(Spread(es[0], false), Operands(es[1..], false), env);
    }
  }

  /** Print, then parse: an expression of the same value, whatever the symbols are. */
  lemma PrintParse(e: Expr, env: Env)
    requires Filled(e)
    ensures var p := ParseExpr(Print(e), Off);
      p.Done? && p.rest == [] && EvalRec(p.value, env) == EvalRec(e, env)
  {
    assert Print(e) + [] == Print(e);
    ExprOf(e, []);
    NormValue(e, env);
  }

  // ----- when the tree itself comes back -----

  /** Operators have two operands or more, none of them the same operator. */
  predicate Canonical(e: Expr)
    decreases e, 0
  {
    match e
    case At(_) => true
    case And(es) => |es| >= 2 && CanonicalAll(es, true)
    case Or(es) => |es| >= 2 && CanonicalAll(es, false)
    case Not(x) => Canonical(x)
    case Rel(_, _, _) => true
  }

  predicate CanonicalAll(es: seq<Expr>, conj: bool)
    decreases es
  {
    es == [] ||
    (Canonical(es[0]) && !(conj && es[0].And?) && !(!conj && es[0].Or?) && CanonicalAll(es[1..], conj))
  }

  function Size(e: Expr): nat
    decreases e, 0
  {
    match e
    case At(_) => 1
    case And(es) => 1 + SizeAll(es)
    case Or(es) => 1 + SizeAll(es)
    case Not(x) => 1 + Size(x)
    case Rel(_, _, _) => 1
  }

  function SizeAll(es: seq<Expr>): nat
    decreases es
  {
    if es == [] then 0 else Size(es[0]) + SizeAll(es[1..])
  }

  lemma {:induction false} SizeConcat(s: seq<Expr>, t: seq<Expr>)
    ensures SizeAll(s + t) == SizeAll(s) + SizeAll(t)
    decreases |s|
  {
    if s == [] {
      assert s + t == t;
    } else {
      SizeConcat(s[1..], t);
      assert (s + t)[1..] == s[1..] + t;
    }
  }

  lemma SizeSingle(e: Expr)
    ensures SizeAll([e]) == Size(e)
  {
    assert [e][1..] == [];
  }

  lemma {:induction false} CanonicalNorm(e: Expr)
    requires Filled(e) && Canonical(e)
    ensures Norm(e) == e
    decreases e
  {
    match e
    case At(_) =>
    case And(es) => CanonicalOperands(es, true);
    case Or(es) => CanonicalOperands(es, false);
    case Not(x) => CanonicalNorm(x);
    case Rel(_, _, _) =>
  }

  lemma {:induction false} CanonicalOperands(es: seq<Expr>, conj: bool)
    requires FilledAll(es) && CanonicalAll(es, conj)
    ensures Operands(es, conj) == es
    decreases es
  {
    if es != [] {
      CanonicalNorm(es[0]);
      CanonicalOperands(es[1..], conj);
      assert es == [es[0]] + es[1..];
    }
  }

  lemma CollapseSize(es: seq<Expr>)
    requires es != []
    ensures forall conj :: Size(Collapse(es, conj)) == SizeAll(es) + if |es| == 1 then 0 else 1
  {
    if |es| == 1 {
      SizeSingle(es[0]);
      assert es == [es[0]];
    }
  }

  lemma {:induction false} OperandsCount(es: seq<Expr>, conj: bool)
    requires FilledAll(es)
    ensures CanonicalAll(es, conj) ==> |Operands(es, conj)| == |es|
    decreases es
  {
    if es != [] {
      OperandsCount(es[1..], conj);
    }
  }

  /** Any other expression comes back smaller. */
  lemma {:induction false} NormSize(e: Expr)
    requires Filled(e)
    ensures Size(Norm(e)) <= Size(e)
    ensures !Canonical(e) ==> Size(Norm(e)) < Size(e)
    decreases e, 0
  {
    match e
    case At(_) =>
    case And(es) =>
      OperandsSize(es, true);
      CollapseSize(Operands(es, true));
      OperandsCount(es, true);
    case Or(es) =>
      OperandsSize(es, false);
      CollapseSize(Operands(es, false));
      OperandsCount(es, false);
    case Not(x) => NormSize(x);
    case Rel(_, _, _) =>
  }

  lemma {:induction false} SpreadSize(e: Expr, conj: bool)
    requires Filled(e)
    ensures SizeAll(Spread(e, conj)) <= Size(e)
    ensures !Canonical(e) || (conj && e.And?) || (!conj && e.Or?) ==> SizeAll(Spread(e, conj)) < Size(e)
    decreases e, 1
  {
    NormSize(e);
    SizeSingle(Norm(e));
    if e.And? || e.Or? {
      OperandsSize(e.es, conj);
    }
  }

  lemma {:induction false} OperandsSize(es: seq<Expr>, conj: bool)
    requires FilledAll(es)
    ensures SizeAll(Operands(es, conj)) <= SizeAll(es)
    ensures !CanonicalAll(es, conj) ==> SizeAll(Operands(es, conj)) < SizeAll(es)
    decreases es
  {
    if es != [] {
      SpreadSize(es[0], conj);
      OperandsSize(es[1..], conj);
      SizeConcat(Spread(es[0], conj), Operands(es[1..], conj));
    }
  }

  /** The very tree comes back exactly when operators have two operands or more and
      are not directly inside themselves. */
  lemma SameTree(e: Expr)
    requires Filled(e)
    ensures ParseExpr(Print(e), Off) == Done(e, []) <==> Canonical(e)
  {
    assert Print(e) + [] == Print(e);
    ExprOf(e, []);
    if Canonical(e) {
      CanonicalNorm(e);
    } else {
      NormSize(e);
    }
  }
}
