/** The expression parser of kconfiglib in its own form: a cursor over tokens and
    three mutually recursive methods, two of them with a loop. */
module KconfigParser {
  import opened Wrappers
  import opened KconfigExpr
  import opened KconfigPrint

  class Feed {
    const items: seq<Token>
    var i: nat

    constructor (items: seq<Token>)
      ensures this.items == items && i == 0
    {
      this.items := items;
      i := 0;
    }

    ghost predicate Valid()
      reads this
    {
      i <= |items|
    }

    /** The tokens not yet taken. */
    ghost function Rest(): seq<Token>
      reads this
      requires Valid()
    {
      items[i..]
    }

    method GetNext() returns (t: Option<Token>)
      requires Valid()
      modifies this
      ensures Valid()
      ensures if old(Rest()) == [] then t == None && Rest() == []
              else t == Some(old(Rest())[0]) && Rest() == old(Rest())[1..]
    {
      if i >= |items| {
        return None;
      }
      t := Some(items[i]);
      i := i + 1;
    }

    method PeekNext() returns (t: Option<Token>)
      requires Valid()
      ensures t == if Rest() == [] then None else Some(Rest()[0])
    {
      t := if i >= |items| then None else Some(items[i]);
    }

    /** Take the next token if it is this one. */
    method Check(t: Token) returns (found: bool)
      requires Valid()
      modifies this
      ensures Valid() && found == Starts(old(Rest()), t)
      ensures Rest() == if found then old(Rest())[1..] else old(Rest())
    {
      found := i < |items| && items[i] == t;
      if found {
        i := i + 1;
      }
    }
  }

  /** The parser did what the specification says: None stands for a syntax error. */
  ghost predicate Agrees(p: Parse<Expr>, r: Option<Expr>, rest: seq<Token>) {
    match p
    case Fail => r == None
    case Done(e, rest') => r == Some(e) && rest == rest'
  }

  /** _parse_expr_rec */
  method ParseExprRec(feed: Feed, tm: Transform) returns (r: Option<Expr>)
    requires feed.Valid()
    modifies feed
    ensures feed.Valid() && Agrees(ParseExpr(old(feed.Rest()), tm), r, feed.Rest())
    decreases |feed.Rest()|, 4
  {
    ghost var start := feed.Rest();
    TermsStep([], start, tm);
    var term := ParseOrTerm(feed, tm);
    if term == None {
      return None;
    }
    var more := feed.Check(OrToken);
    if !more {
      return term;
    }
    var terms := [term.value];
    while more
      invariant feed.Valid() && terms != []
      invariant |feed.Rest()| < |start|
      invariant ParseTerms(start, tm) ==
        if more then After(terms, ParseTerms(feed.Rest(), tm)) else Done(terms, feed.Rest())
      invariant !more ==> |terms| >= 2
      decreases |feed.Rest()|, more
    {
      TermsStep(terms, feed.Rest(), tm);
      term := ParseOrTerm(feed, tm);
      if term == None {
        return None;
      }
      terms := terms + [term.value];
      more := feed.Check(OrToken);
    }
    return Some(Or(terms));
  }

  /** _parse_or_term */
  method ParseOrTerm(feed: Feed, tm: Transform) returns (r: Option<Expr>)
    requires feed.Valid()
    modifies feed
    ensures feed.Valid() && Agrees(ParseTerm(old(feed.Rest()), tm), r, feed.Rest())
    decreases |feed.Rest()|, 2
  {
    ghost var start := feed.Rest();
    FactorsStep([], start, tm);
    var factor := ParseFactorToken(feed, tm);
    if factor == None {
      return None;
    }
    var more := feed.Check(AndToken);
    if !more {
      return factor;
    }
    var factors := [factor.value];
    while more
      invariant feed.Valid() && factors != []
      invariant |feed.Rest()| < |start|
      invariant ParseFactors(start, tm) ==
        if more then After(factors, ParseFactors(feed.Rest(), tm)) else Done(factors, feed.Rest())
      invariant !more ==> |factors| >= 2
      decreases |feed.Rest()|, more
    {
      FactorsStep(factors, feed.Rest(), tm);
      factor := ParseFactorToken(feed, tm);
      if factor == None {
        return None;
      }
      factors := factors + [factor.value];
      more := feed.Check(AndToken);
    }
    return Some(And(factors));
  }

  /** _parse_factor */
  method ParseFactorToken(feed: Feed, tm: Transform) returns (r: Option<Expr>)
    requires feed.Valid()
    modifies feed
    ensures feed.Valid() && Agrees(ParseFactor(old(feed.Rest()), tm), r, feed.Rest())
    decreases |feed.Rest()|, 0
  {
    ghost var start := feed.Rest();
    var token := feed.GetNext();
    if token.Some? && token.value.AtomToken? {
      var a := token.value.a;
      var next := feed.PeekNext();
      if next != Some(EqualToken) && next != Some(UnequalToken) {
        return Some(if IsM(a, tm) then And([At(Str("m")), At(Sym(tm.modules))]) else At(a));
      }
      var relation := feed.GetNext();
      var right := feed.GetNext();
      if right.None? || !right.value.AtomToken? {
        return None;
      }
      return Some(Rel(relation == Some(EqualToken), a, right.value.a));
    }
    if token == Some(NotToken) {
      var e := ParseFactorToken(feed, tm);
      return if e == None then None else Some(Not(e.value));
    }
    if token == Some(OpenToken) {
      var e := ParseExprRec(feed, tm);
      if e == None {
        return None;
      }
      var closed := feed.Check(CloseToken);
      return if closed then e else None;
    }
    return None;
  }
}
