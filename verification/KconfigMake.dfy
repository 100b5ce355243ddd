/** _make_and, _make_or, and the conditions _parse_properties builds with them. */
module KconfigMake {
  import opened Wrappers
  import opened KconfigExpr

  /** Operand lists are merged to reduce the number of nodes. */
  function MergeAnd(a: Expr, b: Expr): Expr {
    if a.And? then
      if b.And? then And(a.es + b.es) else And(a.es + [b])
    else if b.And? then And(b.es + [a])
    else And([a, b])
  }

  /** Absent conditions count as y. */
  function MakeAnd(e1: Option<Expr>, e2: Option<Expr>): Option<Expr> {
    if e1 == None || e1 == Some(CONST_Y) then e2
    else if e2 == None || e2 == Some(CONST_Y) then e1
    else Some(MergeAnd(e1.value, e2.value))
  }

  function MergeOr(a: Expr, b: Expr): Expr {
    if a.Or? then
      if b.Or? then Or(a.es + b.es) else Or(a.es + [b])
    else if b.Or? then Or(b.es + [a])
    else Or([a, b])
  }

  function MakeOr(e1: Option<Expr>, e2: Option<Expr>): Expr {
    if e1 == None || e2 == None || e1 == Some(CONST_Y) || e2 == Some(CONST_Y) then CONST_Y
    else if e1 == Some(CONST_N) then e2.value
    else MergeOr(e1.value, e2.value)
  }

  /** Promotion respects the order of the tristates. */
  lemma PromoteMinMax(a: Tri, b: Tri, modules: bool)
    ensures Promote(Min(a, b), modules) == Min(Promote(a, modules), Promote(b, modules))
    ensures Promote(Max(a, b), modules) == Max(Promote(a, modules), Promote(b, modules))
  {
  }

  lemma PairValue(a: Expr, b: Expr, env: Env)
    ensures EvalAnd([a, b], env) == Min(EvalRec(a, env), EvalRec(b, env))
    ensures EvalOr([a, b], env) == Max(EvalRec(a, env), EvalRec(b, env))
  {
    EvalConcat([a], [b], env);
    EvalSingle(a, env);
    EvalSingle(b, env);
    assert [a] + [b] == [a, b];
  }

  lemma MergeAndIsMin(a: Expr, b: Expr, env: Env)
    ensures EvalRec(MergeAnd(a, b), env) == Min(EvalRec(a, env), EvalRec(b, env))
  {
    if a.And? {
      EvalConcat(a.es, if b.And? then b.es else [b], env);
      EvalSingle(b, env);
    } else if b.And? {
      EvalConcat(b.es, [a], env);
      EvalSingle(a, env);
    } else {
      PairValue(a, b, env);
    }
  }

  lemma MergeOrIsMax(a: Expr, b: Expr, env: Env)
    ensures EvalRec(MergeOr(a, b), env) == Max(EvalRec(a, env), EvalRec(b, env))
  {
    if a.Or? {
      EvalConcat(a.es, if b.Or? then b.es else [b], env);
      EvalSingle(b, env);
    } else if b.Or? {
      EvalConcat(b.es, [a], env);
      EvalSingle(a, env);
    } else {
      PairValue(a, b, env);
    }
  }

  /** Whatever is simplified or merged, the value is the least of the two. */
  lemma MakeAndIsMin(e1: Option<Expr>, e2: Option<Expr>, env: Env, modules: bool)
    ensures Eval(MakeAnd(e1, e2), env, modules) == Min(Eval(e1, env, modules), Eval(e2, env, modules))
  {
    if e1.Some? && e2.Some? {
      PromoteMinMax(EvalRec(e1.value, env), EvalRec(e2.value, env), modules);
      MergeAndIsMin(e1.value, e2.value, env);
    }
  }

  /** ... and the greatest. */
  lemma MakeOrIsMax(e1: Option<Expr>, e2: Option<Expr>, env: Env, modules: bool)
    ensures Eval(Some(MakeOr(e1, e2)), env, modules) == Max(Eval(e1, env, modules), Eval(e2, env, modules))
  {
    if e1.Some? && e2.Some? {
      PromoteMinMax(EvalRec(e1.value, env), EvalRec(e2.value, env), modules);
      MergeOrIsMax(e1.value, e2.value, env);
    }
  }

  // ----- the conditions of a statement -----

  /** The 'depends on' lines of a statement, first line first. */
  function DependsOn(lines: seq<Expr>): Option<Expr> {
    if lines == [] then None
    else MakeAnd(DependsOn(lines[..|lines| - 1]), Some(lines[|lines| - 1]))
  }

  /** The conditions of the enclosing ifs and menus, innermost first. */
  function Enclosing(blocks: seq<Option<Expr>>): Option<Expr> {
    if blocks == [] then None else MakeAnd(blocks[0], Enclosing(blocks[1..]))
  }

  /** The 'visible if' conditions of the enclosing menus, outermost first. */
  function VisibleIf(menus: seq<Option<Expr>>): Option<Expr> {
    if menus == [] then None
    else MakeAnd(VisibleIf(menus[..|menus| - 1]), menus[|menus| - 1])
  }

  /** The condition recorded for a prompt. */
  function PromptCondition(cond: Option<Expr>, visible: seq<Option<Expr>>, lines: seq<Expr>,
                           blocks: seq<Option<Expr>>): Option<Expr>
  {
    MakeAnd(MakeAnd(MakeAnd(cond, VisibleIf(visible)), DependsOn(lines)), Enclosing(blocks))
  }

  /** The condition recorded for a default. */
  function DefaultCondition(cond: Option<Expr>, lines: seq<Expr>, blocks: seq<Option<Expr>>): Option<Expr> {
    MakeAnd(MakeAnd(cond, DependsOn(lines)), Enclosing(blocks))
  }

  /** A select: the symbol that has it, its condition and those of its statement. */
  datatype Select = Select(selector: SymId, cond: Option<Expr>, lines: seq<Expr>, blocks: seq<Option<Expr>>)

  /** What a select adds to the reverse dependencies of its target. */
  function SelectCondition(s: Select): Option<Expr> {
    MakeAnd(Some(At(Sym(s.selector))), MakeAnd(MakeAnd(s.cond, DependsOn(s.lines)), Enclosing(s.blocks)))
  }

  /** rev_dep of a symbol after the selects that target it, in order. */
  function RevDep(selects: seq<Select>): Expr {
    if selects == [] then CONST_N
    else MakeOr(Some(RevDep(selects[..|selects| - 1])), SelectCondition(selects[|selects| - 1]))
  }

  // ----- what they mean -----

  /** v is the least of a list of values, y if there is none. */
  ghost predicate IsLeast(v: Tri, s: seq<Tri>) {
    (forall x :: x in s ==> Rank(v) <= Rank(x)) && (v in s || v == Y)
  }

  ghost predicate IsGreatest(v: Tri, s: seq<Tri>) {
    (forall x :: x in s ==> Rank(x) <= Rank(v)) && (v in s || v == N)
  }

  function Values(s: seq<Option<Expr>>, env: Env, modules: bool): seq<Tri> {
    seq(|s|, i requires 0 <= i < |s| => Eval(s[i], env, modules))
  }

  function Present(lines: seq<Expr>): seq<Option<Expr>> {
    seq(|lines|, i requires 0 <= i < |lines| => Some(lines[i]))
  }

  lemma LeastJoin(v: Tri, s: seq<Tri>, w: Tri, t: seq<Tri>)
    requires IsLeast(v, s) && IsLeast(w, t)
    ensures IsLeast(Min(v, w), s + t)
  {
  }

  lemma {:induction false} DependsOnIsLeast(lines: seq<Expr>, env: Env, modules: bool)
    ensures IsLeast(Eval(DependsOn(lines), env, modules), Values(Present(lines), env, modules))
  {
    if lines != [] {
      var n := |lines| - 1;
      DependsOnIsLeast(lines[..n], env, modules);
      MakeAndIsMin(DependsOn(lines[..n]), Some(lines[n]), env, modules);
      assert Values(Present(lines), env, modules)
          == Values(Present(lines[..n]), env, modules) + [Eval(Some(lines[n]), env, modules)];
    }
  }

  lemma {:induction false} EnclosingIsLeast(blocks: seq<Option<Expr>>, env: Env, modules: bool)
    ensures IsLeast(Eval(Enclosing(blocks), env, modules), Values(blocks, env, modules))
  {
    if blocks != [] {
      EnclosingIsLeast(blocks[1..], env, modules);
      MakeAndIsMin(blocks[0], Enclosing(blocks[1..]), env, modules);
      assert Values(blocks, env, modules)
          == [Eval(blocks[0], env, modules)] + Values(blocks[1..], env, modules);
    }
  }

  lemma {:induction false} VisibleIfIsLeast(menus: seq<Option<Expr>>, env: Env, modules: bool)
    ensures IsLeast(Eval(VisibleIf(menus), env, modules), Values(menus, env, modules))
  {
    if menus != [] {
      var n := |menus| - 1;
      VisibleIfIsLeast(menus[..n], env, modules);
      MakeAndIsMin(VisibleIf(menus[..n]), menus[n], env, modules);
      assert Values(menus, env, modules)
          == Values(menus[..n], env, modules) + [Eval(menus[n], env, modules)];
    }
  }

  lemma AndIsLeast(e1: Option<Expr>, s: seq<Tri>, e2: Option<Expr>, t: seq<Tri>, env: Env, modules: bool)
    requires IsLeast(Eval(e1, env, modules), s) && IsLeast(Eval(e2, env, modules), t)
    ensures IsLeast(Eval(MakeAnd(e1, e2), env, modules), s + t)
  {
    MakeAndIsMin(e1, e2, env, modules);
    LeastJoin(Eval(e1, env, modules), s, Eval(e2, env, modules), t);
  }

  /** A prompt is visible as far as its own condition, every enclosing 'visible if',
      every 'depends on' line and every enclosing if and menu allow. */
  lemma PromptIsLeast(cond: Option<Expr>, visible: seq<Option<Expr>>, lines: seq<Expr>,
                      blocks: seq<Option<Expr>>, env: Env, modules: bool)
    ensures IsLeast(Eval(PromptCondition(cond, visible, lines, blocks), env, modules),
      [Eval(cond, env, modules)] + Values(visible, env, modules) + Values(Present(lines), env, modules)
        + Values(blocks, env, modules))
  {
    VisibleIfIsLeast(visible, env, modules);
    DependsOnIsLeast(lines, env, modules);
    EnclosingIsLeast(blocks, env, modules);
    var c := [Eval(cond, env, modules)];
    AndIsLeast(cond, c, VisibleIf(visible), Values(visible, env, modules), env, modules);
    var e := MakeAnd(cond, VisibleIf(visible));
    var s := c + Values(visible, env, modules);
    AndIsLeast(e, s, DependsOn(lines), Values(Present(lines), env, modules), env, modules);
    AndIsLeast(MakeAnd(e, DependsOn(lines)), s + Values(Present(lines), env, modules),
               Enclosing(blocks), Values(blocks, env, modules), env, modules);
  }

  lemma DefaultIsLeast(cond: Option<Expr>, lines: seq<Expr>, blocks: seq<Option<Expr>>, env: Env, modules: bool)
    ensures IsLeast(Eval(DefaultCondition(cond, lines, blocks), env, modules),
      [Eval(cond, env, modules)] + Values(Present(lines), env, modules) + Values(blocks, env, modules))
  {
    DependsOnIsLeast(lines, env, modules);
    EnclosingIsLeast(blocks, env, modules);
    var c := [Eval(cond, env, modules)];
    AndIsLeast(cond, c, DependsOn(lines), Values(Present(lines), env, modules), env, modules);
    AndIsLeast(MakeAnd(cond, DependsOn(lines)), c + Values(Present(lines), env, modules),
               Enclosing(blocks), Values(blocks, env, modules), env, modules);
  }

  /** The values a select depends on: its selector's and all its conditions'. */
  function SelectValues(s: Select, env: Env, modules: bool): seq<Tri> {
    [Eval(Some(At(Sym(s.selector))), env, modules)] +
    ([Eval(s.cond, env, modules)] + Values(Present(s.lines), env, modules) + Values(s.blocks, env, modules))
  }

  lemma SelectIsLeast(s: Select, env: Env, modules: bool)
    ensures IsLeast(Eval(SelectCondition(s), env, modules), SelectValues(s, env, modules))
  {
    var c := Some(At(Sym(s.selector)));
    DefaultIsLeast(s.cond, s.lines, s.blocks, env, modules);
    AndIsLeast(c, [Eval(c, env, modules)], DefaultCondition(s.cond, s.lines, s.blocks),
      [Eval(s.cond, env, modules)] + Values(Present(s.lines), env, modules) + Values(s.blocks, env, modules),
      env, modules);
  }

  lemma GreatestSnoc(v: Tri, s: seq<Tri>, w: Tri)
    requires IsGreatest(v, s)
    ensures IsGreatest(Max(v, w), s + [w])
  {
  }

  lemma RevDepSnoc(selects: seq<Select>, s: Select, env: Env, modules: bool)
    ensures Eval(Some(RevDep(selects + [s])), env, modules)
      == Max(Eval(Some(RevDep(selects)), env, modules), Eval(SelectCondition(s), env, modules))
  {
    assert (selects + [s])[..|selects|] == selects;
    MakeOrIsMax(Some(RevDep(selects)), SelectCondition(s), env, modules);
  }

  /** A symbol is selected as far as the strongest of its selects: rev_dep is the
      greatest, over all selects, of the least of the select's values. */
  lemma {:induction false} RevDepIsGreatest(selects: seq<Select>, env: Env, modules: bool) returns (vs: seq<Tri>)
    ensures |vs| == |selects|
    ensures forall i :: 0 <= i < |selects| ==> IsLeast(vs[i], SelectValues(selects[i], env, modules))
    ensures IsGreatest(Eval(Some(RevDep(selects)), env, modules), vs)
  {
    if selects == [] {
      vs := [];
    } else {
      var t, s := selects[..|selects| - 1], selects[|selects| - 1];
      assert selects == t + [s];
      var us := RevDepIsGreatest(t, env, modules);
      var v := Eval(SelectCondition(s), env, modules);
      SelectIsLeast(s, env, modules);
      RevDepSnoc(t, s, env, modules);
      GreatestSnoc(Eval(Some(RevDep(t)), env, modules), us, v);
      vs := us + [v];
      forall i | 0 <= i < |selects| ensures IsLeast(vs[i], SelectValues(selects[i], env, modules)) {
        assert i < |t| ==> selects[i] == t[i];
      }
    }
  }
}
