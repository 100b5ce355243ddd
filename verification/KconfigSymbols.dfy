/** The value and the visibility of a symbol, given the values of the symbols it refers
    to, and what they depend on. */
module KconfigSymbols {
  import opened Wrappers
  import opened KconfigExpr

  datatype SymType = Unknown | Bool | Tristate | String | Hex | Int

  /** Python's int() and number formatting, which the model leaves open. */
  datatype Numerals = Numerals(
    isNumber: (string, nat) -> bool, parse: (string, nat) -> int, show: (int, nat) -> string)

  datatype Default = Default(val: Expr, cond: Option<Expr>)
  datatype Range = Range(low: Atom, high: Atom, cond: Option<Expr>)

  /** What the Kconfig files say of a symbol; `special` is the fixed value of n, m, y
      and of symbols taken from the environment. */
  datatype SymDef = SymDef(
    name: string, ty: SymType, special: Option<string>, defined: bool,
    prompts: seq<Option<Expr>>, defaults: seq<Default>, ranges: seq<Range>, revDep: Expr)

  predicate IsTri(ty: SymType) {
    ty == Bool || ty == Tristate
  }

  /** The user values the type admits. */
  predicate Admits(num: Numerals, ty: SymType, v: string) {
    match ty
    case Unknown => false
    case Bool => v == "y" || v == "n"
    case Tristate => v == "y" || v == "m" || v == "n"
    case String => true
    case Hex => num.isNumber(v, 16)
    case Int => num.isNumber(v, 10)
  }

  // ----- what get_value looks up -----

  /** The default that applies: its value, the value of its condition, and its text. */
  datatype Chosen = Chosen(value: Tri, cond: Tri, text: string)

  datatype Seen = Seen(vis: Tri, def: Option<Chosen>, limits: Option<(int, int)>, rev: Tri)

  /** _eval_max of two tristates: m counts as y without modules. */
  function MaxOf(a: Tri, b: Tri, modules: bool): Tri {
    Max(Promote(a, modules), Promote(b, modules))
  }

  function MinOf(a: Tri, b: Tri, modules: bool): Tri {
    Min(Promote(a, modules), Promote(b, modules))
  }

  function VisibilityFrom(vis: Tri, prompts: seq<Option<Expr>>, env: Env, modules: bool): Tri
    decreases |prompts|
  {
    if prompts == [] then vis
    else
      var next := MaxOf(vis, Eval(prompts[0], env, modules), modules);
      VisibilityFrom(next, prompts[1..], env, modules)
  }

  function Visibility(d: SymDef, env: Env, modules: bool): Tri {
    var vis := VisibilityFrom(N, d.prompts, env, modules);
    if vis == M && d.ty != Tristate then Y else vis
  }

  /** The first default whose condition holds. */
  function Active(ds: seq<Default>, env: Env, modules: bool): Option<Default> {
    if ds == [] then None
    else if Eval(ds[0].cond, env, modules) != N then Some(ds[0])
    else Active(ds[1..], env, modules)
  }

  function ActiveRange(rs: seq<Range>, env: Env, modules: bool): Option<Range> {
    if rs == [] then None
    else if Eval(rs[0].cond, env, modules) != N then Some(rs[0])
    else ActiveRange(rs[1..], env, modules)
  }

  /** _str_val, of a symbol or string. */
  function ExprText(e: Expr, env: Env): string {
    if e.At? then AtomText(e.a, env) else ""
  }

  function Base(ty: SymType): nat {
    if ty == Hex then 16 else 10
  }

  function Bound(num: Numerals, a: Atom, base: nat, env: Env): int {
    var t := AtomText(a, env);
    if num.isNumber(t, base) then num.parse(t, base) else 0
  }

  function Limits(num: Numerals, d: SymDef, env: Env, modules: bool): Option<(int, int)> {
    match ActiveRange(d.ranges, env, modules)
    case None => None
    case Some(r) => Some((Bound(num, r.low, Base(d.ty), env), Bound(num, r.high, Base(d.ty), env)))
  }

  function Applied(d: SymDef, env: Env, modules: bool): Option<Chosen> {
    match Active(d.defaults, env, modules)
    case None => None
    case Some(x) =>
      Some(Chosen(Eval(Some(x.val), env, modules), Eval(x.cond, env, modules), ExprText(x.val, env)))
  }

  function See(num: Numerals, d: SymDef, env: Env, modules: bool): Seen {
    Seen(Visibility(d, env, modules), Applied(d, env, modules), Limits(num, d, env, modules),
         Eval(Some(d.revDep), env, modules))
  }

  // ----- get_value -----

  /** The user value or the default, each up to its bound. */
  function Bounded(user: Option<string>, seen: Seen, modules: bool): Tri {
    if seen.vis != N && user.Some? then MinOf(TriOf(user.value), seen.vis, modules)
    else
      match seen.def
      case None => N
      case Some(x) => MinOf(x.value, x.cond, modules)
  }

  function TriValue(ty: SymType, user: Option<string>, seen: Seen, modules: bool): Tri {
    var chosen := Bounded(user, seen, modules);
    var selected := if seen.rev != N then MaxOf(chosen, seen.rev, modules) else chosen;
    if selected == M && ty == Bool then Y else selected
  }

  function Clamped(num: Numerals, v: string, base: nat, limits: Option<(int, int)>): string {
    if num.isNumber(v, base) && limits.Some? then
      if num.parse(v, base) < limits.value.0 then num.show(limits.value.0, base)
      else if num.parse(v, base) > limits.value.1 then num.show(limits.value.1, base)
      else v
    else v
  }

  /** Whether a user value is a number within the range. */
  predicate UserFits(num: Numerals, base: nat, user: Option<string>, limits: Option<(int, int)>) {
    && user.Some? && num.isNumber(user.value, base)
    && (limits.None? || limits.value.0 <= num.parse(user.value, base) <= limits.value.1)
  }

  function NumberValue(num: Numerals, base: nat, user: Option<string>, seen: Seen): string {
    if seen.vis != N && UserFits(num, base, user, seen.limits) then user.value
    else
      match seen.def
      case Some(x) => Clamped(num, x.text, base, seen.limits)
      case None => if seen.limits.Some? && seen.limits.value.0 > 0 then num.show(seen.limits.value.0, base) else ""
  }

  function StringValue(user: Option<string>, seen: Seen): string {
    if seen.vis != N && user.Some? then user.value
    else if seen.def.Some? then seen.def.value.text
    else ""
  }

  function NewValue(num: Numerals, d: SymDef, user: Option<string>, seen: Seen, modules: bool): string {
    match d.ty
    case Unknown => d.name
    case Bool => Text(TriValue(d.ty, user, seen, modules))
    case Tristate => Text(TriValue(d.ty, user, seen, modules))
    case Int => NumberValue(num, Base(d.ty), user, seen)
    case Hex => NumberValue(num, Base(d.ty), user, seen)
    case String => StringValue(user, seen)
  }

  // ----- what a symbol reads -----

  function DefaultSyms(x: Default): set<SymId> {
    Syms(x.val) + OptSyms(x.cond)
  }

  function RangeSyms(x: Range): set<SymId> {
    AtomSyms(x.low) + AtomSyms(x.high) + OptSyms(x.cond)
  }

  /** The symbols in a property of d: what _build_dep walks over. */
  predicate ReadsSym(d: SymDef, u: SymId) {
    || (exists i :: 0 <= i < |d.prompts| && u in OptSyms(d.prompts[i]))
    || (exists i :: 0 <= i < |d.defaults| && u in DefaultSyms(d.defaults[i]))
    || u in Syms(d.revDep)
    || (exists i :: 0 <= i < |d.ranges| && u in RangeSyms(d.ranges[i]))
  }

  lemma OptAgrees(e: Option<Expr>, env: Env, env': Env, modules: bool)
    requires forall u :: u in OptSyms(e) ==> env(u) == env'(u)
    ensures Eval(e, env, modules) == Eval(e, env', modules)
  {
    if e.Some? {
      EvalAgrees(e.value, env, env');
    }
  }

  lemma {:induction false} VisibilityAgrees(vis: Tri, ps: seq<Option<Expr>>, env: Env, env': Env, modules: bool)
    requires forall i, u :: 0 <= i < |ps| && u in OptSyms(ps[i]) ==> env(u) == env'(u)
    ensures VisibilityFrom(vis, ps, env, modules) == VisibilityFrom(vis, ps, env', modules)
    decreases |ps|
  {
    if ps != [] {
      OptAgrees(ps[0], env, env', modules);
      VisibilityAgrees(MaxOf(vis, Eval(ps[0], env, modules), modules), ps[1..], env, env', modules);
    }
  }

  lemma {:induction false} ActiveAgrees(ds: seq<Default>, env: Env, env': Env, modules: bool)
    requires forall i, u :: 0 <= i < |ds| && u in DefaultSyms(ds[i]) ==> env(u) == env'(u)
    ensures Active(ds, env, modules) == Active(ds, env', modules)
    ensures Active(ds, env, modules).Some? ==> Active(ds, env, modules).value in ds
    decreases |ds|
  {
    if ds != [] {
      assert OptSyms(ds[0].cond) <= DefaultSyms(ds[0]);
      OptAgrees(ds[0].cond, env, env', modules);
      ActiveAgrees(ds[1..], env, env', modules);
    }
  }

  lemma {:induction false} ActiveRangeAgrees(rs: seq<Range>, env: Env, env': Env, modules: bool)
    requires forall i, u :: 0 <= i < |rs| && u in RangeSyms(rs[i]) ==> env(u) == env'(u)
    ensures ActiveRange(rs, env, modules) == ActiveRange(rs, env', modules)
    ensures ActiveRange(rs, env, modules).Some? ==> ActiveRange(rs, env, modules).value in rs
    decreases |rs|
  {
    if rs != [] {
      assert OptSyms(rs[0].cond) <= RangeSyms(rs[0]);
      OptAgrees(rs[0].cond, env, env', modules);
      ActiveRangeAgrees(rs[1..], env, env', modules);
    }
  }

  lemma AppliedAgrees(d: SymDef, env: Env, env': Env, modules: bool)
    requires forall i, u :: 0 <= i < |d.defaults| && u in DefaultSyms(d.defaults[i]) ==> env(u) == env'(u)
    ensures Applied(d, env, modules) == Applied(d, env', modules)
  {
    ActiveAgrees(d.defaults, env, env', modules);
    var a := Active(d.defaults, env, modules);
    if a.Some? {
      var i :| 0 <= i < |d.defaults| && d.defaults[i] == a.value;
      assert forall u :: u in DefaultSyms(d.defaults[i]) ==> env(u) == env'(u);
      OptAgrees(Some(a.value.val), env, env', modules);
      OptAgrees(a.value.cond, env, env', modules);
    }
  }

  lemma LimitsAgree(num: Numerals, d: SymDef, env: Env, env': Env, modules: bool)
    requires forall i, u :: 0 <= i < |d.ranges| && u in RangeSyms(d.ranges[i]) ==> env(u) == env'(u)
    ensures Limits(num, d, env, modules) == Limits(num, d, env', modules)
  {
    ActiveRangeAgrees(d.ranges, env, env', modules);
    var a := ActiveRange(d.ranges, env, modules);
    if a.Some? {
      var i :| 0 <= i < |d.ranges| && d.ranges[i] == a.value;
      assert forall u :: u in RangeSyms(d.ranges[i]) ==> env(u) == env'(u);
    }
  }

  /** What get_value looks up depends on the symbols the definition refers to, and on
      MODULES, only. */
  lemma SeeAgrees(num: Numerals, d: SymDef, env: Env, env': Env, modules: bool)
    requires forall u :: ReadsSym(d, u) ==> env(u) == env'(u)
    ensures See(num, d, env, modules) == See(num, d, env', modules)
  {
    VisibilityAgrees(N, d.prompts, env, env', modules);
    AppliedAgrees(d, env, env', modules);
    LimitsAgree(num, d, env, env', modules);
    OptAgrees(Some(d.revDep), env, env', modules);
  }

  // ----- definitions that never come to m -----

  /** e refers only to symbols of `quiet` and to no string "m". */
  predicate Plain(e: Expr, quiet: set<SymId>)
    decreases e
  {
    match e
    case At(a) => if a.Sym? then a.id in quiet else a.s != "m"
    case And(es) => forall i :: 0 <= i < |es| ==> Plain(es[i], quiet)
    case Or(es) => forall i :: 0 <= i < |es| ==> Plain(es[i], quiet)
    case Not(x) => Plain(x, quiet)
    case Rel(_, _, _) => true
  }

  predicate PlainOpt(e: Option<Expr>, quiet: set<SymId>) {
    e.Some? ==> Plain(e.value, quiet)
  }

  predicate PlainDef(d: SymDef, quiet: set<SymId>) {
    && (d.special.Some? || d.ty != Tristate)
    && (forall i :: 0 <= i < |d.prompts| ==> PlainOpt(d.prompts[i], quiet))
    && (forall i :: 0 <= i < |d.defaults| ==>
          Plain(d.defaults[i].val, quiet) && PlainOpt(d.defaults[i].cond, quiet))
    && Plain(d.revDep, quiet)
    && (forall i :: 0 <= i < |d.ranges| ==> PlainOpt(d.ranges[i].cond, quiet))
  }

  /** The symbols of `quiet` do not have value m. */
  ghost predicate Hushed(env: Env, quiet: set<SymId>) {
    forall u :: u in quiet && env(u).tri ==> env(u).value != "m"
  }

  lemma {:induction false} PlainIsNotM(e: Expr, quiet: set<SymId>, env: Env)
    requires Plain(e, quiet) && Hushed(env, quiet)
    ensures EvalRec(e, env) != M
    decreases e
  {
    match e
    case At(_) =>
    case And(es) => PlainListIsNotM(es, quiet, env);
    case Or(es) => PlainListIsNotM(es, quiet, env);
    case Not(x) => PlainIsNotM(x, quiet, env);
    case Rel(_, _, _) =>
  }

  lemma {:induction false} PlainListIsNotM(es: seq<Expr>, quiet: set<SymId>, env: Env)
    requires (forall i :: 0 <= i < |es| ==> Plain(es[i], quiet)) && Hushed(env, quiet)
    ensures EvalAnd(es, env) != M && EvalOr(es, env) != M
    decreases es
  {
    if es != [] {
      PlainIsNotM(es[0], quiet, env);
      PlainListIsNotM(es[1..], quiet, env);
    }
  }

  lemma PlainEval(e: Option<Expr>, quiet: set<SymId>, env: Env)
    requires PlainOpt(e, quiet) && Hushed(env, quiet)
    ensures Eval(e, env, true) == Eval(e, env, false) != M
  {
    if e.Some? {
      PlainIsNotM(e.value, quiet, env);
    }
  }

  lemma {:induction false} PlainVisibility(vis: Tri, ps: seq<Option<Expr>>, quiet: set<SymId>, env: Env)
    requires vis != M && Hushed(env, quiet)
    requires forall i :: 0 <= i < |ps| ==> PlainOpt(ps[i], quiet)
    ensures VisibilityFrom(vis, ps, env, true) == VisibilityFrom(vis, ps, env, false) != M
    decreases |ps|
  {
    if ps != [] {
      PlainEval(ps[0], quiet, env);
      PlainVisibility(MaxOf(vis, Eval(ps[0], env, true), true), ps[1..], quiet, env);
    }
  }

  lemma {:induction false} PlainActive(ds: seq<Default>, quiet: set<SymId>, env: Env)
    requires Hushed(env, quiet)
    requires forall i :: 0 <= i < |ds| ==> Plain(ds[i].val, quiet) && PlainOpt(ds[i].cond, quiet)
    ensures Active(ds, env, true) == Active(ds, env, false)
    ensures Active(ds, env, true).Some? ==> Active(ds, env, true).value in ds
    decreases |ds|
  {
    if ds != [] {
      PlainEval(ds[0].cond, quiet, env);
      PlainActive(ds[1..], quiet, env);
    }
  }

  lemma {:induction false} PlainRange(rs: seq<Range>, quiet: set<SymId>, env: Env)
    requires Hushed(env, quiet)
    requires forall i :: 0 <= i < |rs| ==> PlainOpt(rs[i].cond, quiet)
    ensures ActiveRange(rs, env, true) == ActiveRange(rs, env, false)
    decreases |rs|
  {
    if rs != [] {
      PlainEval(rs[0].cond, quiet, env);
      PlainRange(rs[1..], quiet, env);
    }
  }

  lemma PlainApplied(d: SymDef, quiet: set<SymId>, env: Env)
    requires PlainDef(d, quiet) && Hushed(env, quiet)
    ensures Applied(d, env, true) == Applied(d, env, false)
    ensures Applied(d, env, true).Some? ==>
      Applied(d, env, true).value.value != M && Applied(d, env, true).value.cond != M
  {
    PlainActive(d.defaults, quiet, env);
    var a := Active(d.defaults, env, true);
    if a.Some? {
      var i :| 0 <= i < |d.defaults| && d.defaults[i] == a.value;
      PlainEval(Some(a.value.val), quiet, env);
      PlainEval(a.value.cond, quiet, env);
    }
  }

  /** For such a definition MODULES makes no difference. */
  lemma PlainSee(num: Numerals, d: SymDef, quiet: set<SymId>, env: Env)
    requires PlainDef(d, quiet) && Hushed(env, quiet)
    ensures See(num, d, env, true) == See(num, d, env, false)
    ensures See(num, d, env, true).vis != M && See(num, d, env, true).rev != M
  {
    PlainVisibility(N, d.prompts, quiet, env);
    PlainApplied(d, quiet, env);
    PlainRange(d.ranges, quiet, env);
    PlainEval(Some(d.revDep), quiet, env);
  }

  lemma PlainNewValue(num: Numerals, d: SymDef, user: Option<string>, quiet: set<SymId>, env: Env)
    requires PlainDef(d, quiet) && Hushed(env, quiet) && d.special.None?
    requires user.Some? ==> Admits(num, d.ty, user.value)
    ensures NewValue(num, d, user, See(num, d, env, true), true)
         == NewValue(num, d, user, See(num, d, env, false), false)
  {
    PlainSee(num, d, quiet, env);
    PlainApplied(d, quiet, env);
  }

  lemma BoolIsNotM(num: Numerals, d: SymDef, user: Option<string>, seen: Seen, modules: bool)
    requires d.ty == Bool
    ensures NewValue(num, d, user, seen, modules) != "m"
  {
    assert Text(Y)[0] == 'y' && Text(N)[0] == 'n';
  }
}
