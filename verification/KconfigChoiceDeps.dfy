/** When the caches of a choice stay right: what a choice reads, and when _invalidate of a
    member reaches it. */
module KconfigChoiceDeps {
  import opened Wrappers
  import opened KconfigExpr
  import opened KconfigSymbols
  import opened KconfigChoice

  /** A choice as the Kconfig files give it; a default names a symbol and its condition. */
  datatype ChoiceProps = ChoiceProps(
    ty: SymType, optional: bool, prompts: seq<Option<Expr>>,
    defaults: seq<(SymId, Option<Expr>)>, members: seq<SymId>)

  type Defs = SymId -> SymDef

  function ChoiceVisibility(p: ChoiceProps, env: Env, modules: bool): Tri {
    var vis := VisibilityFrom(N, p.prompts, env, modules);
    if vis == M && p.ty != Tristate then Y else vis
  }

  /** _get_visibility of a symbol: a member is no more visible than its choice. */
  function SymbolVisibility(p: ChoiceProps, defs: Defs, s: SymId, env: Env, modules: bool): Tri {
    var own := VisibilityFrom(N, defs(s).prompts, env, modules);
    var vis := if s in p.members then MinOf(own, ChoiceVisibility(p, env, modules), modules) else own;
    if vis == M && defs(s).ty != Tristate then Y else vis
  }

  /** A member is visible exactly if a prompt of its own is and its choice is, and a tristate
      no more than either. */
  lemma MemberVisibilityIs(p: ChoiceProps, defs: Defs, s: SymId, env: Env, modules: bool)
    requires s in p.members
    ensures
      var vis, choice := SymbolVisibility(p, defs, s, env, modules), ChoiceVisibility(p, env, modules);
      var own := VisibilityFrom(N, defs(s).prompts, env, modules);
      && (vis == N <==> own == N || choice == N)
      && (defs(s).ty == Tristate ==>
            && Rank(vis) <= Rank(Promote(own, modules)) && Rank(vis) <= Rank(Promote(choice, modules))
            && (vis == Promote(own, modules) || vis == Promote(choice, modules)))
      && (defs(s).ty != Tristate ==> vis != M)
  {
  }

  function Evaluated(p: ChoiceProps, defs: Defs, env: Env, modules: bool): ChoiceDef {
    ChoiceDef(
      p.ty == Bool, p.optional, ChoiceVisibility(p, env, modules), modules, p.members,
      seq(|p.defaults|, i requires 0 <= i < |p.defaults| =>
        (p.defaults[i].0, Eval(p.defaults[i].1, env, modules))),
      (s: SymId) => SymbolVisibility(p, defs, s, env, modules))
  }

  /** _build_dep puts member t into the dep set of u. */
  predicate MemberReads(p: ChoiceProps, defs: Defs, t: SymId, u: SymId) {
    || ReadsSym(defs(t), u)
    || (exists i :: 0 <= i < |p.prompts| && u in OptSyms(p.prompts[i]))
    || (exists i :: 0 <= i < |p.defaults| && u in OptSyms(p.defaults[i].1))
  }

  /** A member is among the direct dependents of a changed symbol: the invalidation of that
      member clears the caches of the choice. */
  ghost predicate Reached(p: ChoiceProps, defs: Defs, changed: set<SymId>) {
    exists t, u :: t in p.members && u in changed && MemberReads(p, defs, t, u)
  }

  ghost predicate Same(env: Env, env': Env, changed: set<SymId>) {
    forall u :: u !in changed ==> env(u) == env'(u)
  }

  predicate DefaultsNameMembers(p: ChoiceProps) {
    forall i :: 0 <= i < |p.defaults| ==> p.defaults[i].0 in p.members
  }

  lemma ChoiceVisibilityKept(
    p: ChoiceProps, defs: Defs, env: Env, env': Env, modules: bool, changed: set<SymId>)
    requires Same(env, env', changed) && !Reached(p, defs, changed) && p.members != []
    ensures ChoiceVisibility(p, env, modules) == ChoiceVisibility(p, env', modules)
  {
    forall i, u | 0 <= i < |p.prompts| && u in OptSyms(p.prompts[i])
      ensures env(u) == env'(u)
    {
      assert MemberReads(p, defs, p.members[0], u);
    }
    VisibilityAgrees(N, p.prompts, env, env', modules);
  }

  lemma MemberVisibilityKept(
    p: ChoiceProps, defs: Defs, env: Env, env': Env, modules: bool, changed: set<SymId>, t: SymId)
    requires Same(env, env', changed) && !Reached(p, defs, changed) && t in p.members
    ensures SymbolVisibility(p, defs, t, env, modules) == SymbolVisibility(p, defs, t, env', modules)
  {
    var ps := defs(t).prompts;
    forall i, u | 0 <= i < |ps| && u in OptSyms(ps[i])
      ensures env(u) == env'(u)
    {
      assert ReadsSym(defs(t), u);
      assert MemberReads(p, defs, t, u);
    }
    VisibilityAgrees(N, ps, env, env', modules);
    ChoiceVisibilityKept(p, defs, env, env', modules, changed);
  }

  lemma ConditionKept(
    p: ChoiceProps, defs: Defs, env: Env, env': Env, modules: bool, changed: set<SymId>, i: nat)
    requires Same(env, env', changed) && !Reached(p, defs, changed) && p.members != [] && i < |p.defaults|
    ensures Eval(p.defaults[i].1, env, modules) == Eval(p.defaults[i].1, env', modules)
  {
    forall u | u in OptSyms(p.defaults[i].1)
      ensures env(u) == env'(u)
    {
      assert MemberReads(p, defs, p.members[0], u);
    }
    OptAgrees(p.defaults[i].1, env, env', modules);
  }

  // ----- what the selection depends on -----

  lemma {:induction false} FirstDefaultIn(ds: seq<(SymId, Tri)>, otherwise: SymId)
    ensures var r := FirstDefault(ds, otherwise);
      r == otherwise || exists i :: 0 <= i < |ds| && r == ds[i].0
    decreases |ds|
  {
    if ds != [] && ds[0].1 == N {
      FirstDefaultIn(ds[1..], otherwise);
    }
  }

  lemma {:induction false} FirstVisibleAgrees(ms: seq<SymId>, f: SymId -> Tri, g: SymId -> Tri)
    requires forall s :: s in ms ==> f(s) == g(s)
    ensures FirstVisible(ms, f) == FirstVisible(ms, g)
    decreases |ms|
  {
    if ms != [] {
      FirstVisibleAgrees(ms[1..], f, g);
    }
  }

  /** The selection does not depend on the symbol the defaults choose, that symbol is a
      member, or it is visible exactly if it was. */
  predicate PickKept(d: ChoiceDef, d': ChoiceDef, userVal: Option<SymId>, userMode: Option<Tri>)
  {
    || d.members == [] || Mode(d, userMode) != Y || UserSelects(d, userVal) || d.optional
    || Pick(d) in d.members
    || (d.visOf(Pick(d)) == N <==> d'.visOf(Pick(d)) == N)
  }

  /** The selection sees the visibilities of the members and of the symbol the defaults
      choose: while the members keep theirs, it changes exactly when it goes to a symbol
      outside the choice or comes from one. */
  lemma SelectionKeptIff(d: ChoiceDef, d': ChoiceDef, userVal: Option<SymId>, userMode: Option<Tri>)
    requires d' == d.(visOf := d'.visOf)
    requires forall s :: s in d.members ==> d.visOf(s) == d'.visOf(s)
    requires userVal.Some? ==> userVal.value in d.members
    ensures Selection(d, userVal, userMode) == Selection(d', userVal, userMode) <==> PickKept(d, d', userVal, userMode)
  {
    FirstVisibleAgrees(d.members, d.visOf, d'.visOf);
    FirstVisibleIs(d.members, d.visOf);
  }

  // ----- the caches of a choice -----

  /** cached_visibility and cached_selection; Some(None) is the source's NO_SELECTION. */
  datatype ChoiceCache = ChoiceCache(visibility: Option<Tri>, selection: Option<Option<SymId>>)

  predicate ChoiceRight(
    p: ChoiceProps, defs: Defs, env: Env, modules: bool,
    userVal: Option<SymId>, userMode: Option<Tri>, x: ChoiceCache)
  {
    && (x.visibility.Some? ==> x.visibility.value == ChoiceVisibility(p, env, modules))
    && (x.selection.Some? ==> x.selection.value == Selection(Evaluated(p, defs, env, modules), userVal, userMode))
  }

  /** What the invalidation of the dependents of `changed` leaves in the caches. */
  ghost function Invalidated(p: ChoiceProps, defs: Defs, changed: set<SymId>, before: ChoiceCache): ChoiceCache {
    if Reached(p, defs, changed) then ChoiceCache(None, None) else before
  }

  /** What a choice with members depends on stays, if no member is a dependent of a changed
      symbol: all but the visibilities of symbols outside the choice. */
  lemma EvaluatedKept(
    p: ChoiceProps, defs: Defs, env: Env, env': Env, modules: bool, changed: set<SymId>)
    requires Same(env, env', changed) && !Reached(p, defs, changed) && p.members != []
    ensures var d, d' := Evaluated(p, defs, env, modules), Evaluated(p, defs, env', modules);
      d' == d.(visOf := d'.visOf) && forall t :: t in p.members ==> d.visOf(t) == d'.visOf(t)
  {
    ChoiceVisibilityKept(p, defs, env, env', modules, changed);
    var d, d' := Evaluated(p, defs, env, modules), Evaluated(p, defs, env', modules);
    forall t | t in p.members
      ensures d.visOf(t) == d'.visOf(t)
    {
      MemberVisibilityKept(p, defs, env, env', modules, changed, t);
    }
    forall i | 0 <= i < |p.defaults|
      ensures d.defaults[i] == d'.defaults[i]
    {
      ConditionKept(p, defs, env, env', modules, changed, i);
    }
    assert d.defaults == d'.defaults;
  }

  /** Invalidating the dependents of what changed leaves the caches of a choice right
      exactly when it reaches the choice, or what is cached does not change: without members
      only the visibility can, and with members only a selection outside the choice. */
  lemma ChoiceRightIff(
    p: ChoiceProps, defs: Defs, env: Env, env': Env, modules: bool, changed: set<SymId>,
    userVal: Option<SymId>, userMode: Option<Tri>, before: ChoiceCache)
    requires Same(env, env', changed) && (userVal.Some? ==> userVal.value in p.members)
    requires ChoiceRight(p, defs, env, modules, userVal, userMode, before)
    ensures
      var d, d' := Evaluated(p, defs, env, modules), Evaluated(p, defs, env', modules);
      ChoiceRight(p, defs, env', modules, userVal, userMode, Invalidated(p, defs, changed, before)) <==>
        || Reached(p, defs, changed)
        || if p.members == [] then before.visibility.Some? ==> d.vis == d'.vis
           else before.selection.Some? ==> PickKept(d, d', userVal, userMode)
  {
    if !Reached(p, defs, changed) && p.members != [] {
      EvaluatedKept(p, defs, env, env', modules, changed);
      SelectionKeptIff(Evaluated(p, defs, env, modules), Evaluated(p, defs, env', modules), userVal, userMode);
    }
  }

  /** The caches of a choice whose defaults name members, and that has one, stay right
      whatever changes. */
  lemma ChoiceCachesKept(
    p: ChoiceProps, defs: Defs, env: Env, env': Env, modules: bool, changed: set<SymId>,
    userVal: Option<SymId>, userMode: Option<Tri>, before: ChoiceCache)
    requires Same(env, env', changed) && (userVal.Some? ==> userVal.value in p.members)
    requires ChoiceRight(p, defs, env, modules, userVal, userMode, before)
    requires p.members != [] && DefaultsNameMembers(p)
    ensures ChoiceRight(p, defs, env', modules, userVal, userMode, Invalidated(p, defs, changed, before))
  {
    FirstDefaultIn(Evaluated(p, defs, env, modules).defaults, p.members[0]);
    ChoiceRightIff(p, defs, env, env', modules, changed, userVal, userMode, before);
  }

  // ----- the caches of its members -----

  /** With the selection, only the value of the first visible member changes. */
  lemma MemberValueKeptIff(
    d: ChoiceDef, d': ChoiceDef, userVal: Option<SymId>, userMode: Option<Tri>, t: SymId, ty: SymType,
    own: Option<string>)
    requires d' == d.(visOf := d'.visOf) && t in d.members
    requires forall s :: s in d.members ==> d.visOf(s) == d'.visOf(s)
    requires userVal.Some? ==> userVal.value in d.members
    ensures MemberValue(d, userVal, userMode, t, ty, own) == MemberValue(d', userVal, userMode, t, ty, own) <==>
      PickKept(d, d', userVal, userMode) || FirstVisible(d.members, d.visOf) != Some(t)
  {
    SelectionKeptIff(d, d', userVal, userMode);
    FirstVisibleAgrees(d.members, d.visOf, d'.visOf);
    FirstVisibleIs(d.members, d.visOf);
  }

  /** cached_val and cached_visibility of a member. */
  datatype MemberCache = MemberCache(value: Option<Tri>, visibility: Option<Tri>)

  predicate MemberRight(
    p: ChoiceProps, defs: Defs, env: Env, modules: bool, userVal: Option<SymId>, userMode: Option<Tri>,
    t: SymId, own: Option<string>, x: MemberCache)
  {
    var d := Evaluated(p, defs, env, modules);
    && (x.value.Some? ==> x.value.value == MemberValue(d, userVal, userMode, t, defs(t).ty, own))
    && (x.visibility.Some? ==> x.visibility.value == d.visOf(t))
  }

  /** A member is a dependent of whatever its siblings depend on, so it is cleared with
      them. */
  ghost function MemberInvalidated(
    p: ChoiceProps, defs: Defs, changed: set<SymId>, before: MemberCache): MemberCache
  {
    if Reached(p, defs, changed) then MemberCache(None, None) else before
  }

  /** The caches of a member stay right exactly when the choice is reached or nothing is
      cached as its value, or unless it is the first visible member and loses the selection
      to a symbol outside the choice or wins it from one. */
  lemma MemberRightIff(
    p: ChoiceProps, defs: Defs, env: Env, env': Env, modules: bool, changed: set<SymId>,
    userVal: Option<SymId>, userMode: Option<Tri>, t: SymId, own: Option<string>, before: MemberCache)
    requires Same(env, env', changed) && (userVal.Some? ==> userVal.value in p.members) && t in p.members
    requires MemberRight(p, defs, env, modules, userVal, userMode, t, own, before)
    ensures
      var d, d' := Evaluated(p, defs, env, modules), Evaluated(p, defs, env', modules);
      var after := MemberInvalidated(p, defs, changed, before);
      MemberRight(p, defs, env', modules, userVal, userMode, t, own, after) <==>
        || Reached(p, defs, changed) || before.value.None?
        || PickKept(d, d', userVal, userMode) || FirstVisible(d.members, d.visOf) != Some(t)
  {
    if !Reached(p, defs, changed) {
      EvaluatedKept(p, defs, env, env', modules, changed);
      var d, d' := Evaluated(p, defs, env, modules), Evaluated(p, defs, env', modules);
      MemberValueKeptIff(d, d', userVal, userMode, t, defs(t).ty, own);
    }
  }

  // ----- where it fails -----

  const PLAIN_BOOL := SymDef("", Bool, None, true, [None], [], [], CONST_N)
  const IF_ZERO: Option<Expr> := Some(At(Sym(0)))

  /** Symbol 0 is y or n, and every other symbol is n. */
  function Switch(on: bool): Env {
    (u: SymId) => if u == 0 && on then SymVal(true, "y") else SymVal(true, "n")
  }

  lemma PromptIfZero(on: bool)
    ensures VisibilityFrom(N, [IF_ZERO], Switch(on), true) == if on then Y else N
    ensures VisibilityFrom(N, [None], Switch(on), true) == Y
  {
    var env := Switch(on);
    assert "n"[0] != "y"[0] && "n"[0] != "m"[0];
    assert EvalRec(At(Sym(0)), env) == if on then Y else N;
    var always: seq<Option<Expr>> := [None];
    assert [IF_ZERO][1..] == [] && always[1..] == [];
    assert VisibilityFrom(N, [IF_ZERO], env, true) == VisibilityFrom(if on then Y else N, [], env, true);
    assert VisibilityFrom(N, [None], env, true) == VisibilityFrom(Y, [], env, true);
  }

  /** The one default names symbol 2, which is no member and has the prompt `if 0`. */
  const WITH_OUTSIDER := ChoiceProps(Bool, false, [None], [(2, None)], [1])

  function OutsiderDefs(): Defs {
    (s: SymId) => if s == 2 then PLAIN_BOOL.(prompts := [IF_ZERO]) else PLAIN_BOOL
  }

  /** Symbol 0 goes from y to n: symbol 2 stays cached as the selection, which now is the
      member. */
  lemma OutsiderGoesStale()
    ensures
      var p, defs, was := WITH_OUTSIDER, OutsiderDefs(), ChoiceCache(Some(Y), Some(Some(2)));
      && Same(Switch(true), Switch(false), {0})
      && ChoiceRight(p, defs, Switch(true), true, None, None, was)
      && Invalidated(p, defs, {0}, was) == was
      && Selection(Evaluated(p, defs, Switch(false), true), None, None) == Some(1)
      && !ChoiceRight(p, defs, Switch(false), true, None, None, was)
  {
    var p, defs := WITH_OUTSIDER, OutsiderDefs();
    assert Syms(CONST_N) == {} && OptSyms(None) == {};
    assert forall u :: !ReadsSym(PLAIN_BOOL, u);
    PromptIfZero(true);
    PromptIfZero(false);
    assert defs(2).prompts == [IF_ZERO] && defs(1).prompts == [None];
  }

  const WITHOUT_MEMBERS := ChoiceProps(Bool, false, [IF_ZERO], [], [])

  /** Nothing ever reaches a choice without members: symbol 0 goes from y to n, and y stays
      cached as its visibility, which now is n. */
  lemma MemberlessGoesStale(defs: Defs)
    ensures forall changed :: !Reached(WITHOUT_MEMBERS, defs, changed)
    ensures
      var p, was := WITHOUT_MEMBERS, ChoiceCache(Some(Y), Some(None));
      && ChoiceRight(p, defs, Switch(true), true, None, None, was)
      && Invalidated(p, defs, {0}, was) == was
      && ChoiceVisibility(p, Switch(false), true) == N
      && !ChoiceRight(p, defs, Switch(false), true, None, None, was)
  {
    PromptIfZero(true);
    PromptIfZero(false);
  }
}
