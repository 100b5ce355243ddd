/** Choices: which member is selected, and the values of the members. */
module KconfigChoice {
  import opened Wrappers
  import opened KconfigExpr
  import opened KconfigSymbols

  /** A choice with the visibilities and conditions evaluated. `members` are its actual
      symbols; a default names a symbol and the value of its condition. */
  datatype ChoiceDef = ChoiceDef(
    isBool: bool, optional: bool, vis: Tri, modules: bool,
    members: seq<SymId>, defaults: seq<(SymId, Tri)>, visOf: SymId -> Tri)

  function Mode(d: ChoiceDef, userMode: Option<Tri>): Tri {
    var wanted := if userMode.Some? then userMode.value else if d.optional then N else M;
    var mode := MinOf(wanted, d.vis, d.modules);
    if mode == M && d.isBool then Y else mode
  }

  /** The least mode the choice may have, and the one its user asks for. */
  function Asked(d: ChoiceDef, userMode: Option<Tri>): Tri {
    if userMode.Some? then userMode.value else if d.optional then N else M
  }

  /** The mode is the asked one where the visibility allows it, and the visibility where
      not: as high as asked and visible, never above either but for a bool choice, which is
      never in mode m. */
  lemma ModeIs(d: ChoiceDef, userMode: Option<Tri>)
    ensures var mode, asked, vis :=
        Mode(d, userMode), Promote(Asked(d, userMode), d.modules), Promote(d.vis, d.modules);
      && (mode == N <==> asked == N || vis == N)
      && (mode == M <==> asked != N && vis != N && (asked == M || vis == M) && !d.isBool)
      && (!d.isBool ==> Rank(mode) <= Rank(asked) && Rank(mode) <= Rank(vis) && (mode == asked || mode == vis))
    ensures !d.optional && userMode.None? && d.vis != N ==> Mode(d, userMode) != N
    ensures d.isBool || !d.modules ==> Mode(d, userMode) != M
  {
  }

  function FirstDefault(ds: seq<(SymId, Tri)>, otherwise: SymId): SymId {
    if ds == [] then otherwise
    else if ds[0].1 != N then ds[0].0
    else FirstDefault(ds[1..], otherwise)
  }

  /** The symbol the defaults choose, visible or not. */
  function Pick(d: ChoiceDef): SymId
    requires d.members != []
  {
    FirstDefault(d.defaults, d.members[0])
  }

  function FirstVisible(ms: seq<SymId>, visOf: SymId -> Tri): Option<SymId> {
    if ms == [] then None
    else if visOf(ms[0]) != N then Some(ms[0])
    else FirstVisible(ms[1..], visOf)
  }

  function FromDefaults(d: ChoiceDef): Option<SymId> {
    if d.members == [] then None
    else if d.visOf(Pick(d)) != N then Some(Pick(d))
    else FirstVisible(d.members, d.visOf)
  }

  predicate UserSelects(d: ChoiceDef, userVal: Option<SymId>) {
    userVal.Some? && d.visOf(userVal.value) == Y
  }

  function Selection(d: ChoiceDef, userVal: Option<SymId>, userMode: Option<Tri>): Option<SymId> {
    if Mode(d, userMode) != Y then None
    else if UserSelects(d, userVal) then userVal
    else if d.optional then None
    else FromDefaults(d)
  }

  /** get_value of a member, whose own user value is `own`. */
  function MemberValue(
    d: ChoiceDef, userVal: Option<SymId>, userMode: Option<Tri>, s: SymId, ty: SymType, own: Option<string>): Tri
  {
    var mode := Mode(d, userMode);
    var v :=
      if d.visOf(s) == N then N
      else if mode == Y then if Selection(d, userVal, userMode) == Some(s) then Y else N
      else if mode == M && (own == Some("m") || own == Some("y")) then M
      else N;
    if v == M && ty == Bool then Y else v
  }

  lemma {:induction false} FirstVisibleIs(ms: seq<SymId>, visOf: SymId -> Tri)
    ensures var r := FirstVisible(ms, visOf);
      && (r.Some? ==> r.value in ms && visOf(r.value) != N)
      && (r.None? ==> forall s :: s in ms ==> visOf(s) == N)
    decreases |ms|
  {
    if ms != [] {
      FirstVisibleIs(ms[1..], visOf);
      assert ms == [ms[0]] + ms[1..];
    }
  }

  /** The first default whose condition holds wins, and without one the first member. */
  lemma {:induction false} FirstDefaultIs(ds: seq<(SymId, Tri)>, otherwise: SymId, i: nat)
    requires i <= |ds| && forall j :: 0 <= j < i ==> ds[j].1 == N
    requires i < |ds| ==> ds[i].1 != N
    ensures FirstDefault(ds, otherwise) == if i < |ds| then ds[i].0 else otherwise
    decreases i
  {
    if i > 0 {
      FirstDefaultIs(ds[1..], otherwise, i - 1);
    }
  }

  lemma {:induction false} FirstVisibleAt(ms: seq<SymId>, visOf: SymId -> Tri, i: nat)
    requires i <= |ms| && forall j :: 0 <= j < i ==> visOf(ms[j]) == N
    requires i < |ms| ==> visOf(ms[i]) != N
    ensures FirstVisible(ms, visOf) == if i < |ms| then Some(ms[i]) else None
    decreases i
  {
    if i > 0 {
      FirstVisibleAt(ms[1..], visOf, i - 1);
    }
  }

  /** Who is selected in mode y: the user's choice while it can be y; else nobody, if the
      choice is optional; else the symbol of the k-th default, the first active one, or the
      first member if there is none, while it is visible; else the first visible member, the
      i-th, if there is one. */
  lemma SelectionIs(d: ChoiceDef, userVal: Option<SymId>, userMode: Option<Tri>, k: nat, i: nat)
    requires Mode(d, userMode) == Y && d.members != []
    requires k <= |d.defaults| && forall j :: 0 <= j < k ==> d.defaults[j].1 == N
    requires k < |d.defaults| ==> d.defaults[k].1 != N
    requires i <= |d.members| && forall j :: 0 <= j < i ==> d.visOf(d.members[j]) == N
    requires i < |d.members| ==> d.visOf(d.members[i]) != N
    ensures
      var r := Selection(d, userVal, userMode);
      var first := if k < |d.defaults| then d.defaults[k].0 else d.members[0];
      && (userVal.Some? && d.visOf(userVal.value) == Y ==> r == userVal)
      && (!(userVal.Some? && d.visOf(userVal.value) == Y) ==>
            && (d.optional ==> r == None)
            && (!d.optional && d.visOf(first) != N ==> r == Some(first))
            && (!d.optional && d.visOf(first) == N ==>
                  r == if i < |d.members| then Some(d.members[i]) else None))
  {
    FirstDefaultIs(d.defaults, d.members[0], k);
    FirstVisibleAt(d.members, d.visOf, i);
  }

  /** In mode m a visible member is m if the user asked for m or y, and n if not; in mode n,
      and while it is invisible, it is n. */
  lemma OutsideModeY(
    d: ChoiceDef, userVal: Option<SymId>, userMode: Option<Tri>, s: SymId, own: Option<string>)
    requires Mode(d, userMode) != Y || d.visOf(s) == N
    ensures MemberValue(d, userVal, userMode, s, Tristate, own) == M <==>
      Mode(d, userMode) == M && d.visOf(s) != N && (own == Some("m") || own == Some("y"))
    ensures MemberValue(d, userVal, userMode, s, Tristate, own) != Y
  {
  }

  /** Some member of a choice in mode y has value y. */
  ghost predicate SomeSelected(
    d: ChoiceDef, userVal: Option<SymId>, userMode: Option<Tri>, ty: SymType, own: SymId -> Option<string>)
  {
    exists s :: s in d.members && MemberValue(d, userVal, userMode, s, ty, own(s)) == Y
  }

  ghost predicate SomeVisible(d: ChoiceDef) {
    exists s :: s in d.members && d.visOf(s) != N
  }

  lemma AtMostOne(
    d: ChoiceDef, userVal: Option<SymId>, userMode: Option<Tri>, ty: SymType, own: SymId -> Option<string>,
    s: SymId, t: SymId)
    requires Mode(d, userMode) == Y
    requires MemberValue(d, userVal, userMode, s, ty, own(s)) == Y
    requires MemberValue(d, userVal, userMode, t, ty, own(t)) == Y
    ensures s == t && Selection(d, userVal, userMode) == Some(s)
  {
    assert Selection(d, userVal, userMode) == Some(s) == Some(t);
  }

  /** In mode y some member is selected exactly when the user's choice is visible, or the
      choice is not optional, some member is visible, and the defaults do not choose a
      visible symbol from outside the choice. */
  lemma ExactlyWhenSelected(
    d: ChoiceDef, userVal: Option<SymId>, userMode: Option<Tri>, ty: SymType, own: SymId -> Option<string>)
    requires Mode(d, userMode) == Y && (userVal.Some? ==> userVal.value in d.members)
    ensures SomeSelected(d, userVal, userMode, ty, own) <==>
      || UserSelects(d, userVal)
      || (!d.optional && SomeVisible(d) && (Pick(d) in d.members || d.visOf(Pick(d)) == N))
  {
    FirstVisibleIs(d.members, d.visOf);
    var sel := Selection(d, userVal, userMode);
    if sel.Some? && sel.value in d.members {
      assert MemberValue(d, userVal, userMode, sel.value, ty, own(sel.value)) == Y;
    }
  }

  /** Assigning y to a member that can be y selects it and turns the other members off. */
  lemma AssignedYSelects(
    d: ChoiceDef, ty: SymType, own: SymId -> Option<string>, s: SymId, t: SymId)
    requires d.vis == Y && d.visOf(s) == Y
    ensures MemberValue(d, Some(s), Some(Y), t, ty, own(t)) == if t == s then Y else N
  {
  }

  /** The fields of a choice that change after the Kconfig files have been read. */
  class Choice {
    const d: ChoiceDef
    var userVal: Option<SymId>
    var userMode: Option<Tri>
    /** Some(None) is the source's NO_SELECTION. */
    var cachedSelection: Option<Option<SymId>>

    ghost predicate Valid()
      reads this
    {
      && (userVal.Some? ==> userVal.value in d.members)
      && (cachedSelection.Some? ==> cachedSelection.value == Selection(d, userVal, userMode))
    }

    constructor (d: ChoiceDef)
      ensures Valid() && this.d == d && userVal == None && userMode == None
    {
      this.d, userVal, userMode, cachedSelection := d, None, None, None;
    }

    method GetMode() returns (mode: Tri)
      ensures mode == Mode(d, userMode)
    {
      var minimumMode := if d.optional then N else M;
      mode := if userMode.Some? then userMode.value else minimumMode;
      mode := MinOf(mode, d.vis, d.modules);
      if mode == M && d.isBool { mode := Y; }
    }

    method FindDefault() returns (chosen: SymId)
      requires d.members != []
      ensures chosen == Pick(d)
    {
      for i := 0 to |d.defaults|
        invariant FirstDefault(d.defaults[i..], d.members[0]) == Pick(d)
      {
        assert d.defaults[i..][0] == d.defaults[i] && d.defaults[i..][1..] == d.defaults[i + 1..];
        if d.defaults[i].1 != N { return d.defaults[i].0; }
      }
      chosen := d.members[0];
    }

    method GetSelectionFromDefaults() returns (r: Option<SymId>)
      ensures r == FromDefaults(d)
    {
      if d.members == [] { return None; }
      var chosen := FindDefault();
      if d.visOf(chosen) != N { return Some(chosen); }
      for i := 0 to |d.members|
        invariant FirstVisible(d.members[i..], d.visOf) == FirstVisible(d.members, d.visOf)
      {
        assert d.members[i..][0] == d.members[i] && d.members[i..][1..] == d.members[i + 1..];
        if d.visOf(d.members[i]) != N { return Some(d.members[i]); }
      }
      r := None;
    }

    method GetSelection() returns (r: Option<SymId>)
      requires Valid()
      modifies this`cachedSelection
      ensures Valid() && r == Selection(d, userVal, userMode)
    {
      if cachedSelection.Some? { return cachedSelection.value; }
      var mode := GetMode();
      if mode != Y {
        r := None;
      } else if userVal.Some? && d.visOf(userVal.value) == Y {
        r := userVal;
      } else if d.optional {
        r := None;
      } else {
        r := GetSelectionFromDefaults();
      }
      cachedSelection := Some(r);
    }

    /** What a user value v for member s does to the choice; the member's invalidation
        clears the cached selection. */
    method MemberAssigned(s: SymId, v: string)
      requires Valid() && s in d.members
      modifies this
      ensures Valid()
      ensures userVal == if v == "y" then Some(s) else if v == "m" then None else old(userVal)
      ensures userMode == if v == "y" then Some(Y) else if v == "m" then Some(M) else old(userMode)
    {
      if v == "y" {
        userVal, userMode := Some(s), Some(Y);
      } else if v == "m" {
        userVal, userMode := None, Some(M);
      }
      cachedSelection := None;
    }

    /** unset_user_value of a member. */
    method MemberUnset()
      modifies this
      ensures Valid() && userVal == None && userMode == None
    {
      cachedSelection := None;
      userVal, userMode := None, None;
    }
  }
}
