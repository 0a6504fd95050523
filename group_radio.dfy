/** `GroupRadioButton` and `GroupMetroRadioButton`: radio buttons that
    uncheck every other button of the same named group on the same form,
    wherever it sits. The two classes have the same code; `Radio` below is
    whichever of the two the handler runs in, and a button of the other
    class counts as `OtherControl`. The control tree is held as maps from
    control ids, with a depth and a height per control that bound the
    parent chain and the child lists. */
module GroupRadio {
  import opened Wrappers

  type ControlId = nat

  datatype Kind = FormControl | Radio | OtherControl

  /** The `Group` of a radio button is null or empty: the button is in no group. */
  predicate NoGroup(g: Option<string>) {
    g.None? || g.value == ""
  }

  /** `after` is `before` with every button of `radios` other than `self`
      whose group is `g` unchecked, when `check` (the changed button is
      checked); nothing else changes. */
  predicate Unchecks(before: map<ControlId, bool>, after: map<ControlId, bool>, group: map<ControlId, Option<string>>,
                     self: ControlId, radios: seq<ControlId>, g: Option<string>, check: bool)
  {
    && after.Keys == before.Keys
    && forall r :: r in after ==>
         after[r] == (before[r] && !(r != self && check && r in radios && r in group && group[r] == g))
  }

  /** After a checked button's change event, it is the only checked button
      of its group among `radios`, and no button was checked by it. */
  lemma UnchecksLeavesOne(before: map<ControlId, bool>, after: map<ControlId, bool>,
                          group: map<ControlId, Option<string>>, self: ControlId, radios: seq<ControlId>,
                          g: Option<string>)
    requires self in before && before[self]
    requires Unchecks(before, after, group, self, radios, g, true)
    ensures self in after && after[self]
    ensures forall r :: r in radios && r in after && r != self && r in group && group[r] == g ==> !after[r]
    ensures forall r :: r in after && after[r] ==> before[r]
  {
  }

  /** The change event of an unchecked button changes nothing. */
  lemma UnchecksNothingUnlessChecked(before: map<ControlId, bool>, after: map<ControlId, bool>,
                                     group: map<ControlId, Option<string>>, self: ControlId,
                                     radios: seq<ControlId>, g: Option<string>)
    requires Unchecks(before, after, group, self, radios, g, false)
    ensures after == before
  {
  }

  class ControlTree {
    var kind: map<ControlId, Kind>
    /** `Parent`; a control without an entry has a null parent. */
    var parent: map<ControlId, ControlId>
    /** `Controls`, in order. */
    var children: map<ControlId, seq<ControlId>>
    var checked: map<ControlId, bool>
    /** `Group` of each radio button. */
    var group: map<ControlId, Option<string>>
    /** Strictly less for a parent than for its child. */
    ghost var depth: map<ControlId, nat>
    /** Strictly more for a control than for any of its children. */
    ghost var height: map<ControlId, nat>

    /** The tree's shape: every map covers the same controls, parents are
        shallower and children lower. `checked` is not part of it. */
    ghost predicate Valid()
      reads this`kind, this`parent, this`children, this`group, this`depth, this`height
    {
      && kind.Keys == children.Keys == group.Keys == depth.Keys == height.Keys
      && (forall c :: c in parent ==> c in kind && parent[c] in kind && depth[parent[c]] < depth[c])
      && (forall p, i :: p in children && 0 <= i < |children[p]| ==>
            children[p][i] in kind && height[children[p][i]] < height[p])
    }

    /** The nearest ancestor of `c` that is a form, searching from `c` itself. */
    ghost function FormFrom(c: Option<ControlId>): (r: Option<ControlId>)
      requires Valid() && (c.Some? ==> c.value in kind)
      reads this`kind, this`parent, this`children, this`group, this`depth, this`height
      ensures r.Some? ==> r.value in kind && kind[r.value] == FormControl
      decreases if c.Some? then depth[c.value] + 1 else 0
    {
      if c.None? then None
      else if kind[c.value] == FormControl then c
      else FormFrom(if c.value in parent then Some(parent[c.value]) else None)
    }

    /** The form `self` sits on: the nearest form above it. */
    ghost function FormOf(self: ControlId): (r: Option<ControlId>)
      requires Valid() && self in kind
      reads this`kind, this`parent, this`children, this`group, this`depth, this`height
    {
      FormFrom(if self in parent then Some(parent[self]) else None)
    }

    /** `FindParentControl<Form>()`: climb the parent links from the button's
        parent until a form or null. */
    method FindParentForm(self: ControlId) returns (form: Option<ControlId>)
      requires Valid() && self in kind
      ensures form == FormOf(self)
    {
      form := if self in parent then Some(parent[self]) else None;
      while form.Some? && kind[form.value] != FormControl
        invariant form.Some? ==> form.value in kind
        invariant FormFrom(form) == FormOf(self)
        decreases if form.Some? then depth[form.value] + 1 else 0
      {
        form := if form.value in parent then Some(parent[form.value]) else None;
      }
    }

    /** What `FindAllControls` returns for a control: its radio children in
        order, each followed by what it returns for that child. Children
        that are not radio buttons are not looked into. */
    ghost function Collect(p: ControlId): seq<ControlId>
      requires Valid() && p in kind
      reads this`kind, this`parent, this`children, this`group, this`depth, this`height
      decreases height[p], |children[p]| + 1
    {
      CollectUpTo(p, |children[p]|)
    }

    /** The part of `Collect(p)` that comes from the first `i` children. */
    ghost function CollectUpTo(p: ControlId, i: nat): seq<ControlId>
      requires Valid() && p in kind && i <= |children[p]|
      reads this`kind, this`parent, this`children, this`group, this`depth, this`height
      decreases height[p], i
    {
      if i == 0 then []
      else
        var c := children[p][i - 1];
        CollectUpTo(p, i - 1) + (if kind[c] == Radio then [c] + Collect(c) else [])
    }

    /** Everything collected is a radio button of the tree. */
    lemma {:induction false} CollectOnlyRadios(p: ControlId)
      requires Valid() && p in kind
      ensures forall r :: r in Collect(p) ==> r in kind && kind[r] == Radio
      decreases height[p], |children[p]| + 1
    {
      CollectUpToOnlyRadios(p, |children[p]|);
    }

    lemma {:induction false} CollectUpToOnlyRadios(p: ControlId, i: nat)
      requires Valid() && p in kind && i <= |children[p]|
      ensures forall r :: r in CollectUpTo(p, i) ==> r in kind && kind[r] == Radio
      decreases height[p], i
    {
      if i > 0 {
        var c := children[p][i - 1];
        if kind[c] == Radio {
          CollectOnlyRadios(c);
        }
        CollectUpToOnlyRadios(p, i - 1);
      }
    }

    /** A radio button placed directly on a control is collected for it,
        and so is everything collected for it. */
    lemma DirectRadiosCollected(p: ControlId, j: nat)
      requires Valid() && p in kind && j < |children[p]| && kind[children[p][j]] == Radio
      ensures children[p][j] in Collect(p)
      ensures forall r :: r in Collect(children[p][j]) ==> r in Collect(p)
    {
      CollectUpToHas(p, |children[p]|, j);
    }

    lemma {:induction false} CollectUpToHas(p: ControlId, i: nat, j: nat)
      requires Valid() && p in kind && j < i <= |children[p]| && kind[children[p][j]] == Radio
      ensures children[p][j] in CollectUpTo(p, i)
      ensures forall r :: r in Collect(children[p][j]) ==> r in CollectUpTo(p, i)
      decreases i
    {
      if j < i - 1 {
        CollectUpToHas(p, i - 1, j);
      }
    }

    /** `FindAllControls<T>(p)`. */
    method FindAllControls(p: ControlId) returns (found: seq<ControlId>)
      requires Valid() && p in kind
      ensures found == Collect(p)
      decreases height[p]
    {
      found := [];
      var i := 0;
      while i < |children[p]|
        invariant 0 <= i <= |children[p]|
        invariant found == CollectUpTo(p, i)
      {
        var c := children[p][i];
        if kind[c] == Radio {
          found := found + [c];
          if |children[c]| != 0 {
            var sub := FindAllControls(c);
            found := found + sub;
          } else {
            assert Collect(c) == [];
          }
        }
        i := i + 1;
      }
    }

    /** The loop of `OnCheckedChanged` over the collected buttons: when the
        changed button is checked, each other button of its group that is
        checked is unchecked. */
    method UncheckOthers(self: ControlId, radios: seq<ControlId>, g: Option<string>, check: bool)
      requires forall r :: r in radios ==> r in group && r in checked
      modifies this`checked
      ensures Unchecks(old(checked), checked, group, self, radios, g, check)
    {
      var i := 0;
      while i < |radios|
        invariant 0 <= i <= |radios|
        invariant checked.Keys == old(checked).Keys
        invariant forall r :: r in checked ==>
                    checked[r] == (old(checked)[r] && !(r != self && check && r in radios[..i] && r in group && group[r] == g))
      {
        var grb := radios[i];
        if grb != self && check && group[grb] == g && checked[grb] {
          checked := checked[grb := false];
        }
        assert radios[..i + 1] == radios[..i] + [grb];
        i := i + 1;
      }
      assert radios[..i] == radios;
    }

    /** `OnCheckedChanged` of radio button `self`. A button without a group
        does nothing. Otherwise, when `self` is checked, every other
        collected radio button of the same group that is checked is
        unchecked; the change events those unchecks raise find their button
        unchecked and do nothing. A button on no form makes
        `FindAllControls(null)` throw: `thrown` is true and nothing changes. */
    method OnCheckedChanged(self: ControlId) returns (thrown: bool)
      requires Valid() && self in kind && kind[self] == Radio && checked.Keys == kind.Keys
      modifies this`checked
      ensures old(NoGroup(group[self])) ==> !thrown && checked == old(checked)
      ensures old(!NoGroup(group[self])) ==> (thrown <==> old(FormOf(self)).None?)
      ensures thrown ==> checked == old(checked)
      ensures old(!NoGroup(group[self])) && !thrown ==>
                Unchecks(old(checked), checked, old(group), self, old(Collect(FormOf(self).value)),
                         old(group[self]), old(checked[self]))
    {
      thrown := false;
      var g := group[self];
      if g.None? || g.value == "" {
        return;
      }
      var check := checked[self];
      var form := FindParentForm(self);
      if form.None? {
        return true;
      }
      var radios := FindAllControls(form.value);
      assert radios == old(Collect(FormOf(self).value));
      CollectOnlyRadios(form.value);
      UncheckOthers(self, radios, g, check);
    }
  }
}
