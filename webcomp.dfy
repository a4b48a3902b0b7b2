/**
 * The older form of the element, `webcomp.js`, stated on the same state as
 * the current one. It differs in four ways: a selection is not written back
 * to the host's options, so of several selected and enabled options the LAST
 * one traversed wins; every optgroup is rendered, however few of its options
 * are mirrored; added child nodes are mirrored incrementally, after the
 * entries already listed; and a missing value is always reported with the
 * message `'value is empty'`.
 */
module Legacy {
  import opened Wrappers
  import opened Text
  import opened Seqs
  import opened Views
  import opened Markup
  import opened Mirroring
  import opened Searching
  import NiceSelect

  /** The message reported while no value is selected. */
  const LegacyMessage := "value is empty"

  /**
   * `selectCurrrentOption` of the older form, the entry `id` being current and
   * enabled: it is the selection of the current form, except that the host's
   * options are left as they are.
   */
  function LegacyChosen(m: Mirror, id: nat): Mirror
    requires id < |m.store|
  {
    var e := m.store[id];
    m.(store := ClearSelected(m.store, m.all)[id := e.(selected := true)],
       current := Some(id),
       formValue := FormValueOf(e.value),
       validity := ValidityOf(e.value, LegacyMessage),
       presentation := LabelOf(e.text),
       changes := m.changes + 1)
  }

  /**
   * The steps of the older `selectCurrrentOption` on the state `m` whose
   * current entry is the enabled entry `id`, one after another.
   */
  method LegacyChooseBy(m: Mirror, id: nat) returns (r: Mirror)
    requires id < |m.store| && m.current == Some(id) && forall x :: x in m.all ==> x < |m.store|
    ensures r == LegacyChosen(m, id)
  {
    var entries := NiceSelect.RemoveSelected(m.store, m.all);
    var e := entries[id];
    assert e.(selected := true) == m.store[id].(selected := true);
    assert e.value == m.store[id].value && e.text == m.store[id].text;
    r := m.(formValue := FormValueOf(e.value), validity := ValidityOf(e.value, LegacyMessage));
    r := r.(store := entries[id := e.(selected := true)], presentation := LabelOf(e.text), changes := m.changes + 1);
  }

  /** The selection of the older form is that of the current form, the host's options left as they are. */
  lemma LegacyChosenIsChosen(m: Mirror, id: nat)
    requires id < |m.store|
    ensures LegacyChosen(m, id) == Chosen(m, id, LegacyMessage).(light := m.light)
  {
  }

  /** The invariant of the element does not look at the host's options. */
  lemma ConsistentIgnoresLight(m: Mirror, light: seq<SourceOption>, msg: string)
    ensures Consistent(m.(light := light), msg) == Consistent(m, msg)
  {
  }

  /** A selection keeps the state consistent and leaves only the chosen entry selected among the listed ones. */
  lemma LegacyChosenConsistent(m: Mirror, id: nat)
    requires Consistent(m, LegacyMessage) && id < |m.store|
    ensures Consistent(LegacyChosen(m, id), LegacyMessage)
    ensures forall x :: x in m.all ==> (LegacyChosen(m, id).store[x].selected <==> x == id)
  {
    LegacyChosenIsChosen(m, id);
    ChosenConsistent(m, id, LegacyMessage);
    ConsistentIgnoresLight(Chosen(m, id, LegacyMessage), m.light, LegacyMessage);
  }

  /**
   * `addValidNodeToOptions` of the older form on the host option `k`, whose
   * text is not blank: what the current form does, the host's options left
   * as they are.
   */
  function LegacyAddOption(m: Mirror, k: nat, parent: Option<nat>): Mirror
    requires k < |m.light|
  {
    var s, id := m.light[k], |m.store|;
    var pick := s.selected && !s.disabled;
    var m1 := m.(store := m.store + [RawClone(s, pick)]);
    var m2 := if pick then LegacyChosen(m1, id) else m1;
    var e := m2.store[id];
    m2.(store := m2.store[id := Defaulted(e)],
        all := m2.all + [id],
        visible := m2.visible + (if !e.hidden then [id] else []),
        available := m2.available + (if !e.hidden && !e.disabled then [id] else []),
        groups := Attach(m2.groups, parent, [id]))
  }

  /** Mirroring an option in the older form is what the current form does, the host's options left as they are. */
  lemma LegacyAddOptionIsAddOption(m: Mirror, k: nat, parent: Option<nat>)
    requires k < |m.light|
    ensures LegacyAddOption(m, k, parent) == AddOption(m, k, parent, LegacyMessage).(light := m.light)
  {
    var s, id := m.light[k], |m.store|;
    var m1 := m.(store := m.store + [RawClone(s, s.selected && !s.disabled)]);
    if s.selected && !s.disabled {
      LegacyChosenIsChosen(m1, id);
    }
  }

  /**
   * `addValidNodeToOptions(node, parent)` of the older form: an option is
   * mirrored when its text is not blank; an optgroup is always rendered, at
   * the end of the option list, and its children are visited with it as their
   * parent; anything else is ignored.
   */
  function LegacyVisitNode(m: Mirror, node: Node, parent: Option<nat>): Mirror
    decreases node
  {
    match node
    case Opt(k) => if k < |m.light| && !IsBlank(m.light[k].text) then LegacyAddOption(m, k, parent) else m
    case Group(c, cs) => LegacyVisit(m.(groups := m.groups + [RenderGroup(c, [], false)]), cs, Some(|m.groups|))
    case Other(_) => m
  }

  /** `addValidNodeToOptions` of the older form on each of `nodes` in turn, all with the same parent. */
  function LegacyVisit(m: Mirror, nodes: seq<Node>, parent: Option<nat>): Mirror
    decreases nodes
  {
    if nodes == [] then m
    else LegacyVisitNode(LegacyVisit(m, nodes[..|nodes| - 1], parent), nodes[|nodes| - 1], parent)
  }

  /** How many of the options `ks` are selected and enabled, each being selected in turn. */
  function PickCount(light: seq<SourceOption>, ks: seq<nat>): nat
  {
    if ks == [] then 0 else PickCount(light, ks[..|ks| - 1]) + (if Picks(light, ks[|ks| - 1]) then 1 else 0)
  }

  lemma {:induction false} PickCountConcat(light: seq<SourceOption>, x: seq<nat>, y: seq<nat>)
    ensures PickCount(light, x + y) == PickCount(light, x) + PickCount(light, y)
    decreases |y|
  {
    if y == [] {
      assert x + y == x;
    } else {
      assert (x + y)[..|x + y| - 1] == x + y[..|y| - 1];
      PickCountConcat(light, x, y[..|y| - 1]);
    }
  }

  /** Where the last pick in `x + y` is. */
  lemma {:induction false} LastPickConcat(light: seq<SourceOption>, x: seq<nat>, y: seq<nat>)
    ensures LastPick(light, x + y) ==
      if LastPick(light, y).Some? then Some(|x| + LastPick(light, y).value) else LastPick(light, x)
    decreases |y|
  {
    if y == [] {
      assert x + y == x;
    } else {
      var init := y[..|y| - 1];
      assert (x + y)[..|x + y| - 1] == x + init;
      LastPickConcat(light, x, init);
    }
  }

  /** Clones of `a + b`, with the pick at `p`, are those of `a` followed by those of `b`. */
  lemma ClonesConcat(light: seq<SourceOption>, a: seq<nat>, b: seq<nat>, p: Option<nat>)
    requires forall i :: 0 <= i < |a| ==> a[i] < |light|
    requires forall i :: 0 <= i < |b| ==> b[i] < |light|
    ensures forall i :: 0 <= i < |a + b| ==> (a + b)[i] < |light|
    ensures Clones(light, a + b, p) ==
      Clones(light, a, p) + Clones(light, b, if p.Some? && p.value >= |a| then Some(p.value - |a|) else None)
  {
    var q := if p.Some? && p.value >= |a| then Some(p.value - |a|) else None;
    forall i | 0 <= i < |a + b| ensures (a + b)[i] < |light| {
      if i >= |a| {
        assert (a + b)[i] == b[i - |a|];
      }
    }
    var l, r := Clones(light, a + b, p), Clones(light, a, p) + Clones(light, b, q);
    forall i | 0 <= i < |l| ensures l[i] == r[i] {
      if i >= |a| {
        assert (a + b)[i] == b[i - |a|];
      }
    }
  }

  /**
   * Clearing the selected flags of the listed entries after clones of `ks`
   * have been appended and listed gives the cleared store followed by the
   * clones with none selected.
   */
  lemma ClearClones(store: seq<Entry>, all: seq<nat>, light: seq<SourceOption>, ks: seq<nat>, p: Option<nat>, cleared: bool)
    requires forall id :: id in all ==> id < |store|
    requires forall i :: 0 <= i < |ks| ==> ks[i] < |light|
    ensures ClearSelected((if cleared then ClearSelected(store, all) else store) + Clones(light, ks, p), all + Ids(|store|, |ks|))
      == ClearSelected(store, all) + Clones(light, ks, None)
  {
    var base := if cleared then ClearSelected(store, all) else store;
    IdsIncreasing(|store|, |ks|);
    ClearSplit(base, Clones(light, ks, p), all, Ids(|store|, |ks|));
    ClearTwice(store, all, cleared);
    UnselectedClones(light, ks, p);
  }

  /** The entries of `s`, each without its selected flag. */
  function Unselected(s: seq<Entry>): seq<Entry>
  {
    seq(|s|, i requires 0 <= i < |s| => s[i].(selected := false))
  }

  /** Clearing the flags of listed entries and of every appended one clears each part on its own. */
  lemma ClearSplit(base: seq<Entry>, tail: seq<Entry>, a: seq<nat>, b: seq<nat>)
    requires forall id :: id in a ==> id < |base|
    requires forall id :: id in b <==> |base| <= id < |base| + |tail|
    ensures ClearSelected(base + tail, a + b) == ClearSelected(base, a) + Unselected(tail)
  {
    var l, r := ClearSelected(base + tail, a + b), ClearSelected(base, a) + Unselected(tail);
    forall id | 0 <= id < |l| ensures l[id] == r[id] {
      if id < |base| {
        assert id in a + b <==> id in a;
      } else {
        assert id in a + b;
      }
    }
  }

  /** Clearing the listed entries' flags a second time changes nothing. */
  lemma ClearTwice(store: seq<Entry>, all: seq<nat>, cleared: bool)
    ensures ClearSelected(if cleared then ClearSelected(store, all) else store, all) == ClearSelected(store, all)
  {
  }

  /** Clones without their selected flags are the clones with none selected. */
  lemma UnselectedClones(light: seq<SourceOption>, ks: seq<nat>, p: Option<nat>)
    requires forall i :: 0 <= i < |ks| ==> ks[i] < |light|
    ensures Unselected(Clones(light, ks, p)) == Clones(light, ks, None)
  {
    var l, r := Unselected(Clones(light, ks, p)), Clones(light, ks, None);
    forall i | 0 <= i < |ks| ensures l[i] == r[i] {
      CloneCleared(light[ks[i]], p.Some? && p.value == i);
    }
  }

  /** A clone that loses its selected flag is the clone made unselected. */
  lemma CloneCleared(s: SourceOption, selected: bool)
    ensures Clone(s, selected).(selected := false) == Clone(s, false)
  {
  }

  /** The selection `r` holds after the option at position `p` of `ks` was the last one picked, or none was. */
  predicate LastPickedAt(m: Mirror, ks: seq<nat>, p: Option<nat>, r: Mirror)
    requires p.Some? ==> p.value < |ks| && ks[p.value] < |m.light|
  {
    && r.changes == m.changes + PickCount(m.light, ks)
    && (p.None? ==>
          r.current == m.current && r.formValue == m.formValue && r.validity == m.validity && r.presentation == m.presentation)
    && (p.Some? ==>
          var s := m.light[ks[p.value]];
          && r.current == Some(|m.store| + p.value) && r.formValue == FormValueOf(s.value)
          && r.validity == ValidityOf(s.value, LegacyMessage) && r.presentation == LabelOf(s.text))
  }

  /**
   * `r` is `m` after the mirrored options `ks` have been traversed in this
   * order by the older form: each has a fresh entry, cloned from it and
   * listed after the entries already listed, visible unless hidden and
   * available unless also disabled; the LAST of them that is selected and
   * enabled is current and is the only listed entry selected; with none, the
   * selection is untouched; the host's options do not change.
   */
  predicate LegacyTraversed(m: Mirror, ks: seq<nat>, r: Mirror)
  {
    var p := LastPick(m.light, ks);
    && (forall i :: 0 <= i < |ks| ==> ks[i] < |m.light|)
    && r.light == m.light
    && Listed(m, |ks|, r)
    && r.store == (if p.Some? then ClearSelected(m.store, m.all) else m.store) + Clones(m.light, ks, p)
    && LastPickedAt(m, ks, p, r)
  }

  /** Consecutive identifiers from `base`, `n` then `k` more, are `n + k` consecutive identifiers. */
  lemma IdsConcat(base: nat, n: nat, k: nat)
    ensures Ids(base, n) + Ids(base + n, k) == Ids(base, n + k)
  {
  }

  /** Two listings in a row, the second leaving the entries of the first as they were but for their selected flags, are one listing. */
  lemma ListedConcat(m: Mirror, n1: nat, r1: Mirror, n2: nat, r2: Mirror)
    requires Listed(m, n1, r1) && Listed(r1, n2, r2)
    requires forall id :: 0 <= id < |r1.store| ==> r2.store[id].(selected := false) == r1.store[id].(selected := false)
    ensures Listed(m, n1 + n2, r2)
  {
    var b := |m.store|;
    var a1, a2 := Ids(b, n1), Ids(b + n1, n2);
    IdsConcat(b, n1, n2);
    IdsIncreasing(b, n1);
    forall id | id in a1
      ensures id < |r1.store| && id < |r2.store|
      ensures Allows(NotHidden, r1.store[id]) == Allows(NotHidden, r2.store[id])
      ensures Allows(Selectable, r1.store[id]) == Allows(Selectable, r2.store[id])
    {
      assert r2.store[id].(selected := false) == r1.store[id].(selected := false);
    }
    FilterStable(r1.store, r2.store, a1, NotHidden);
    FilterStable(r1.store, r2.store, a1, Selectable);
    FilterConcat(r2.store, a1, a2, NotHidden);
    FilterConcat(r2.store, a1, a2, Selectable);
    ConcatAssoc(m.all, a1, a2);
    ConcatAssoc(m.visible, Filter(r2.store, a1, NotHidden), Filter(r2.store, a2, NotHidden));
    ConcatAssoc(m.available, Filter(r2.store, a1, Selectable), Filter(r2.store, a2, Selectable));
  }

  /** The store after two traversals in a row is the store after one traversal of both lists of options. */
  lemma StoreConcat(store: seq<Entry>, all: seq<nat>, light: seq<SourceOption>, a: seq<nat>, b: seq<nat>, s1: seq<Entry>, s2: seq<Entry>)
    requires forall id :: id in all ==> id < |store|
    requires (forall i :: 0 <= i < |a| ==> a[i] < |light|) && (forall i :: 0 <= i < |b| ==> b[i] < |light|)
    requires var pa := LastPick(light, a); s1 == (if pa.Some? then ClearSelected(store, all) else store) + Clones(light, a, pa)
    requires var pb := LastPick(light, b); s2 == (if pb.Some? then ClearSelected(s1, all + Ids(|store|, |a|)) else s1) + Clones(light, b, pb)
    ensures forall i :: 0 <= i < |a + b| ==> (a + b)[i] < |light|
    ensures var p := LastPick(light, a + b); s2 == (if p.Some? then ClearSelected(store, all) else store) + Clones(light, a + b, p)
    ensures |s2| == |s1| + |b| && forall id :: 0 <= id < |s1| ==> s2[id].(selected := false) == s1[id].(selected := false)
  {
    var pa, pb, p := LastPick(light, a), LastPick(light, b), LastPick(light, a + b);
    LastPickConcat(light, a, b);
    ClonesConcat(light, a, b, p);
    if pb.Some? {
      ClearClones(store, all, light, a, pa, pa.Some?);
      ClonesNoPick(light, a, p);
      ConcatAssoc(ClearSelected(store, all), Clones(light, a, None), Clones(light, b, pb));
    } else {
      ConcatAssoc(if pa.Some? then ClearSelected(store, all) else store, Clones(light, a, pa), Clones(light, b, None));
    }
  }

  /**
   * The selection after two traversals in a row, the picks being at `pa` in
   * `a` and at `pb` in `b`, is the one after one traversal of `a + b` with the
   * pick at `p`.
   */
  lemma PickedConcat(m: Mirror, a: seq<nat>, b: seq<nat>, pa: Option<nat>, pb: Option<nat>, p: Option<nat>, r1: Mirror, r2: Mirror)
    requires pa.Some? ==> pa.value < |a| && a[pa.value] < |m.light|
    requires pb.Some? ==> pb.value < |b| && b[pb.value] < |m.light|
    requires p == if pb.Some? then Some(|a| + pb.value) else pa
    requires PickCount(m.light, a + b) == PickCount(m.light, a) + PickCount(m.light, b)
    requires r1.light == m.light && |r1.store| == |m.store| + |a|
    requires LastPickedAt(m, a, pa, r1) && LastPickedAt(r1, b, pb, r2)
    ensures p.Some? ==> p.value < |a + b| && (a + b)[p.value] < |m.light|
    ensures LastPickedAt(m, a + b, p, r2)
  {
    if pb.Some? {
      assert (a + b)[|a| + pb.value] == b[pb.value];
    } else if pa.Some? {
      assert (a + b)[pa.value] == a[pa.value];
    }
  }

  /** Two traversals in a row, from a state whose listed entries exist, are the traversal of both lists of options. */
  lemma LegacyTraversedConcat(m: Mirror, a: seq<nat>, r1: Mirror, b: seq<nat>, r2: Mirror)
    requires forall id :: id in m.all ==> id < |m.store|
    requires LegacyTraversed(m, a, r1) && LegacyTraversed(r1, b, r2)
    ensures LegacyTraversed(m, a + b, r2)
  {
    StoreAfterBoth(m, a, r1, b, r2);
    PickedAfterBoth(m, a, r1, b, r2);
    ListedBoth(m, a, r1, b, r2);
  }

  lemma ListedBoth(m: Mirror, a: seq<nat>, r1: Mirror, b: seq<nat>, r2: Mirror)
    requires Listed(m, |a|, r1) && Listed(r1, |b|, r2)
    requires forall id :: 0 <= id < |r1.store| ==> r2.store[id].(selected := false) == r1.store[id].(selected := false)
    ensures Listed(m, |a + b|, r2)
  {
    ListedConcat(m, |a|, r1, |b|, r2);
  }

  lemma StoreAfterBoth(m: Mirror, a: seq<nat>, r1: Mirror, b: seq<nat>, r2: Mirror)
    requires forall id :: id in m.all ==> id < |m.store|
    requires LegacyTraversed(m, a, r1) && LegacyTraversed(r1, b, r2)
    ensures forall i :: 0 <= i < |a + b| ==> (a + b)[i] < |m.light|
    ensures var p := LastPick(m.light, a + b); r2.store == (if p.Some? then ClearSelected(m.store, m.all) else m.store) + Clones(m.light, a + b, p)
    ensures forall id :: 0 <= id < |r1.store| ==> r2.store[id].(selected := false) == r1.store[id].(selected := false)
  {
    StoreConcat(m.store, m.all, m.light, a, b, r1.store, r2.store);
  }

  lemma PickedAfterBoth(m: Mirror, a: seq<nat>, r1: Mirror, b: seq<nat>, r2: Mirror)
    requires r1.light == m.light && |r1.store| == |m.store| + |a|
    requires forall i :: 0 <= i < |a| ==> a[i] < |m.light|
    requires forall i :: 0 <= i < |b| ==> b[i] < |m.light|
    requires LastPickedAt(m, a, LastPick(m.light, a), r1) && LastPickedAt(r1, b, LastPick(r1.light, b), r2)
    ensures var p := LastPick(m.light, a + b); p.Some? ==> p.value < |a + b| && (a + b)[p.value] < |m.light|
    ensures LastPickedAt(m, a + b, LastPick(m.light, a + b), r2)
  {
    LastPickConcat(m.light, a, b);
    PickCountConcat(m.light, a, b);
    PickedConcat(m, a, b, LastPick(m.light, a), LastPick(m.light, b), LastPick(m.light, a + b), r1, r2);
  }

  /** Traversing no option changes nothing a traversal speaks of, whatever is rendered. */
  lemma LegacyTraversedNothing(m: Mirror, r: Mirror)
    requires r == m.(groups := r.groups)
    ensures LegacyTraversed(m, [], r)
  {
    assert m.store + Clones(m.light, [], None) == m.store;
    assert m.all + Ids(|m.store|, 0) == m.all;
    assert m.visible + Filter(r.store, Ids(|m.store|, 0), NotHidden) == m.visible;
    assert m.available + Filter(r.store, Ids(|m.store|, 0), Selectable) == m.available;
  }

  /** Mirroring one option with non-blank text traverses it. */
  lemma LegacyTraversedOne(m: Mirror, k: nat, parent: Option<nat>)
    requires k < |m.light| && !IsBlank(m.light[k].text)
    ensures LegacyTraversed(m, [k], LegacyAddOption(m, k, parent))
  {
    var r := LegacyAddOption(m, k, parent);
    var n := |m.store|;
    LegacyAddOptionIsAddOption(m, k, parent);
    AddOptionShape(m, k, parent, LegacyMessage);
    var e := Clone(m.light[k], Picks(m.light, k));
    assert Clones(m.light, [k], LastPick(m.light, [k])) == [e];
    assert Ids(n, 1) == [n];
    assert Filter(r.store, [n], NotHidden) == [] + (if Allows(NotHidden, r.store[n]) then [n] else []);
    assert Filter(r.store, [n], Selectable) == [] + (if Allows(Selectable, r.store[n]) then [n] else []);
    assert PickCount(m.light, [k]) == PickCount(m.light, []) + (if Picks(m.light, k) then 1 else 0);
  }

  /** What a traversal is does not depend on the groups rendered before it. */
  lemma LegacyTraversedGroups(m: Mirror, ks: seq<nat>, r: Mirror, gs: seq<RenderGroup>)
    requires LegacyTraversed(m.(groups := gs), ks, r)
    ensures LegacyTraversed(m, ks, r)
  {
  }

  /** After a traversal from a state whose listed entries exist, they still do. */
  lemma LegacyTraversedIndexed(m: Mirror, ks: seq<nat>, r: Mirror)
    requires forall id :: id in m.all ==> id < |m.store|
    requires LegacyTraversed(m, ks, r)
    ensures forall id :: id in r.all ==> id < |r.store|
  {
    IdsIncreasing(|m.store|, |ks|);
  }

  /**
   * Visiting child nodes in the older form traverses the options under them
   * that have non-blank text, in document order.
   */
  lemma {:induction false} LegacyVisitTraversed(m: Mirror, nodes: seq<Node>, parent: Option<nat>)
    requires forall id :: id in m.all ==> id < |m.store|
    ensures LegacyTraversed(m, Kept(Shown(m.light), OptionIndices(nodes)), LegacyVisit(m, nodes, parent))
    decreases nodes
  {
    var sh := Shown(m.light);
    if nodes == [] {
      LegacyTraversedNothing(m, m);
    } else {
      var init, last := nodes[..|nodes| - 1], nodes[|nodes| - 1];
      var r1 := LegacyVisit(m, init, parent);
      LegacyVisitTraversed(m, init, parent);
      LegacyTraversedIndexed(m, Kept(sh, OptionIndices(init)), r1);
      LegacyNodeTraversed(r1, last, parent);
      KeptConcat(sh, OptionIndices(init), NodeOptionIndices(last));
      LegacyTraversedConcat(m, Kept(sh, OptionIndices(init)), r1, Kept(sh, NodeOptionIndices(last)), LegacyVisitNode(r1, last, parent));
    }
  }

  lemma {:induction false} LegacyNodeTraversed(m: Mirror, node: Node, parent: Option<nat>)
    requires forall id :: id in m.all ==> id < |m.store|
    ensures LegacyTraversed(m, Kept(Shown(m.light), NodeOptionIndices(node)), LegacyVisitNode(m, node, parent))
    decreases node
  {
    var sh := Shown(m.light);
    match node
    case Opt(k) =>
      assert Kept(sh, [k]) == Kept(sh, []) + (if IsKept(sh, k) then [k] else []);
      if k < |m.light| && !IsBlank(m.light[k].text) {
        ShownIff(m.light, k);
        LegacyTraversedOne(m, k, parent);
      } else {
        if k < |m.light| {
          ShownIff(m.light, k);
        }
        LegacyTraversedNothing(m, m);
      }
    case Group(c, cs) =>
      var gs := m.groups + [RenderGroup(c, [], false)];
      LegacyVisitTraversed(m.(groups := gs), cs, Some(|m.groups|));
      LegacyTraversedGroups(m, Kept(sh, OptionIndices(cs)), LegacyVisitNode(m, node, parent), gs);
    case Other(_) =>
      LegacyTraversedNothing(m, m);
  }

  /**
   * What a traversal in the older form lists: a fresh clone of each option
   * under `nodes` whose text is not blank, in document order, listed after the
   * entries already listed; when one of them is selected and enabled, the LAST
   * such is current and is the only listed entry selected.
   */
  lemma LegacyVisitMirrors(m: Mirror, nodes: seq<Node>, parent: Option<nat>)
    requires forall id :: id in m.all ==> id < |m.store|
    ensures var ks := Kept(Shown(m.light), OptionIndices(nodes));
      forall k :: k in ks <==> k in OptionIndices(nodes) && k < |m.light| && !IsBlank(m.light[k].text)
    ensures var r, n, ks := LegacyVisit(m, nodes, parent), |m.store|, Kept(Shown(m.light), OptionIndices(nodes));
      var p := LastPick(m.light, ks);
      && LegacyTraversed(m, ks, r)
      && r.all == m.all + Ids(n, |ks|)
      && (p.Some? ==> forall id :: id in r.all ==> (r.store[id].selected <==> id == n + p.value))
  {
    var sh, n := Shown(m.light), |m.store|;
    var ks := Kept(sh, OptionIndices(nodes));
    var r := LegacyVisit(m, nodes, parent);
    KeptMembers(sh, OptionIndices(nodes));
    forall k | k in OptionIndices(nodes) && k < |m.light| ensures IsKept(sh, k) <==> !IsBlank(m.light[k].text) {
      ShownIff(m.light, k);
    }
    LegacyVisitTraversed(m, nodes, parent);
    var p := LastPick(m.light, ks);
    if p.Some? {
      var base := ClearSelected(m.store, m.all);
      ClonesSelected(base, m.light, ks, p);
      IdsIncreasing(n, |ks|);
      forall id | id in r.all ensures r.store[id].selected <==> id == n + p.value {
        if id in m.all {
          assert r.store[id] == base[id];
        }
      }
    }
  }

  /** Mirroring an option keeps the invariant of the older form. */
  lemma LegacyAddOptionConsistent(m: Mirror, k: nat, parent: Option<nat>)
    requires Consistent(m, LegacyMessage) && k < |m.light| && !IsBlank(m.light[k].text)
    requires parent.None? || parent.value < |m.groups|
    ensures Consistent(LegacyAddOption(m, k, parent), LegacyMessage)
    ensures |LegacyAddOption(m, k, parent).groups| == |m.groups|
  {
    LegacyAddOptionIsAddOption(m, k, parent);
    AddOptionConsistent(m, k, parent, LegacyMessage);
    ConsistentIgnoresLight(AddOption(m, k, parent, LegacyMessage), m.light, LegacyMessage);
  }

  /** A traversal in the older form keeps the invariant and renders groups only after the existing ones. */
  lemma {:induction false} LegacyVisitConsistent(m: Mirror, nodes: seq<Node>, parent: Option<nat>)
    requires Consistent(m, LegacyMessage) && (parent.None? || parent.value < |m.groups|)
    ensures Consistent(LegacyVisit(m, nodes, parent), LegacyMessage)
    ensures |LegacyVisit(m, nodes, parent).groups| >= |m.groups|
    decreases nodes
  {
    if nodes != [] {
      var init := nodes[..|nodes| - 1];
      LegacyVisitConsistent(m, init, parent);
      LegacyNodeConsistent(LegacyVisit(m, init, parent), nodes[|nodes| - 1], parent);
    }
  }

  lemma {:induction false} LegacyNodeConsistent(m: Mirror, node: Node, parent: Option<nat>)
    requires Consistent(m, LegacyMessage) && (parent.None? || parent.value < |m.groups|)
    ensures Consistent(LegacyVisitNode(m, node, parent), LegacyMessage)
    ensures |LegacyVisitNode(m, node, parent).groups| >= |m.groups|
    decreases node
  {
    match node
    case Opt(k) =>
      if k < |m.light| && !IsBlank(m.light[k].text) {
        LegacyAddOptionConsistent(m, k, parent);
      }
    case Group(c, cs) =>
      var m' := m.(groups := m.groups + [RenderGroup(c, [], false)]);
      assert Consistent(m', LegacyMessage) by {
        forall g, x | 0 <= g < |m'.groups| && x in m'.groups[g].members ensures x in m'.all {
          assert g < |m.groups|;
          assert m'.groups[g] == m.groups[g];
        }
      }
      LegacyVisitConsistent(m', cs, Some(|m.groups|));
    case Other(_) =>
  }

  /**
   * What a traversal in the older form renders: the options mirrored directly
   * under `nodes` are appended to `parent`, and EVERY optgroup under them
   * follows the groups already rendered, each holding the options mirrored
   * directly under it, an optgroup without such options being rendered empty.
   */
  lemma {:induction false} LegacyVisitRenders(m: Mirror, nodes: seq<Node>, parent: Option<nat>)
    requires parent.None? || parent.value < |m.groups|
    ensures var sh, n := Shown(m.light), |m.store|;
      Renders(m, sh, Count(nodes, sh), Members(nodes, sh, n), Groups(nodes, sh, n, false), parent, LegacyVisit(m, nodes, parent))
    decreases nodes
  {
    var sh, n := Shown(m.light), |m.store|;
    if nodes == [] {
      AttachNothing(m.groups, parent);
    } else {
      var init, last := nodes[..|nodes| - 1], nodes[|nodes| - 1];
      var r1 := LegacyVisit(m, init, parent);
      LegacyVisitRenders(m, init, parent);
      var n1 := n + Count(init, sh);
      LegacyNodeRenders(r1, last, parent);
      RendersThen(m, r1, LegacyVisitNode(r1, last, parent), sh, Count(init, sh), NodeCount(last, sh),
        Members(init, sh, n), NodeMembers(last, sh, n1), Groups(init, sh, n, false), NodeGroups(last, sh, n1, false), parent);
    }
  }

  lemma {:induction false} LegacyNodeRenders(m: Mirror, node: Node, parent: Option<nat>)
    requires parent.None? || parent.value < |m.groups|
    ensures var sh, n := Shown(m.light), |m.store|;
      Renders(m, sh, NodeCount(node, sh), NodeMembers(node, sh, n), NodeGroups(node, sh, n, false), parent, LegacyVisitNode(m, node, parent))
    decreases node
  {
    var sh := Shown(m.light);
    AttachNothing(m.groups, parent);
    match node
    case Opt(k) =>
      if k < |m.light| {
        ShownIff(m.light, k);
        if !IsBlank(m.light[k].text) {
          LegacyAddOptionIsAddOption(m, k, parent);
          AddOptionShape(m, k, parent, LegacyMessage);
        }
      }
    case Group(c, cs) =>
      var m', n := m.(groups := m.groups + [RenderGroup(c, [], false)]), |m.store|;
      LegacyVisitRenders(m', cs, Some(|m.groups|));
      GroupRenders(m, m', c, sh, Count(cs, sh), Members(cs, sh, n), Groups(cs, sh, n, false), parent,
        LegacyVisit(m', cs, Some(|m.groups|)));
    case Other(_) =>
  }

  /** Visiting added nodes at the top level leaves the groups already rendered as they were and appends one per optgroup. */
  lemma LegacyAppendRenders(m: Mirror, nodes: seq<Node>)
    ensures LegacyVisit(m, nodes, None).groups == m.groups + Groups(nodes, Shown(m.light), |m.store|, false)
  {
    LegacyVisitRenders(m, nodes, None);
  }

  /** `LegacyAddOption` as the steps after the selection, `m2` being the state after it. */
  lemma LegacyAddOptionAfterSelection(m: Mirror, k: nat, parent: Option<nat>, m2: Mirror, r: Mirror)
    requires k < |m.light|
    requires var m1 := m.(store := m.store + [RawClone(m.light[k], Picks(m.light, k))]);
      m2 == if Picks(m.light, k) then LegacyChosen(m1, |m.store|) else m1
    requires var id := |m.store|; var e := m2.store[id];
      && r.light == m2.light && r.current == m2.current && r.formValue == m2.formValue
      && r.validity == m2.validity && r.presentation == m2.presentation && r.changes == m2.changes
      && r.store == m2.store[id := Defaulted(e)]
      && r.all == m2.all + [id]
      && r.visible == m2.visible + (if !e.hidden then [id] else [])
      && r.available == m2.available + (if !e.hidden && !e.disabled then [id] else [])
      && r.groups == Attach(m2.groups, parent, [id])
    ensures LegacyAddOption(m, k, parent) == r
  {
  }

  /**
   * Before the children are visited on connection, the validity being made
   * value-missing keeps the invariant when there is no form value, either on
   * a first connection, with nothing listed yet, or from a valid state.
   */
  lemma MissingConsistent(m0: Mirror, m: Mirror)
    requires m == m0.(validity := ValueMissing(LegacyMessage)) && m.formValue.None?
    requires m.current.Some? ==> m.current.value < |m.store|
    requires (m.all == [] && m.visible == [] && m.available == [] && m.groups == []) || Consistent(m0, LegacyMessage)
    ensures Consistent(m, LegacyMessage)
  {
  }

  /** The older form of the element as an object, its fields the element's state. */
  class Element {
    /** The host's options in document order, and its child nodes. */
    var light: seq<SourceOption>
    var children: seq<Node>
    /** Every clone ever made, by identifier; `allOptions`, `visibleOptions`, `availableOptions`. */
    var store: seq<Entry>
    var all: seq<nat>
    var visible: seq<nat>
    var available: seq<nat>
    /** The rendered `nice-optgroup` elements, in the order they were appended. */
    var groups: seq<RenderGroup>
    /** `currentOption`, and `submitValue`, the value of the last selection (`None` before any). */
    var current: Option<nat>
    var submitValue: Option<string>
    /** What ElementInternals holds: the form value and the validity. */
    var formValue: Option<string>
    var validity: Validity
    /** The presentation's text and the `placeholder` attribute. */
    var presentation: string
    var placeholder: Option<string>
    /** How many `change` events have been dispatched. */
    var changes: nat
    /** The custom states `interacted` and `open`, and whether the search box is on. */
    var interacted: bool
    var isOpen: bool
    var searchEnabled: bool

    function Snapshot(): Mirror
      reads this`light, this`store, this`all, this`visible, this`available, this`groups, this`current
      reads this`formValue, this`validity, this`presentation, this`changes
    {
      Mirror(light, store, all, visible, available, groups, current, formValue, validity, presentation, changes)
    }

    /** The identifiers the element holds name entries that exist. */
    predicate Indexed()
      reads this`current, this`store, this`all
    {
      && (current.Some? ==> current.value < |store|)
      && (forall id :: id in all ==> id < |store|)
    }

    /** The element's invariant between two handlers. */
    predicate Valid()
      reads this`light, this`store, this`all, this`visible, this`available, this`groups, this`current
      reads this`formValue, this`validity, this`presentation, this`changes
    {
      Consistent(Snapshot(), LegacyMessage)
    }

    /**
     * The state between the constructor and the first connection: nothing is
     * mirrored, rendered or current yet.
     */
    predicate Unconnected()
      reads this`store, this`all, this`visible, this`available, this`groups, this`current
    {
      store == [] && all == [] && visible == [] && available == [] && groups == [] && current == None
    }

    /**
     * The constructor: nothing is mirrored yet, and the presentation shows the
     * placeholder, or "Select" without one.
     */
    constructor(light: seq<SourceOption>, children: seq<Node>, placeholder: Option<string>)
      ensures this.light == light && this.children == children && this.placeholder == placeholder
      ensures store == [] && all == [] && visible == [] && available == [] && groups == []
      ensures Unconnected()
      ensures current == None && submitValue == None && formValue == None && validity == Satisfied && changes == 0
      ensures presentation == if placeholder.Some? && placeholder.value != "" then placeholder.value else NiceSelect.DefaultPresentation
      ensures !interacted && !isOpen && !searchEnabled
    {
      this.light := light;
      this.children := children;
      this.placeholder := placeholder;
      presentation := if placeholder.Some? && placeholder.value != "" then placeholder.value else NiceSelect.DefaultPresentation;
      store := [];
      all := [];
      available := [];
      visible := [];
      groups := [];
      current := None;
      submitValue := None;
      formValue := None;
      validity := Satisfied;
      changes := 0;
      interacted := false;
      isOpen := false;
      searchEnabled := false;
    }

    /** `updateAvailableOptions`: the visible entries that are not disabled. */
    method UpdateAvailableOptions()
      modifies this`available
      ensures available == Filter(store, visible, NotDisabled)
    {
      available := NiceSelect.FilterBy(store, visible, NotDisabled);
    }

    /**
     * `selectCurrrentOption`: nothing happens without a current entry or when it
     * is disabled; otherwise every listed entry loses its selected flag, the
     * current entry's value is recorded and decides the form value and the
     * validity, the current entry is marked selected, the presentation shows its
     * text and one `change` event is dispatched. The host's options are left alone.
     */
    method SelectCurrentOption()
      requires Indexed()
      modifies this`store, this`submitValue, this`formValue, this`validity, this`presentation, this`changes
      ensures old(current).None? || old(store[current.value].disabled) ==>
        Snapshot() == old(Snapshot()) && submitValue == old(submitValue)
      ensures old(current).Some? && !old(store[current.value].disabled) ==>
        && Snapshot() == LegacyChosen(old(Snapshot()), old(current.value))
        && submitValue == Some(old(store[current.value].value))
    {
      if current.None? || store[current.value].disabled {
        return;
      }
      Commit(current.value);
    }

    /**
     * The body of `selectCurrrentOption` past its guard, for the current and
     * enabled entry `id`.
     */
    method Commit(id: nat)
      requires id < |store| && Indexed() && current == Some(id)
      modifies this`store, this`submitValue, this`formValue, this`validity, this`presentation, this`changes
      ensures Snapshot() == LegacyChosen(old(Snapshot()), id)
      ensures submitValue == Some(old(store[id].value))
    {
      var r := LegacyChooseBy(Snapshot(), id);
      submitValue := Some(store[id].value);
      store, formValue, validity, presentation, changes := r.store, r.formValue, r.validity, r.presentation, r.changes;
    }

    /** Makes `id` the current option and selects it, which does nothing more when it is disabled. */
    method Select(id: nat)
      requires id < |store| && Indexed()
      modifies this`current, this`store, this`submitValue, this`formValue, this`validity, this`presentation, this`changes
      ensures old(store[id].disabled) ==> Snapshot() == old(Snapshot()).(current := Some(id)) && submitValue == old(submitValue)
      ensures !old(store[id].disabled) ==> Snapshot() == LegacyChosen(old(Snapshot()), id) && submitValue == Some(old(store[id].value))
    {
      ghost var m := Snapshot();
      current := Some(id);
      ChosenIgnoresCurrent(m, id, LegacyMessage, Some(id));
      SelectCurrentOption();
    }

    /**
     * The first steps of the option branch of `addValidNodeToOptions` for the
     * host option `k`: it is cloned, and a clone marked selected loses the mark
     * when disabled and is otherwise made current and selected.
     */
    method CloneOption(k: nat) returns (id: nat)
      requires k < |light| && Indexed()
      modifies this`store, this`current, this`submitValue, this`formValue, this`validity, this`presentation, this`changes
      ensures id == old(|store|)
      ensures var m := old(Snapshot()); var m1 := m.(store := m.store + [RawClone(m.light[k], Picks(m.light, k))]);
        Snapshot() == if Picks(m.light, k) then LegacyChosen(m1, |m.store|) else m1
    {
      ghost var m := Snapshot();
      var s := light[k];
      id := |store|;
      ghost var m1 := m.(store := m.store + [RawClone(s, Picks(m.light, k))]);
      store := store + [RawClone(s, s.selected)];
      if store[id].selected {
        if store[id].disabled {
          store := store[id := store[id].(selected := false)];
          assert store == m1.store;
        } else {
          current := Some(id);
          ChosenIgnoresCurrent(m1, id, LegacyMessage, current);
          SelectCurrentOption();
        }
      }
    }

    /**
     * The rest of the option branch for the clone `id`: it is pushed to the
     * visible and available lists as its flags say, an empty value is replaced
     * by the text, and it is appended to `parent` and to `allOptions`.
     */
    method Register(id: nat, parent: Option<nat>)
      requires id < |store|
      modifies this`store, this`all, this`visible, this`available, this`groups
      ensures var m := old(Snapshot()); var e := m.store[id];
        Snapshot() == m.(
          store := m.store[id := Defaulted(e)],
          all := m.all + [id],
          visible := m.visible + (if !e.hidden then [id] else []),
          available := m.available + (if !e.hidden && !e.disabled then [id] else []),
          groups := Attach(m.groups, parent, [id]))
    {
      var e := store[id];
      visible := visible + (if !e.hidden then [id] else []);
      available := available + (if !e.hidden && !e.disabled then [id] else []);
      store := store[id := if e.value == "" then e.(value := e.text) else e];
      groups := Attach(groups, parent, [id]);
      all := all + [id];
    }

    /** The option branch of `addValidNodeToOptions` for the host option `k`, whose text is not blank. */
    method AddOption(k: nat, parent: Option<nat>)
      requires k < |light| && Indexed()
      modifies this`store, this`all, this`visible, this`available, this`groups, this`current, this`submitValue, this`formValue, this`validity, this`presentation, this`changes
      ensures Snapshot() == LegacyAddOption(old(Snapshot()), k, parent)
      ensures Indexed() && |groups| == old(|groups|)
    {
      ghost var m := Snapshot();
      var id := CloneOption(k);
      ghost var m2 := Snapshot();
      Register(id, parent);
      LegacyAddOptionAfterSelection(m, k, parent, m2, Snapshot());
    }

    /**
     * `addValidNodeToOptions(node, parent)`: an optgroup is rendered at the end of
     * the option list and its children are added to it, one after another; an
     * option is added when its trimmed text is not empty; anything else is ignored.
     */
    method AddValidNode(node: Node, parent: Option<nat>)
      requires Indexed() && (parent.None? || parent.value < |groups|)
      modifies this`store, this`all, this`visible, this`available, this`groups, this`current, this`submitValue, this`formValue, this`validity, this`presentation, this`changes
      ensures Snapshot() == LegacyVisitNode(old(Snapshot()), node, parent)
      ensures Indexed() && |groups| >= old(|groups|)
      decreases node
    {
      match node
      case Group(c, cs) =>
        var g := |groups|;
        groups := groups + [RenderGroup(c, [], false)];
        ghost var s1 := Snapshot();
        for i := 0 to |cs|
          invariant Snapshot() == LegacyVisit(s1, cs[..i], Some(g))
          invariant Indexed() && g < |groups|
        {
          assert cs[..i + 1][..i] == cs[..i];
          AddValidNode(cs[i], Some(g));
        }
        assert cs[..|cs|] == cs;
      case Opt(k) =>
        if k < |light| {
          BlankIff(light[k].text);
          if Trim(light[k].text) != "" {
            AddOption(k, parent);
          }
        }
      case Other(_) =>
    }

    /** `addValidNodeToOptions(node)` on each of `nodes` in turn, at the top level. */
    method AddValidNodes(nodes: seq<Node>)
      requires Indexed()
      modifies this`store, this`all, this`visible, this`available, this`groups, this`current, this`submitValue, this`formValue, this`validity, this`presentation, this`changes
      ensures Snapshot() == LegacyVisit(old(Snapshot()), nodes, None)
      ensures Indexed()
    {
      ghost var s0 := Snapshot();
      for i := 0 to |nodes|
        invariant Snapshot() == LegacyVisit(s0, nodes[..i], None)
        invariant Indexed()
      {
        assert nodes[..i + 1][..i] == nodes[..i];
        AddValidNode(nodes[i], None);
      }
      assert nodes[..|nodes|] == nodes;
    }

    /**
     * `connectedCallback`, as far as the option mirror goes: the validity
     * becomes value-missing with the message 'value is empty' and every child
     * node of the host is added in turn, after whatever is already listed. On a
     * first connection, or from a valid state without a form value, the
     * invariant holds after.
     */
    method Connect()
      requires Indexed()
      modifies this`store, this`all, this`visible, this`available, this`groups, this`current, this`submitValue, this`formValue, this`validity, this`presentation, this`changes
      ensures Snapshot() == LegacyVisit(old(Snapshot()).(validity := ValueMissing(LegacyMessage)), children, None)
      ensures Indexed()
      ensures old(formValue).None? && ((old(all) == [] && old(visible) == [] && old(available) == [] && old(groups) == []) || old(Valid())) ==> Valid()
    {
      validity := ValueMissing(LegacyMessage);
      ghost var m := Snapshot();
      AddValidNodes(children);
      if m.formValue.None? && ((m.all == [] && m.visible == [] && m.available == [] && m.groups == []) || old(Valid())) {
        MissingConsistent(old(Snapshot()), m);
        LegacyVisitConsistent(m, children, None);
      }
    }

    /**
     * The child-list observer's callback once the host's options and child
     * nodes have become `light` and `children`, `added` being the nodes the
     * mutation records list as added: each is added at the top level, after
     * the entries already listed; nothing is reset, and nothing is done about
     * removed nodes.
     */
    method NodesAdded(light: seq<SourceOption>, children: seq<Node>, added: seq<Node>)
      requires Valid()
      modifies this`light, this`children, this`store, this`all, this`visible, this`available, this`groups
      modifies this`current, this`submitValue, this`formValue, this`validity, this`presentation, this`changes
      ensures this.light == light && this.children == children
      ensures Snapshot() == LegacyVisit(old(Snapshot()).(light := light), added, None)
      ensures Valid()
    {
      this.light := light;
      this.children := children;
      ghost var m := Snapshot();
      ConsistentIgnoresLight(old(Snapshot()), light, LegacyMessage);
      AddValidNodes(added);
      LegacyVisitConsistent(m, added, None);
    }

    /**
     * The search box's `input` handler with the text `query`, as in the current
     * form: the visible list becomes the listed entries whose text includes the
     * query, ignoring case; the available list is recomputed; every listed entry
     * is hidden exactly when it is not visible, and every rendered group exactly
     * when it has no entry left shown.
     */
    method OnSearchInput(query: string)
      requires Valid()
      modifies this`visible, this`available, this`store, this`groups
      ensures Snapshot() == Searched(old(Snapshot()), query)
      ensures Valid()
    {
      ghost var m := Snapshot();
      var r := NiceSelect.SearchBy(Snapshot(), query);
      visible, available, store, groups := r.visible, r.available, r.store, r.groups;
      SearchConsistent(m, query, LegacyMessage);
    }

    /**
     * `toggleSearch` on a change of `data-search` to `hasSearch`: nothing happens
     * when the search is on and stays on; otherwise the search is switched as
     * the attribute says, and switching it off shows every listed entry again.
     */
    method ToggleSearch(hasSearch: bool)
      requires Valid() || Unconnected()
      modifies this`searchEnabled, this`store
      ensures searchEnabled == hasSearch
      ensures Snapshot() == if hasSearch then old(Snapshot()) else Unhidden(old(Snapshot()))
      ensures old(Valid()) ==> Valid()
      ensures old(Unconnected()) ==> Unconnected()
    {
      if searchEnabled && hasSearch {
        return;
      }
      searchEnabled := hasSearch;
      if !searchEnabled {
        ghost var m := Snapshot();
        var r := NiceSelect.UnhideBy(Snapshot());
        store := r.store;
        if Consistent(m, LegacyMessage) {
          UnhiddenConsistent(m, LegacyMessage);
        }
      }
    }

    /**
     * The `keydown` handler. ArrowDown selects the available entry after the
     * current one, or the first; ArrowUp the one before, or the last. When
     * there is one, the `interacted` and `open` states are set; the list is not
     * scrolled. Other keys, and an empty available list, change nothing.
     */
    method OnKeyDown(key: NiceSelect.Key)
      requires Valid()
      modifies this`store, this`available, this`current, this`submitValue, this`formValue, this`validity, this`presentation, this`changes
      modifies this`interacted, this`isOpen
      ensures var next := NiceSelect.KeyTarget(key, old(available), old(current));
        if next.None? then
          Snapshot() == old(Snapshot()) && interacted == old(interacted) && isOpen == old(isOpen)
        else
          && next.value < old(|store|) && !old(store[next.value].disabled)
          && Snapshot() == LegacyChosen(old(Snapshot()), next.value)
          && interacted && isOpen
      ensures Valid()
    {
      if key == NiceSelect.OtherKey {
        return;
      }
      ghost var m := Snapshot();
      UpdateAvailableOptions();
      assert Snapshot() == m;
      var next := NiceSelect.KeyTarget(key, available, current);
      if next.None? {
        return;
      }
      MoveTo(next.value);
      ghost var chosen := Snapshot();
      Interacted(true);
      assert Snapshot() == chosen;
    }

    /** Adds the custom state `interacted`, and `open` too when `opening`. */
    method Interacted(opening: bool)
      modifies this`interacted, this`isOpen
      ensures interacted && isOpen == (opening || old(isOpen))
    {
      interacted := true;
      if opening {
        isOpen := true;
      }
    }

    /** Makes the available entry `id` current and selects it. */
    method MoveTo(id: nat)
      requires Valid() && id in available
      modifies this`store, this`current, this`submitValue, this`formValue, this`validity, this`presentation, this`changes
      ensures id < old(|store|) && !old(store[id].disabled)
      ensures Snapshot() == LegacyChosen(old(Snapshot()), id)
      ensures Valid()
    {
      ghost var m := Snapshot();
      FilterMembers(store, visible, NotDisabled);
      Select(id);
      LegacyChosenConsistent(m, id);
    }

    /**
     * The option list's `click` handler, `target` being the clicked entry if an
     * entry was clicked: a click on another entry than the current one makes it
     * current and selects it (which does nothing when it is disabled) and sets
     * the `interacted` state.
     */
    method OnClick(target: Option<nat>)
      requires Valid() && (target.Some? ==> target.value in all)
      modifies this`store, this`current, this`submitValue, this`formValue, this`validity, this`presentation, this`changes, this`interacted, this`isOpen
      ensures isOpen == old(isOpen)
      ensures target.None? || old(current) == target ==> Snapshot() == old(Snapshot()) && interacted == old(interacted)
      ensures target.Some? && old(current) != target ==>
        && current == target && interacted
        && (old(store[target.value].disabled) ==> Snapshot() == old(Snapshot()).(current := target))
        && (!old(store[target.value].disabled) ==> Snapshot() == LegacyChosen(old(Snapshot()), target.value))
      ensures Valid()
    {
      if target.None? || current == target {
        return;
      }
      ghost var m := Snapshot();
      Select(target.value);
      if !m.store[target.value].disabled {
        LegacyChosenConsistent(m, target.value);
      }
      Interacted(false);
    }

    /** The `value` getter: the current entry's value, or null when it is empty or there is none. */
    function Value(): (r: Option<string>)
      reads this`current, this`store
      ensures r.Some? <==> current.Some? && current.value < |store| && store[current.value].value != ""
      ensures r.Some? ==> r.value == store[current.value].value
    {
      if current.Some? && current.value < |store| && store[current.value].value != "" then Some(store[current.value].value) else None
    }

    /**
     * The `value` setter: the first available entry with value `v` is made
     * current and selected; without one, an error is thrown and nothing changes.
     */
    method SetValue(v: string) returns (outcome: Outcome)
      requires Valid() || Unconnected()
      modifies this`store, this`current, this`submitValue, this`formValue, this`validity, this`presentation, this`changes
      ensures var found := FindByValue(old(store), old(available), v);
        && (found.None? ==> outcome == Thrown(NiceSelect.NotAValidOption(v)) && Snapshot() == old(Snapshot()))
        && (found.Some? ==> outcome == Done && Snapshot() == LegacyChosen(old(Snapshot()), found.value))
      ensures outcome == Done ==> Value() == Some(v) && submitValue == Some(v) && formValue == Some(v) && validity == Satisfied
      ensures old(Valid()) ==> Valid()
      ensures old(Unconnected()) ==> outcome == Thrown(NiceSelect.NotAValidOption(v)) && Unconnected()
    {
      var found := FindByValue(store, available, v);
      if found.None? {
        return Thrown(NiceSelect.NotAValidOption(v));
      }
      ghost var m := Snapshot();
      FilterMembers(store, visible, NotDisabled);
      current := found;
      SelectCurrentOption();
      LegacyChosenConsistent(m, found.value);
      outcome := Done;
    }

    /**
     * A change of the `placeholder` attribute: it is recorded, and the
     * presentation shows the value of the last selection when it is not empty,
     * or else the placeholder.
     */
    method OnPlaceholderChanged(p: Option<string>)
      modifies this`placeholder, this`presentation
      ensures placeholder == p
      ensures presentation == if submitValue.Some? && submitValue.value != "" then submitValue.value else if p.Some? then p.value else ""
    {
      placeholder := p;
      presentation := if submitValue.Some? && submitValue.value != "" then submitValue.value else if p.Some? then p.value else "";
    }

    /** The `open` setter. */
    method SetOpen(value: bool)
      modifies this`isOpen
      ensures isOpen == value
    {
      isOpen := value;
    }
  }
}
