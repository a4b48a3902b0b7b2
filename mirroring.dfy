/**
 * What the element's selection and its traversal of the light DOM do to its
 * state, stated on values: `Chosen` is a call of `selectCurrrentOption`,
 * `Visit` a traversal of a list of child nodes by `addValidNodeToOptions` and
 * `Resync` a call of `updateOptions`. The lemmas say what a traversal lists
 * (`ResyncMirrors`: a clone of each option with non-blank text, in document
 * order, the first selected and enabled one winning), what it renders
 * (`VisitRenders`) and that it keeps the state consistent (`VisitConsistent`).
 */
module Mirroring {
  import opened Wrappers
  import opened Text
  import opened Seqs
  import opened Views
  import opened Markup

  /** The part of the element's state a selection or a traversal reads and writes. */
  datatype Mirror = Mirror(
    light: seq<SourceOption>,
    store: seq<Entry>,
    all: seq<nat>,
    visible: seq<nat>,
    available: seq<nat>,
    groups: seq<RenderGroup>,
    current: Option<nat>,
    formValue: Option<string>,
    validity: Validity,
    presentation: string,
    changes: nat)

  /**
   * The state invariant between handlers: the views hold, every rendered group
   * holds listed entries only, the form value and the validity agree, and every
   * listed entry has a non-blank text and a non-empty value, with at most one
   * of them selected.
   */
  predicate Consistent(m: Mirror, msg: string)
  {
    && ViewsHold(m.store, m.all, m.visible, m.available)
    && (forall g, id :: 0 <= g < |m.groups| && id in m.groups[g].members ==> id in m.all)
    && Selection(m, msg)
    && (forall id :: id in m.all ==> !IsBlank(m.store[id].text) && m.store[id].value != "")
    && AtMostOneSelected(m.store, m.all)
  }

  /**
   * The part of the invariant about the selection: the current entry exists,
   * the validity is satisfied exactly when there is a form value, which is then
   * non-empty, and a missing value is reported with the element's message.
   */
  predicate Selection(m: Mirror, msg: string)
  {
    && (m.current.Some? ==> m.current.value < |m.store|)
    && (m.validity == Satisfied <==> m.formValue.Some?)
    && (m.formValue.Some? ==> m.formValue.value != "")
    && (m.validity.ValueMissing? ==> m.validity.message == msg)
  }

  /**
   * `selectCurrrentOption` with the entry `id` current and enabled: every listed
   * entry loses its selected flag and `id` gains it, the form value and the
   * validity follow the entry's value, the host's options reflect it and the
   * presentation shows its text; one `change` event is dispatched.
   */
  function Chosen(m: Mirror, id: nat, msg: string): (r: Mirror)
    requires id < |m.store|
    ensures |r.store| == |m.store| && r.current == Some(id)
    ensures r.store[id].selected && r.store[id].(selected := false) == m.store[id].(selected := false)
    ensures forall x :: 0 <= x < |m.store| && x != id ==> r.store[x] == if x in m.all then m.store[x].(selected := false) else m.store[x]
    ensures (r.validity == Satisfied <==> r.formValue.Some?) && (r.formValue.Some? <==> m.store[id].value != "")
    ensures r.formValue.Some? ==> r.formValue.value == m.store[id].value
    ensures r.validity.ValueMissing? ==> r.validity.message == msg
    ensures r.presentation != "" && (m.store[id].text != "" ==> r.presentation == m.store[id].text)
    ensures m.store[id].text == "" ==> r.presentation == NoBreakSpace
    ensures r.changes == m.changes + 1
    ensures r.all == m.all && r.visible == m.visible && r.available == m.available && r.groups == m.groups
  {
    var e := m.store[id];
    m.(store := ClearSelected(m.store, m.all)[id := e.(selected := true)],
       current := Some(id),
       formValue := FormValueOf(e.value),
       validity := ValidityOf(e.value, msg),
       light := Reflect(m.light, e.value, e.text),
       presentation := LabelOf(e.text),
       changes := m.changes + 1)
  }

  /** `Chosen` field by field. */
  lemma ChosenFields(m: Mirror, id: nat, msg: string)
    requires id < |m.store|
    ensures var e := m.store[id];
      Chosen(m, id, msg) == Mirror(
        if FirstMatch(m.light, e.value, e.text).Some? then Reflect(m.light, e.value, e.text) else m.light,
        ClearSelected(m.store, m.all)[id := e.(selected := true)], m.all, m.visible, m.available, m.groups,
        Some(id), FormValueOf(e.value), ValidityOf(e.value, msg), LabelOf(e.text), m.changes + 1)
  {
  }

  /** A selection does not depend on which entry was current before. */
  lemma ChosenIgnoresCurrent(m: Mirror, id: nat, msg: string, c: Option<nat>)
    requires id < |m.store|
    ensures Chosen(m.(current := c), id, msg) == Chosen(m, id, msg)
  {
  }

  /**
   * A selection leaves the state consistent; afterwards the chosen entry is
   * the only listed entry selected, or none is when it is not listed.
   */
  lemma ChosenConsistent(m: Mirror, id: nat, msg: string)
    requires Consistent(m, msg) && id < |m.store|
    ensures Consistent(Chosen(m, id, msg), msg)
    ensures forall x :: x in m.all ==> (Chosen(m, id, msg).store[x].selected <==> x == id)
  {
    var r := Chosen(m, id, msg);
    FilterStable(m.store, r.store, m.visible, NotDisabled);
  }


  /**
   * `addValidNodeToOptions` on the host option `k`, whose text is not blank:
   * the clone keeps its selected flag only when the option is enabled, and then
   * becomes current through `selectCurrrentOption` before it is listed; it is
   * listed, made visible unless hidden and available unless hidden or disabled,
   * its empty value replaced by its text, and appended to the rendered group
   * `parent` (`None` is the option list itself).
   */
  function AddOption(m: Mirror, k: nat, parent: Option<nat>, msg: string): (r: Mirror)
    requires k < |m.light|
    ensures |r.store| == |m.store| + 1 && r.all == m.all + [|m.store|] && |r.light| == |m.light|
    ensures r.store[|m.store|] == Clone(m.light[k], Picks(m.light, k))
  {
    var s, id := m.light[k], |m.store|;
    var pick := s.selected && !s.disabled;
    var m1 := m.(store := m.store + [RawClone(s, pick)]);
    var m2 := if pick then Chosen(m1, id, msg) else m1;
    var e := m2.store[id];
    m2.(store := m2.store[id := Defaulted(e)],
        all := m2.all + [id],
        visible := m2.visible + (if !e.hidden then [id] else []),
        available := m2.available + (if !e.hidden && !e.disabled then [id] else []),
        groups := Attach(m2.groups, parent, [id]))
  }

  /** `AddOption` as the steps after the selection, `m2` being the state after it. */
  lemma AddOptionAfterSelection(m: Mirror, k: nat, parent: Option<nat>, msg: string, m2: Mirror, r: Mirror)
    requires k < |m.light|
    requires var m1 := m.(store := m.store + [RawClone(m.light[k], Picks(m.light, k))]);
      m2 == if Picks(m.light, k) then Chosen(m1, |m.store|, msg) else m1
    requires var id := |m.store|; var e := m2.store[id];
      && r.light == m2.light && r.current == m2.current && r.formValue == m2.formValue
      && r.validity == m2.validity && r.presentation == m2.presentation && r.changes == m2.changes
      && r.store == m2.store[id := Defaulted(e)]
      && r.all == m2.all + [id]
      && r.visible == m2.visible + (if !e.hidden then [id] else [])
      && r.available == m2.available + (if !e.hidden && !e.disabled then [id] else [])
      && r.groups == Attach(m2.groups, parent, [id])
    ensures AddOption(m, k, parent, msg) == r
  {
  }

  /**
   * `addValidNodeToOptions(node, parent)`: an option is mirrored when its text
   * is not blank; an optgroup is rendered, at the end of the option list, when
   * one of its options has non-blank text (an option inside another element
   * counts too), and its children are visited with it as their parent; anything
   * else is ignored, with the options inside it.
   */
  function VisitNode(m: Mirror, node: Node, parent: Option<nat>, msg: string): Mirror
    decreases node
  {
    match node
    case Opt(k) => if k < |m.light| && !IsBlank(m.light[k].text) then AddOption(m, k, parent, msg) else m
    case Group(c, cs) =>
      if !HasShown(Shown(m.light), cs) then m
      else Visit(m.(groups := m.groups + [RenderGroup(c, [], false)]), cs, Some(|m.groups|), msg)
    case Other(_) => m
  }

  /** `addValidNodeToOptions` on each of `nodes` in turn, all with the same parent. */
  function Visit(m: Mirror, nodes: seq<Node>, parent: Option<nat>, msg: string): Mirror
    decreases nodes
  {
    if nodes == [] then m
    else VisitNode(Visit(m, nodes[..|nodes| - 1], parent, msg), nodes[|nodes| - 1], parent, msg)
  }

  /**
   * `updateOptions`: the three option lists and the rendered option list are
   * emptied, and the host's child nodes are visited. The entries and the current
   * entry of earlier resyncs are not touched.
   */
  function Resync(m: Mirror, nodes: seq<Node>, msg: string): Mirror
  {
    Visit(m.(all := [], visible := [], available := [], groups := []), nodes, None, msg)
  }

  /** The state without its rendered groups. */
  function Core(m: Mirror): Mirror
  {
    m.(groups := [])
  }

  /** One host option of a traversal with the optgroups flattened away. */
  function Step(m: Mirror, k: nat, msg: string): Mirror
  {
    if k < |m.light| && !IsBlank(m.light[k].text) then AddOption(m, k, None, msg) else m
  }

  /** The traversal of the host options `ks`, in this order, with the optgroups flattened away. */
  function Flat(m: Mirror, ks: seq<nat>, msg: string): Mirror
    decreases |ks|
  {
    if ks == [] then m else Step(Flat(m, ks[..|ks| - 1], msg), ks[|ks| - 1], msg)
  }

  lemma {:induction false} FlatConcat(m: Mirror, a: seq<nat>, b: seq<nat>, msg: string)
    ensures Flat(m, a + b, msg) == Flat(Flat(m, a, msg), b, msg)
    decreases |b|
  {
    if b == [] {
      assert a + b == a;
    } else {
      assert (a + b)[..|a + b| - 1] == a + b[..|b| - 1];
      FlatConcat(m, a, b[..|b| - 1], msg);
    }
  }

  /** Where an option goes in the rendered groups has no effect on anything else. */
  lemma AddOptionCore(m1: Mirror, m2: Mirror, k: nat, p1: Option<nat>, p2: Option<nat>, msg: string)
    requires k < |m1.light| && Core(m1) == Core(m2)
    ensures Core(AddOption(m1, k, p1, msg)) == Core(AddOption(m2, k, p2, msg))
  {
    assert m2 == m1.(groups := m2.groups);
  }

  lemma {:induction false} FlatCore(m1: Mirror, m2: Mirror, ks: seq<nat>, msg: string)
    requires Core(m1) == Core(m2)
    ensures Core(Flat(m1, ks, msg)) == Core(Flat(m2, ks, msg))
    decreases |ks|
  {
    if ks != [] {
      var init, k := ks[..|ks| - 1], ks[|ks| - 1];
      FlatCore(m1, m2, init, msg);
      var f1, f2 := Flat(m1, init, msg), Flat(m2, init, msg);
      assert f1.light == f2.light;
      if k < |f1.light| && !IsBlank(f1.light[k].text) {
        AddOptionCore(f1, f2, k, None, None, msg);
      }
    }
  }

  /** Options none of which has non-blank text change nothing. */
  lemma {:induction false} FlatNothingKept(m: Mirror, ks: seq<nat>, msg: string)
    requires forall k :: k in ks ==> !IsKept(Shown(m.light), k)
    ensures Flat(m, ks, msg) == m
    decreases |ks|
  {
    if ks != [] {
      var init, k := ks[..|ks| - 1], ks[|ks| - 1];
      assert forall x :: x in init ==> x in ks;
      FlatNothingKept(m, init, msg);
      assert k in ks;
    }
  }

  /** Apart from the rendered groups, a traversal is the flat traversal of the options it visits. */
  lemma {:induction false} VisitFlat(m: Mirror, nodes: seq<Node>, parent: Option<nat>, msg: string)
    ensures Core(Visit(m, nodes, parent, msg)) == Core(Flat(m, OptionIndices(nodes), msg))
    decreases nodes
  {
    if nodes != [] {
      var init, last := nodes[..|nodes| - 1], nodes[|nodes| - 1];
      var v1, f1 := Visit(m, init, parent, msg), Flat(m, OptionIndices(init), msg);
      VisitFlat(m, init, parent, msg);
      NodeFlat(v1, last, parent, msg);
      FlatCore(v1, f1, NodeOptionIndices(last), msg);
      FlatConcat(m, OptionIndices(init), NodeOptionIndices(last), msg);
    }
  }

  lemma {:induction false} NodeFlat(m: Mirror, node: Node, parent: Option<nat>, msg: string)
    ensures Core(VisitNode(m, node, parent, msg)) == Core(Flat(m, NodeOptionIndices(node), msg))
    decreases node
  {
    match node
    case Opt(k) =>
      assert [k][..0] == [];
      if k < |m.light| && !IsBlank(m.light[k].text) {
        AddOptionCore(m, m, k, parent, None, msg);
      }
    case Group(c, cs) =>
      var sh := Shown(m.light);
      if !HasShown(sh, cs) {
        NoneShownReached(sh, cs);
        KeptMembers(sh, OptionIndices(cs));
        FlatNothingKept(m, OptionIndices(cs), msg);
      } else {
        var m' := m.(groups := m.groups + [RenderGroup(c, [], false)]);
        VisitFlat(m', cs, Some(|m.groups|), msg);
        FlatCore(m', m, OptionIndices(cs), msg);
      }
    case Other(_) =>
  }

  /** The clones of the options `ks` of `light`, the one at position `p` selected. */
  function Clones(light: seq<SourceOption>, ks: seq<nat>, p: Option<nat>): (r: seq<Entry>)
    requires forall i :: 0 <= i < |ks| ==> ks[i] < |light|
    ensures |r| == |ks|
  {
    seq(|ks|, i requires 0 <= i < |ks| => Clone(light[ks[i]], p.Some? && p.value == i))
  }

  lemma ClonesSnoc(light: seq<SourceOption>, ks: seq<nat>, k: nat, p: Option<nat>)
    requires forall i :: 0 <= i < |ks| ==> ks[i] < |light|
    requires k < |light|
    ensures forall i :: 0 <= i < |ks + [k]| ==> (ks + [k])[i] < |light|
    ensures Clones(light, ks + [k], p) == Clones(light, ks, p) + [Clone(light[k], p.Some? && p.value == |ks|)]
  {
    var l, r := Clones(light, ks + [k], p), Clones(light, ks, p) + [Clone(light[k], p.Some? && p.value == |ks|)];
    forall i | 0 <= i < |l| ensures l[i] == r[i] {
      if i < |ks| {
        assert (ks + [k])[i] == ks[i];
      }
    }
  }

  /** A pick outside `ks` selects none of its clones. */
  lemma ClonesNoPick(light: seq<SourceOption>, ks: seq<nat>, p: Option<nat>)
    requires forall i :: 0 <= i < |ks| ==> ks[i] < |light|
    requires p.Some? ==> p.value >= |ks|
    ensures Clones(light, ks, p) == Clones(light, ks, None)
    ensures forall i :: 0 <= i < |ks| ==> !Clones(light, ks, None)[i].selected
  {
  }

  /** Clearing the selected flags of fresh, unselected entries changes nothing. */
  lemma ClearSelectedExtend(store: seq<Entry>, extra: seq<Entry>, ids: seq<nat>, more: seq<nat>)
    requires forall i :: 0 <= i < |extra| ==> !extra[i].selected
    requires forall id :: id in more ==> id >= |store|
    ensures ClearSelected(store + extra, ids + more) == ClearSelected(store, ids) + extra
  {
    var l, r := ClearSelected(store + extra, ids + more), ClearSelected(store, ids) + extra;
    forall id | 0 <= id < |l| ensures l[id] == r[id] {
      if id < |store| {
        assert id in ids + more <==> id in ids;
      } else {
        assert (store + extra)[id] == extra[id - |store|];
      }
    }
  }

  /** After the selection of a clone of option `k` is written back, no later option is picked. */
  lemma PickSuppressed(light: seq<SourceOption>, k: nat, x: nat)
    requires k < x < |light|
    ensures !Picks(Reflect(light, light[k].value, light[k].text), x)
  {
    ReflectOwnOption(light, k);
  }

  /** The host's options after a traversal has picked `p` among the mirrored options `ks`. */
  function LightAfter(light: seq<SourceOption>, ks: seq<nat>, p: Option<nat>): (r: seq<SourceOption>)
    requires p.Some? ==> p.value < |ks| && ks[p.value] < |light|
  {
    if p.None? then light else Reflect(light, light[ks[p.value]].value, light[ks[p.value]].text)
  }

  /** A traversal changes the host's options in their selected flags only. */
  lemma LightAfterFlags(light: seq<SourceOption>, ks: seq<nat>, p: Option<nat>)
    requires p.Some? ==> p.value < |ks| && ks[p.value] < |light|
    ensures var r := LightAfter(light, ks, p);
      && |r| == |light|
      && forall k :: 0 <= k < |light| ==> r[k].(selected := false) == light[k].(selected := false)
  {
  }

  /** `r` lists `n` entries appended to those of `m`, in its views as their flags say. */
  predicate Listed(m: Mirror, n: nat, r: Mirror)
  {
    var ids := Ids(|m.store|, n);
    && |r.store| == |m.store| + n
    && r.all == m.all + ids
    && r.visible == m.visible + Filter(r.store, ids, NotHidden)
    && r.available == m.available + Filter(r.store, ids, Selectable)
  }

  /** `r`'s selection is what picking the option at position `p` of the options `ks` of `m` makes of `m`'s. */
  predicate PickedAt(m: Mirror, ks: seq<nat>, p: Option<nat>, msg: string, r: Mirror)
    requires p.Some? ==> p.value < |ks| && ks[p.value] < |m.light|
  {
    && r.light == LightAfter(m.light, ks, p)
    && (p.None? ==>
          && r.current == m.current && r.formValue == m.formValue && r.validity == m.validity
          && r.presentation == m.presentation && r.changes == m.changes)
    && (p.Some? ==>
          var s := m.light[ks[p.value]];
          && r.current == Some(|m.store| + p.value) && r.formValue == FormValueOf(s.value)
          && r.validity == ValidityOf(s.value, msg) && r.presentation == LabelOf(s.text) && r.changes == m.changes + 1)
  }

  /** `r`'s selection is what picking among the options `ks` of `m` makes of `m`'s. */
  predicate PickedFrom(m: Mirror, ks: seq<nat>, msg: string, r: Mirror)
  {
    PickedAt(m, ks, FirstPick(m.light, ks), msg, r)
  }

  /**
   * `r` is `m` after the mirrored options `ks` have been traversed in this
   * order: each has a fresh entry, cloned from it and listed, visible unless
   * hidden and available unless also disabled; the first of them that is
   * selected and enabled is current and is the only one of them selected, and
   * the entries listed before lose their selected flags; with none, the
   * selection is untouched.
   */
  predicate Traversed(m: Mirror, ks: seq<nat>, msg: string, r: Mirror)
  {
    var p := FirstPick(m.light, ks);
    && (forall i :: 0 <= i < |ks| ==> ks[i] < |m.light|)
    && Listed(m, |ks|, r)
    && r.store == (if p.Some? then ClearSelected(m.store, m.all) else m.store) + Clones(m.light, ks, p)
    && PickedFrom(m, ks, msg, r)
  }

  /** What one mirrored option does to the store, the option lists and the selection. */
  lemma AddOptionShape(m: Mirror, k: nat, parent: Option<nat>, msg: string)
    requires k < |m.light|
    ensures var r, s, id := AddOption(m, k, parent, msg), m.light[k], |m.store|;
      var e := Clone(s, Picks(m.light, k));
      && r.store == (if Picks(m.light, k) then ClearSelected(m.store, m.all) else m.store) + [e]
      && r.all == m.all + [id]
      && r.visible == m.visible + (if Allows(NotHidden, e) then [id] else [])
      && r.available == m.available + (if Allows(Selectable, e) then [id] else [])
      && r.groups == Attach(m.groups, parent, [id])
      && (Picks(m.light, k) ==>
            && r.current == Some(id) && r.formValue == FormValueOf(s.value) && r.validity == ValidityOf(s.value, msg)
            && r.presentation == LabelOf(s.text) && r.changes == m.changes + 1 && r.light == Reflect(m.light, s.value, s.text))
      && (!Picks(m.light, k) ==>
            && r.current == m.current && r.formValue == m.formValue && r.validity == m.validity
            && r.presentation == m.presentation && r.changes == m.changes && r.light == m.light)
  {
    var s, id := m.light[k], |m.store|;
    var r := AddOption(m, k, parent, msg);
    var e := Clone(s, Picks(m.light, k));
    var base := if Picks(m.light, k) then ClearSelected(m.store, m.all) else m.store;
    assert r.store == base + [e] by {
      forall i | 0 <= i < |r.store| ensures r.store[i] == (base + [e])[i] {
      }
    }
  }

  /** Where the first pick in `x + y` is. */
  lemma {:induction false} FirstPickConcat(light: seq<SourceOption>, x: seq<nat>, y: seq<nat>)
    ensures FirstPick(light, x + y) ==
      if FirstPick(light, x).Some? then FirstPick(light, x)
      else if FirstPick(light, y).Some? then Some(|x| + FirstPick(light, y).value)
      else None
  {
    var p, px, py := FirstPick(light, x + y), FirstPick(light, x), FirstPick(light, y);
    if px.None? && py.Some? {
      assert (x + y)[|x| + py.value] == y[py.value];
      forall j | 0 <= j < |x| + py.value ensures !Picks(light, (x + y)[j]) {
        if j >= |x| {
          assert (x + y)[j] == y[j - |x|];
        }
      }
    } else if px.None? && py.None? {
      forall j | 0 <= j < |x + y| ensures !Picks(light, (x + y)[j]) {
        if j >= |x| {
          assert (x + y)[j] == y[j - |x|];
        }
      }
    } else if px.Some? {
      assert (x + y)[px.value] == x[px.value];
      forall j | 0 <= j < px.value ensures !Picks(light, (x + y)[j]) {
        assert (x + y)[j] == x[j];
      }
    }
    FirstPickUnique(light, x + y, p, if px.Some? then px else if py.Some? then Some(|x| + py.value) else None);
  }

  /** The first pick is determined by its contract. */
  lemma FirstPickUnique(light: seq<SourceOption>, ks: seq<nat>, p: Option<nat>, q: Option<nat>)
    requires p == FirstPick(light, ks)
    requires q.Some? ==> q.value < |ks| && Picks(light, ks[q.value]) && forall j :: 0 <= j < q.value ==> !Picks(light, ks[j])
    requires q.None? ==> forall j :: 0 <= j < |ks| ==> !Picks(light, ks[j])
    ensures p == q
  {
    if p.Some? && q.Some? {
      assert !(p.value < q.value) && !(q.value < p.value);
    }
  }

  /** One more entry, listed and put in the views as its flags say, extends what is listed. */
  lemma ListedStep(m: Mirror, n: nat, r: Mirror, r2: Mirror, e: Entry)
    requires Listed(m, n, r)
    requires |r2.store| == |r.store| + 1 && r2.store[|r.store|] == e
    requires forall i :: 0 <= i < |r.store| ==> r2.store[i].(selected := false) == r.store[i].(selected := false)
    requires r2.all == r.all + [|r.store|]
    requires r2.visible == r.visible + (if Allows(NotHidden, e) then [|r.store|] else [])
    requires r2.available == r.available + (if Allows(Selectable, e) then [|r.store|] else [])
    ensures Listed(m, n + 1, r2)
  {
    var b := |m.store|;
    var ids := Ids(b, n);
    IdsSnoc(b, n);
    IdsIncreasing(b, n);
    forall id | id in ids
      ensures id < |r.store| && id < |r2.store|
      ensures Allows(NotHidden, r.store[id]) == Allows(NotHidden, r2.store[id])
      ensures Allows(Selectable, r.store[id]) == Allows(Selectable, r2.store[id])
    {
      assert r2.store[id].(selected := false) == r.store[id].(selected := false);
    }
    FilterStable(r.store, r2.store, ids, NotHidden);
    FilterStable(r.store, r2.store, ids, Selectable);
    assert Ids(b, n + 1)[..n] == ids;
    ConcatAssoc(m.all, ids, [b + n]);
    ConcatAssoc(m.visible, Filter(r.store, ids, NotHidden), if Allows(NotHidden, e) then [b + n] else []);
    ConcatAssoc(m.available, Filter(r.store, ids, Selectable), if Allows(Selectable, e) then [b + n] else []);
  }

  /**
   * The next mirrored option `k`, later than all of `ks`, is picked exactly when
   * none of `ks` was and it is selected and enabled: once an option has been
   * picked and written back, every later option has lost its selected flag.
   */
  lemma NextPick(m: Mirror, ks: seq<nat>, msg: string, r: Mirror, k: nat)
    requires Traversed(m, ks, msg, r)
    requires k < |m.light| && forall x :: x in ks ==> x < k
    ensures var p := FirstPick(m.light, ks);
      && (Picks(r.light, k) <==> p.None? && Picks(m.light, k))
      && FirstPick(m.light, ks + [k]) == (if p.Some? then p else if Picks(m.light, k) then Some(|ks|) else None)
      && r.light[k].(selected := false) == m.light[k].(selected := false)
  {
    var p := FirstPick(m.light, ks);
    LightAfterFlags(m.light, ks, p);
    FirstPickConcat(m.light, ks, [k]);
    assert [k][1..] == [];
    if p.Some? {
      assert ks[p.value] in ks;
      PickSuppressed(m.light, ks[p.value], k);
    }
  }

  /** Mirroring one more option, later than all of `ks`, extends the traversal of `ks` by it. */
  lemma StepTraversed(m: Mirror, ks: seq<nat>, msg: string, r: Mirror, k: nat)
    requires Traversed(m, ks, msg, r)
    requires k < |m.light| && forall x :: x in ks ==> x < k
    ensures Traversed(m, ks + [k], msg, AddOption(r, k, None, msg))
  {
    NextPick(m, ks, msg, r, k);
    AddOptionShape(r, k, None, msg);
    var r2, pick := AddOption(r, k, None, msg), Picks(r.light, k);
    var p, p' := FirstPick(m.light, ks), FirstPick(m.light, ks + [k]);
    var e := Clone(r.light[k], pick);
    assert e == Clone(m.light[k], pick) by {
      assert r.light[k].text == m.light[k].text && r.light[k].value == m.light[k].value;
    }
    StoreExtended(r.store, r.all, pick, e, r2.store);
    ListedStep(m, |ks|, r, r2, e);
    StoreStep(m.store, m.all, m.light, ks, k, p, p', r.store, r.all, pick);
    LightAfterFlags(m.light, ks, p);
    PickStep(m, ks, p, p', msg, r, k, r2);
  }

  /** One more entry appended, possibly after clearing the selected flags, leaves the others as they were but for those flags. */
  lemma StoreExtended(store: seq<Entry>, ids: seq<nat>, pick: bool, e: Entry, store': seq<Entry>)
    requires store' == (if pick then ClearSelected(store, ids) else store) + [e]
    ensures |store'| == |store| + 1 && store'[|store|] == e
    ensures forall i :: 0 <= i < |store| ==> store'[i].(selected := false) == store[i].(selected := false)
  {
    forall i | 0 <= i < |store| ensures store'[i].(selected := false) == store[i].(selected := false) {
      assert store'[i] == (if pick then ClearSelected(store, ids) else store)[i];
    }
  }

  /** The store after one more mirrored option is the store of the longer traversal. */
  lemma StoreStep(store: seq<Entry>, all: seq<nat>, light: seq<SourceOption>, ks: seq<nat>, k: nat, p: Option<nat>, p': Option<nat>, rs: seq<Entry>, ra: seq<nat>, pick: bool)
    requires forall i :: 0 <= i < |ks| ==> ks[i] < |light|
    requires k < |light|
    requires p.Some? ==> p.value < |ks|
    requires pick ==> p.None?
    requires p' == (if p.Some? then p else if pick then Some(|ks|) else None)
    requires rs == (if p.Some? then ClearSelected(store, all) else store) + Clones(light, ks, p)
    requires ra == all + Ids(|store|, |ks|)
    ensures forall i :: 0 <= i < |ks + [k]| ==> (ks + [k])[i] < |light|
    ensures (if pick then ClearSelected(rs, ra) else rs) + [Clone(light[k], pick)]
      == (if p'.Some? then ClearSelected(store, all) else store) + Clones(light, ks + [k], p')
  {
    ClonesSnoc(light, ks, k, p');
    var e := Clone(light[k], pick);
    if pick {
      var newer := Clones(light, ks, None);
      ClonesNoPick(light, ks, p');
      IdsIncreasing(|store|, |ks|);
      ClearSelectedExtend(store, newer, all, Ids(|store|, |ks|));
      ConcatAssoc(ClearSelected(store, all), newer, [e]);
    } else {
      var base := if p.Some? then ClearSelected(store, all) else store;
      ConcatAssoc(base, Clones(light, ks, p), [e]);
    }
  }

  /** The selection after one more mirrored option is the selection of the longer traversal. */
  lemma PickStep(m: Mirror, ks: seq<nat>, p: Option<nat>, p': Option<nat>, msg: string, r: Mirror, k: nat, r2: Mirror)
    requires forall i :: 0 <= i < |ks| ==> ks[i] < |m.light|
    requires k < |m.light| && |r.light| == |m.light|
    requires p.Some? ==> p.value < |ks|
    requires PickedAt(m, ks, p, msg, r) && |r.store| == |m.store| + |ks|
    requires Picks(r.light, k) <==> p.None? && Picks(m.light, k)
    requires p' == (if p.Some? then p else if Picks(m.light, k) then Some(|ks|) else None)
    requires var s, id, pick := r.light[k], |r.store|, Picks(r.light, k);
      && (pick ==>
            && r2.current == Some(id) && r2.formValue == FormValueOf(s.value) && r2.validity == ValidityOf(s.value, msg)
            && r2.presentation == LabelOf(s.text) && r2.changes == r.changes + 1 && r2.light == Reflect(r.light, s.value, s.text))
      && (!pick ==>
            && r2.current == r.current && r2.formValue == r.formValue && r2.validity == r.validity
            && r2.presentation == r.presentation && r2.changes == r.changes && r2.light == r.light)
    ensures forall i :: 0 <= i < |ks + [k]| ==> (ks + [k])[i] < |m.light|
    ensures PickedAt(m, ks + [k], p', msg, r2)
  {
    if Picks(r.light, k) {
      assert (ks + [k])[|ks|] == k;
    } else if p.Some? {
      assert (ks + [k])[p.value] == ks[p.value];
    }
  }

  /** The flat traversal of options in document order is the traversal of those of them with non-blank text. */
  lemma {:induction false} FlatTraversed(m: Mirror, ks: seq<nat>, msg: string)
    requires Increasing(ks)
    ensures Traversed(m, Kept(Shown(m.light), ks), msg, Flat(m, ks, msg))
    decreases |ks|
  {
    var sh := Shown(m.light);
    if ks == [] {
      assert m.store + Clones(m.light, [], None) == m.store;
    } else {
      var init, k := ks[..|ks| - 1], ks[|ks| - 1];
      assert ks == init + [k];
      IncreasingSplit(init, [k]);
      assert k in [k];
      FlatTraversed(m, init, msg);
      FlatStep(m, init, k, msg);
    }
  }

  /** One more host option, after all of `init`, extends the flat traversal by its mirror when it has one. */
  lemma FlatStep(m: Mirror, init: seq<nat>, k: nat, msg: string)
    requires forall x :: x in init ==> x < k
    requires Traversed(m, Kept(Shown(m.light), init), msg, Flat(m, init, msg))
    ensures Traversed(m, Kept(Shown(m.light), init + [k]), msg, Flat(m, init + [k], msg))
  {
    var sh := Shown(m.light);
    var kk, r := Kept(sh, init), Flat(m, init, msg);
    assert (init + [k])[..|init|] == init;
    KeptMembers(sh, init);
    LightAfterFlags(m.light, kk, FirstPick(m.light, kk));
    if IsKept(sh, k) {
      assert r.light[k].text == m.light[k].text by {
        assert r.light[k].(selected := false) == m.light[k].(selected := false);
      }
      StepTraversed(m, kk, msg, r, k);
    } else {
      assert kk + [] == kk;
      if k < |r.light| {
        assert r.light[k].text == m.light[k].text by {
          assert r.light[k].(selected := false) == m.light[k].(selected := false);
        }
      }
    }
  }

  /** Whether `r` is a traversal does not depend on its rendered groups. */
  lemma TraversedCore(m: Mirror, ks: seq<nat>, msg: string, r1: Mirror, r2: Mirror)
    requires Core(r1) == Core(r2) && Traversed(m, ks, msg, r1)
    ensures Traversed(m, ks, msg, r2)
  {
    assert r2 == r1.(groups := r2.groups);
  }

  /** Visiting child nodes mirrors the options under them that have non-blank text, in document order. */
  lemma VisitTraversed(m: Mirror, nodes: seq<Node>, parent: Option<nat>, msg: string)
    requires WellFormed(nodes, m.light)
    ensures Traversed(m, Kept(Shown(m.light), OptionIndices(nodes)), msg, Visit(m, nodes, parent, msg))
  {
    VisitFlat(m, nodes, parent, msg);
    FlatTraversed(m, OptionIndices(nodes), msg);
    TraversedCore(m, Kept(Shown(m.light), OptionIndices(nodes)), msg, Flat(m, OptionIndices(nodes), msg), Visit(m, nodes, parent, msg));
  }

  /**
   * A resync lists afresh, in document order, one new entry for each host
   * option with non-blank text, each a clone of that option; the first of them
   * that is selected and enabled becomes the current entry and is the only
   * listed entry selected, and with none the current entry of the state before
   * survives.
   */
  lemma ResyncMirrors(m: Mirror, nodes: seq<Node>, msg: string)
    requires WellFormed(nodes, m.light)
    ensures var ks := Kept(Shown(m.light), OptionIndices(nodes));
      && (forall k :: k in ks <==> k in OptionIndices(nodes) && k < |m.light| && !IsBlank(m.light[k].text))
      && (forall i :: 0 <= i < |ks| ==> ks[i] < |m.light|)
    ensures var r, n, ks := Resync(m, nodes, msg), |m.store|, Kept(Shown(m.light), OptionIndices(nodes));
      var p := FirstPick(m.light, ks);
      && r.store == m.store + Clones(m.light, ks, p)
      && r.all == Ids(n, |ks|)
      && r.visible == Filter(r.store, r.all, NotHidden)
      && r.available == Filter(r.store, r.all, Selectable)
      && (forall id :: id in r.all ==> (r.store[id].selected <==> p.Some? && id == n + p.value))
      && PickedFrom(m, ks, msg, r)
  {
    var m0 := m.(all := [], visible := [], available := [], groups := []);
    var ks := Kept(Shown(m.light), OptionIndices(nodes));
    KeptMembers(Shown(m.light), OptionIndices(nodes));
    forall k | k in OptionIndices(nodes) && k < |m.light| ensures IsKept(Shown(m.light), k) <==> !IsBlank(m.light[k].text) {
      ShownIff(m.light, k);
    }
    VisitTraversed(m0, nodes, None, msg);
    TraversedAfresh(m, m0, ks, msg, Resync(m, nodes, msg));
  }

  /** Whether `r`'s selection follows a pick depends only on the selection and the store size of the state before. */
  lemma PickedSame(m1: Mirror, m2: Mirror, ks: seq<nat>, p: Option<nat>, msg: string, r: Mirror)
    requires p.Some? ==> p.value < |ks| && ks[p.value] < |m1.light|
    requires m1.light == m2.light && |m1.store| == |m2.store| && m1.current == m2.current && m1.formValue == m2.formValue
    requires m1.validity == m2.validity && m1.presentation == m2.presentation && m1.changes == m2.changes
    requires PickedAt(m1, ks, p, msg, r)
    ensures PickedAt(m2, ks, p, msg, r)
  {
  }

  lemma TraversedAfresh(m: Mirror, m0: Mirror, ks: seq<nat>, msg: string, r: Mirror)
    requires m0 == m.(all := [], visible := [], available := [], groups := [])
    requires Traversed(m0, ks, msg, r)
    ensures var n, p := |m.store|, FirstPick(m.light, ks);
      && r.store == m.store + Clones(m.light, ks, p)
      && r.all == Ids(n, |ks|)
      && r.visible == Filter(r.store, r.all, NotHidden)
      && r.available == Filter(r.store, r.all, Selectable)
      && (forall id :: id in r.all ==> (r.store[id].selected <==> p.Some? && id == n + p.value))
      && PickedFrom(m, ks, msg, r)
  {
    var n, p := |m.store|, FirstPick(m.light, ks);
    PickedSame(m0, m, ks, p, msg, r);
    var ids := Ids(n, |ks|);
    assert r.all == ids by {
      assert [] + ids == ids;
    }
    assert r.visible == Filter(r.store, ids, NotHidden) by {
      assert [] + Filter(r.store, ids, NotHidden) == Filter(r.store, ids, NotHidden);
    }
    assert r.available == Filter(r.store, ids, Selectable) by {
      assert [] + Filter(r.store, ids, Selectable) == Filter(r.store, ids, Selectable);
    }
    assert r.store == m.store + Clones(m.light, ks, p) by {
      assert ClearSelected(m.store, []) == m.store;
    }
    IdsIncreasing(n, |ks|);
    ClonesSelected(m.store, m.light, ks, p);
    forall id | id in r.all ensures r.store[id].selected <==> p.Some? && id == n + p.value {
      assert n <= id < n + |ks|;
    }
  }

  /** Of the clones appended after `store`, exactly the one at the pick is selected. */
  lemma ClonesSelected(store: seq<Entry>, light: seq<SourceOption>, ks: seq<nat>, p: Option<nat>)
    requires forall i :: 0 <= i < |ks| ==> ks[i] < |light|
    ensures var s, n := store + Clones(light, ks, p), |store|;
      forall id :: n <= id < n + |ks| ==> (s[id].selected <==> p.Some? && id == n + p.value)
  {
    var s, n := store + Clones(light, ks, p), |store|;
    forall id | n <= id < n + |ks| ensures s[id].selected <==> p.Some? && id == n + p.value {
      assert s[id] == Clones(light, ks, p)[id - n];
    }
  }

  /** Mirroring an option with non-blank text keeps the state consistent. */
  lemma AddOptionConsistent(m: Mirror, k: nat, parent: Option<nat>, msg: string)
    requires Consistent(m, msg) && k < |m.light| && !IsBlank(m.light[k].text)
    requires parent.None? || parent.value < |m.groups|
    ensures Consistent(AddOption(m, k, parent, msg), msg)
    ensures |AddOption(m, k, parent, msg).groups| == |m.groups|
  {
    AddOptionShape(m, k, parent, msg);
    ConsistentStep(m, m.light[k], Picks(m.light, k), parent, msg, AddOption(m, k, parent, msg));
  }

  lemma ConsistentStep(m: Mirror, s: SourceOption, pick: bool, parent: Option<nat>, msg: string, r: Mirror)
    requires Consistent(m, msg) && !IsBlank(s.text)
    requires parent.None? || parent.value < |m.groups|
    requires var id, e := |m.store|, Clone(s, pick);
      && r.store == (if pick then ClearSelected(m.store, m.all) else m.store) + [e]
      && r.all == m.all + [id]
      && r.visible == m.visible + (if Allows(NotHidden, e) then [id] else [])
      && r.available == m.available + (if Allows(Selectable, e) then [id] else [])
      && r.groups == Attach(m.groups, parent, [id])
      && (pick ==> r.current == Some(id) && r.formValue == FormValueOf(s.value) && r.validity == ValidityOf(s.value, msg))
      && (!pick ==> r.current == m.current && r.formValue == m.formValue && r.validity == m.validity)
    ensures Consistent(r, msg)
  {
    var id, e := |m.store|, Clone(s, pick);
    assert s.text != "";
    ViewsStep(m.store, m.all, m.visible, m.available, r.store, e);
    AttachWithin(m.groups, parent, [id], m.all);
    LabelledStep(m.store, m.all, pick, e, r.store);
    SelectedStep(m.store, m.all, pick, e, r.store);
    assert Selection(r, msg);
  }

  /** One more entry with a non-blank text and a value keeps every listed entry so. */
  lemma LabelledStep(store: seq<Entry>, all: seq<nat>, pick: bool, e: Entry, store': seq<Entry>)
    requires forall id :: id in all ==> id < |store| && !IsBlank(store[id].text) && store[id].value != ""
    requires !IsBlank(e.text) && e.value != ""
    requires store' == (if pick then ClearSelected(store, all) else store) + [e]
    ensures forall id :: id in all + [|store|] ==> id < |store'| && !IsBlank(store'[id].text) && store'[id].value != ""
  {
    forall x | x in all + [|store|] ensures x < |store'| && !IsBlank(store'[x].text) && store'[x].value != "" {
      if x != |store| {
        assert x in all;
        assert store'[x].(selected := false) == store[x].(selected := false);
      }
    }
  }

  /** One more entry, selected only when all listed ones were cleared, keeps at most one listed entry selected. */
  lemma SelectedStep(store: seq<Entry>, all: seq<nat>, pick: bool, e: Entry, store': seq<Entry>)
    requires AtMostOneSelected(store, all) && e.selected == pick
    requires store' == (if pick then ClearSelected(store, all) else store) + [e]
    ensures AtMostOneSelected(store', all + [|store|])
  {
    var id := |store|;
    forall x | x in all + [id] && x < |store'| && store'[x].selected ensures x == id || (!pick && x in all && store[x].selected) {
      if x != id {
        assert store'[x] == (if pick then ClearSelected(store, all) else store)[x];
      }
    }
  }

  /** One more entry, put in the views as its flags say, keeps the views in order. */
  lemma ViewsStep(store: seq<Entry>, all: seq<nat>, visible: seq<nat>, available: seq<nat>, store': seq<Entry>, e: Entry)
    requires ViewsHold(store, all, visible, available)
    requires |store'| == |store| + 1 && store'[|store|] == e
    requires forall i :: 0 <= i < |store| ==> store'[i].(selected := false) == store[i].(selected := false)
    ensures var id := |store|;
      ViewsHold(store', all + [id], visible + (if Allows(NotHidden, e) then [id] else []),
        available + (if Allows(Selectable, e) then [id] else []))
  {
    var id := |store|;
    ConcatIncreasing(all, [id]);
    forall x | x in visible ensures x < |store| && Allows(NotDisabled, store[x]) == Allows(NotDisabled, store'[x]) {
      assert store'[x].(selected := false) == store[x].(selected := false);
    }
    FilterStable(store, store', visible, NotDisabled);
    if Allows(NotHidden, e) {
      ConcatIncreasing(visible, [id]);
      assert (visible + [id])[..|visible|] == visible;
    } else {
      assert visible + [] == visible && available + [] == available;
    }
  }

  /** A traversal keeps the state consistent and renders groups only after the existing ones. */
  lemma {:induction false} VisitConsistent(m: Mirror, nodes: seq<Node>, parent: Option<nat>, msg: string)
    requires Consistent(m, msg) && (parent.None? || parent.value < |m.groups|)
    ensures Consistent(Visit(m, nodes, parent, msg), msg)
    ensures |Visit(m, nodes, parent, msg).groups| >= |m.groups|
    decreases nodes
  {
    if nodes != [] {
      var init := nodes[..|nodes| - 1];
      VisitConsistent(m, init, parent, msg);
      NodeConsistent(Visit(m, init, parent, msg), nodes[|nodes| - 1], parent, msg);
    }
  }

  lemma {:induction false} NodeConsistent(m: Mirror, node: Node, parent: Option<nat>, msg: string)
    requires Consistent(m, msg) && (parent.None? || parent.value < |m.groups|)
    ensures Consistent(VisitNode(m, node, parent, msg), msg)
    ensures |VisitNode(m, node, parent, msg).groups| >= |m.groups|
    decreases node
  {
    match node
    case Opt(k) =>
      if k < |m.light| && !IsBlank(m.light[k].text) {
        AddOptionConsistent(m, k, parent, msg);
      }
    case Group(c, cs) =>
      if HasShown(Shown(m.light), cs) {
        var m' := m.(groups := m.groups + [RenderGroup(c, [], false)]);
        assert Consistent(m', msg) by {
          forall g, x | 0 <= g < |m'.groups| && x in m'.groups[g].members ensures x in m'.all {
            assert g < |m.groups|;
            assert m'.groups[g] == m.groups[g];
          }
        }
        VisitConsistent(m', cs, Some(|m.groups|), msg);
      }
    case Other(_) =>
  }

  /** A resync leaves the state consistent. */
  lemma ResyncConsistent(m: Mirror, nodes: seq<Node>, msg: string)
    requires Selection(m, msg)
    ensures Consistent(Resync(m, nodes, msg), msg)
  {
    VisitConsistent(m.(all := [], visible := [], available := [], groups := []), nodes, None, msg);
  }

  /**
   * `r` is `m` after mirroring `count` more options, with the options `shown`
   * still the ones mirrored, the entries `members` appended to `parent` and
   * the groups `rendered` rendered after the existing ones.
   */
  predicate Renders(m: Mirror, shown: seq<bool>, count: nat, members: seq<nat>, rendered: seq<RenderGroup>, parent: Option<nat>, r: Mirror)
  {
    && Shown(r.light) == shown
    && |r.store| == |m.store| + count
    && r.groups == Attach(m.groups, parent, members) + rendered
  }

  /**
   * What a traversal renders: the options mirrored directly under `nodes` are
   * appended to `parent`, and the optgroups with an option of non-blank text
   * follow the groups already rendered, each holding the options mirrored
   * directly under it, numbered in mirroring order from the current store size.
   */
  lemma {:induction false} VisitRenders(m: Mirror, nodes: seq<Node>, parent: Option<nat>, msg: string)
    requires parent.None? || parent.value < |m.groups|
    ensures var sh, n := Shown(m.light), |m.store|;
      Renders(m, sh, Count(nodes, sh), Members(nodes, sh, n), Groups(nodes, sh, n, true), parent, Visit(m, nodes, parent, msg))
    decreases nodes
  {
    var sh, n := Shown(m.light), |m.store|;
    if nodes == [] {
      AttachNothing(m.groups, parent);
    } else {
      var init, last := nodes[..|nodes| - 1], nodes[|nodes| - 1];
      var r1 := Visit(m, init, parent, msg);
      VisitRenders(m, init, parent, msg);
      var n1 := n + Count(init, sh);
      NodeRenders(r1, last, parent, msg);
      RendersThen(m, r1, VisitNode(r1, last, parent, msg), sh, Count(init, sh), NodeCount(last, sh),
        Members(init, sh, n), NodeMembers(last, sh, n1), Groups(init, sh, n, true), NodeGroups(last, sh, n1, true), parent);
    }
  }

  lemma RendersThen(m: Mirror, r1: Mirror, r: Mirror, sh: seq<bool>, c1: nat, c2: nat, m1: seq<nat>, m2: seq<nat>,
                    g1: seq<RenderGroup>, g2: seq<RenderGroup>, parent: Option<nat>)
    requires parent.None? || parent.value < |m.groups|
    requires Renders(m, sh, c1, m1, g1, parent, r1) && Renders(r1, sh, c2, m2, g2, parent, r)
    ensures Renders(m, sh, c1 + c2, m1 + m2, g1 + g2, parent, r)
  {
    AttachBefore(Attach(m.groups, parent, m1), g1, parent, m2);
    AttachTwice(m.groups, parent, m1, m2);
  }

  lemma {:induction false} NodeRenders(m: Mirror, node: Node, parent: Option<nat>, msg: string)
    requires parent.None? || parent.value < |m.groups|
    ensures var sh, n := Shown(m.light), |m.store|;
      Renders(m, sh, NodeCount(node, sh), NodeMembers(node, sh, n), NodeGroups(node, sh, n, true), parent, VisitNode(m, node, parent, msg))
    decreases node
  {
    var sh := Shown(m.light);
    AttachNothing(m.groups, parent);
    match node
    case Opt(k) =>
      if k < |m.light| {
        ShownIff(m.light, k);
        if !IsBlank(m.light[k].text) {
          OptRenders(m, k, parent, msg);
        }
      }
    case Group(c, cs) =>
      CountKept(cs, sh);
      if !HasShown(sh, cs) {
        NoneShownReached(sh, cs);
      } else {
        var m', n := m.(groups := m.groups + [RenderGroup(c, [], false)]), |m.store|;
        VisitRenders(m', cs, Some(|m.groups|), msg);
        GroupRenders(m, m', c, sh, Count(cs, sh), Members(cs, sh, n), Groups(cs, sh, n, true), parent,
          Visit(m', cs, Some(|m.groups|), msg));
      }
    case Other(_) =>
  }

  lemma OptRenders(m: Mirror, k: nat, parent: Option<nat>, msg: string)
    requires k < |m.light|
    ensures Renders(m, Shown(m.light), 1, [|m.store|], [], parent, AddOption(m, k, parent, msg))
  {
    AddOptionShape(m, k, parent, msg);
    ShownIgnoresSelected(m.light, AddOption(m, k, parent, msg).light);
  }

  lemma GroupRenders(m: Mirror, m': Mirror, c: string, sh: seq<bool>, cnt: nat, members: seq<nat>, rendered: seq<RenderGroup>, parent: Option<nat>, r: Mirror)
    requires m'.groups == m.groups + [RenderGroup(c, [], false)] && |m'.store| == |m.store|
    requires Renders(m', sh, cnt, members, rendered, Some(|m.groups|), r)
    ensures Renders(m, sh, cnt, [], [RenderGroup(c, members, false)] + rendered, parent, r)
  {
    AttachNothing(m.groups, parent);
    assert [] + members == members;
  }

  /** A resync renders exactly the optgroups that hold an option with non-blank text, in document order. */
  lemma ResyncRenders(m: Mirror, nodes: seq<Node>, msg: string)
    ensures var sh := Shown(m.light);
      Resync(m, nodes, msg).groups == Groups(nodes, sh, |m.store|, true)
  {
    var m0 := m.(all := [], visible := [], available := [], groups := []);
    VisitRenders(m0, nodes, None, msg);
    assert Attach([], None, Members(nodes, Shown(m.light), |m.store|)) == [];
  }
}
