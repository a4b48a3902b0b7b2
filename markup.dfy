/**
 * The host's light DOM as the element reads it: its child nodes (options,
 * optgroups, anything else) and its `<option>` elements in document order, and
 * the functions that say what a resync makes of them.
 */
module Markup {
  import opened Wrappers
  import opened Text
  import opened Seqs
  import opened Views

  /**
   * One `<option>` of the host. `value` is what the DOM's `.value` reports for it:
   * its value attribute or, without one, its `text` (the text content with ASCII
   * white space stripped and collapsed). The model takes it as given.
   */
  datatype SourceOption = SourceOption(text: string, value: string, selected: bool, disabled: bool, hidden: bool)

  /**
   * A child node of the host: an option, given by its position among the host's
   * options in document order; an optgroup with its label and children; or any
   * other node (text, comments, other elements), with the positions of the
   * options it contains, which a traversal never reaches.
   */
  datatype Node = Opt(index: nat) | Group(caption: string, children: seq<Node>) | Other(options: seq<nat>)

  /** The options a traversal of `nodes` reaches, through optgroups only, in document order. */
  function OptionIndices(nodes: seq<Node>): seq<nat>
    decreases nodes
  {
    if nodes == [] then [] else OptionIndices(nodes[..|nodes| - 1]) + NodeOptionIndices(nodes[|nodes| - 1])
  }

  function NodeOptionIndices(node: Node): seq<nat>
    decreases node
  {
    match node
    case Opt(k) => [k]
    case Group(_, cs) => OptionIndices(cs)
    case Other(_) => []
  }

  /** Every option under `nodes`, inside other elements too, in document order (`querySelectorAll('option')`). */
  function AllOptionIndices(nodes: seq<Node>): seq<nat>
    decreases nodes
  {
    if nodes == [] then [] else AllOptionIndices(nodes[..|nodes| - 1]) + NodeAllOptionIndices(nodes[|nodes| - 1])
  }

  function NodeAllOptionIndices(node: Node): seq<nat>
    decreases node
  {
    match node
    case Opt(k) => [k]
    case Group(_, cs) => AllOptionIndices(cs)
    case Other(ks) => ks
  }

  /** Every option a traversal reaches is one of the options under the nodes. */
  lemma {:induction false} ReachedAmongAll(nodes: seq<Node>)
    ensures forall k :: k in OptionIndices(nodes) ==> k in AllOptionIndices(nodes)
    decreases nodes
  {
    if nodes != [] {
      ReachedAmongAll(nodes[..|nodes| - 1]);
      NodeReachedAmongAll(nodes[|nodes| - 1]);
    }
  }

  lemma {:induction false} NodeReachedAmongAll(node: Node)
    ensures forall k :: k in NodeOptionIndices(node) ==> k in NodeAllOptionIndices(node)
    decreases node
  {
    if node.Group? {
      ReachedAmongAll(node.children);
    }
  }

  lemma {:induction false} OptionIndicesConcat(a: seq<Node>, b: seq<Node>)
    ensures OptionIndices(a + b) == OptionIndices(a) + OptionIndices(b)
    decreases |b|
  {
    if b == [] {
      assert a + b == a;
    } else {
      assert (a + b)[..|a + b| - 1] == a + b[..|b| - 1];
      OptionIndicesConcat(a, b[..|b| - 1]);
    }
  }

  /** The options of the markup appear in document order and exist. */
  predicate WellFormed(nodes: seq<Node>, light: seq<SourceOption>)
  {
    Increasing(OptionIndices(nodes)) && forall k :: k in OptionIndices(nodes) ==> k < |light|
  }

  /**
   * For each host option, whether it is mirrored: its text is not blank after
   * `trim`. This is the only thing about the options that decides the shape of
   * what a resync renders.
   */
  function Shown(light: seq<SourceOption>): (r: seq<bool>)
    ensures |r| == |light|
  {
    seq(|light|, m requires 0 <= m < |light| => !IsBlank(light[m].text))
  }

  /** The host option at `k` is mirrored exactly when its text is not blank. */
  lemma ShownIff(light: seq<SourceOption>, k: nat)
    requires k < |light|
    ensures IsKept(Shown(light), k) <==> !IsBlank(light[k].text)
  {
  }

  /** The option at `k` is mirrored. */
  predicate IsKept(shown: seq<bool>, k: nat)
  {
    k < |shown| && shown[k]
  }

  /** The options of `ks` that are mirrored, in the order of `ks`. */
  function Kept(shown: seq<bool>, ks: seq<nat>): seq<nat>
  {
    if ks == [] then []
    else
      var last := ks[|ks| - 1];
      Kept(shown, ks[..|ks| - 1]) + (if IsKept(shown, last) then [last] else [])
  }

  /** The mirrored options of `ks` are exactly those of its options that have non-blank text. */
  lemma {:induction false} KeptMembers(shown: seq<bool>, ks: seq<nat>)
    ensures forall k :: k in Kept(shown, ks) <==> k in ks && IsKept(shown, k)
    ensures |Kept(shown, ks)| <= |ks|
  {
    if ks != [] {
      KeptMembers(shown, ks[..|ks| - 1]);
      assert ks == ks[..|ks| - 1] + [ks[|ks| - 1]];
    }
  }

  lemma {:induction false} KeptConcat(shown: seq<bool>, a: seq<nat>, b: seq<nat>)
    ensures Kept(shown, a + b) == Kept(shown, a) + Kept(shown, b)
    decreases |b|
  {
    if b == [] {
      assert a + b == a;
    } else {
      assert (a + b)[..|a + b| - 1] == a + b[..|b| - 1];
      KeptConcat(shown, a, b[..|b| - 1]);
    }
  }

  /** Mirroring keeps the document order of the options. */
  lemma {:induction false} KeptIncreasing(shown: seq<bool>, ks: seq<nat>)
    requires Increasing(ks)
    ensures Increasing(Kept(shown, ks))
  {
    if ks != [] {
      var init, last := ks[..|ks| - 1], ks[|ks| - 1];
      KeptIncreasing(shown, init);
      KeptMembers(shown, init);
      forall x | x in Kept(shown, init) ensures x < last {
        var i :| 0 <= i < |ks| - 1 && ks[i] == x;
      }
      if IsKept(shown, last) {
        ConcatIncreasing(Kept(shown, init), [last]);
      }
    }
  }

  /**
   * Whether some option under `nodes`, inside other elements too, has non-blank
   * text: the test `options.filter(o => o.textContent.trim()).length` of an optgroup.
   */
  predicate HasShown(shown: seq<bool>, nodes: seq<Node>)
  {
    Kept(shown, AllOptionIndices(nodes)) != []
  }

  /** Without an option of non-blank text under them, the nodes mirror nothing. */
  lemma NoneShownReached(shown: seq<bool>, nodes: seq<Node>)
    requires !HasShown(shown, nodes)
    ensures Kept(shown, OptionIndices(nodes)) == []
  {
    ReachedAmongAll(nodes);
    KeptMembers(shown, AllOptionIndices(nodes));
    forall k | k in OptionIndices(nodes) ensures !IsKept(shown, k) {
      assert k in AllOptionIndices(nodes);
    }
    KeptNothing(shown, OptionIndices(nodes));
  }

  /** Options none of which has non-blank text leave nothing to mirror. */
  lemma {:induction false} KeptNothing(shown: seq<bool>, ks: seq<nat>)
    requires forall k :: k in ks ==> !IsKept(shown, k)
    ensures Kept(shown, ks) == []
  {
    if ks != [] {
      var init := ks[..|ks| - 1];
      assert ks[|ks| - 1] in ks;
      assert forall k :: k in init ==> k in ks;
      KeptNothing(shown, init);
    }
  }

  /** `cloneNode` of a host option, with the selected flag given. */
  function RawClone(s: SourceOption, selected: bool): Entry
  {
    Entry(s.text, s.value, s.disabled, s.hidden, selected)
  }

  /** An entry whose empty value has been replaced by its text. */
  function Defaulted(e: Entry): (r: Entry)
    ensures e.value != "" || e.text != "" ==> r.value != ""
    ensures e.value != "" ==> r == e
    ensures e.value == "" ==> r.value == e.text
    ensures r.(value := e.value) == e
  {
    if e.value == "" then e.(value := e.text) else e
  }

  /** A clone as it is listed: its value defaulted to its text when empty. */
  function Clone(s: SourceOption, selected: bool): Entry
  {
    Defaulted(RawClone(s, selected))
  }

  /** The option at `k` is marked selected and is not disabled, so cloning it selects it. */
  predicate Picks(light: seq<SourceOption>, k: nat)
  {
    k < |light| && light[k].selected && !light[k].disabled
  }

  /** The position in `ks` of the first option that would be selected, if any. */
  function FirstPick(light: seq<SourceOption>, ks: seq<nat>): (r: Option<nat>)
    ensures r.Some? ==> r.value < |ks| && Picks(light, ks[r.value])
    ensures r.Some? ==> forall j :: 0 <= j < r.value ==> !Picks(light, ks[j])
    ensures r.None? <==> forall j :: 0 <= j < |ks| ==> !Picks(light, ks[j])
  {
    if ks == [] then None
    else if Picks(light, ks[0]) then Some(0)
    else match FirstPick(light, ks[1..])
      case None => None
      case Some(i) => Some(i + 1)
  }

  /** The position in `ks` of the last option that would be selected, if any. */
  function LastPick(light: seq<SourceOption>, ks: seq<nat>): (r: Option<nat>)
    ensures r.Some? ==> r.value < |ks| && Picks(light, ks[r.value])
    ensures r.Some? ==> forall j :: r.value < j < |ks| ==> !Picks(light, ks[j])
    ensures r.None? <==> forall j :: 0 <= j < |ks| ==> !Picks(light, ks[j])
  {
    if ks == [] then None
    else if Picks(light, ks[|ks| - 1]) then Some(|ks| - 1)
    else LastPick(light, ks[..|ks| - 1])
  }

  /** How many options under `nodes` are mirrored. */
  function Count(nodes: seq<Node>, shown: seq<bool>): nat
    decreases nodes
  {
    if nodes == [] then 0 else Count(nodes[..|nodes| - 1], shown) + NodeCount(nodes[|nodes| - 1], shown)
  }

  function NodeCount(node: Node, shown: seq<bool>): nat
    decreases node
  {
    match node
    case Opt(k) => if IsKept(shown, k) then 1 else 0
    case Group(_, cs) => Count(cs, shown)
    case Other(_) => 0
  }

  /** `Count` counts the mirrored options of the traversal. */
  lemma {:induction false} CountKept(nodes: seq<Node>, shown: seq<bool>)
    ensures Count(nodes, shown) == |Kept(shown, OptionIndices(nodes))|
    decreases nodes
  {
    if nodes != [] {
      var init, last := nodes[..|nodes| - 1], nodes[|nodes| - 1];
      CountKept(init, shown);
      NodeCountKept(last, shown);
      KeptConcat(shown, OptionIndices(init), NodeOptionIndices(last));
    }
  }

  lemma {:induction false} NodeCountKept(node: Node, shown: seq<bool>)
    ensures NodeCount(node, shown) == |Kept(shown, NodeOptionIndices(node))|
    decreases node
  {
    match node
    case Opt(k) =>
      assert Kept(shown, [k]) == Kept(shown, []) + (if IsKept(shown, k) then [k] else []);
    case Group(_, cs) =>
      CountKept(cs, shown);
    case Other(_) =>
  }

  /** The rendered entries appended directly to a group built from `nodes`, numbered from `base`. */
  function Members(nodes: seq<Node>, shown: seq<bool>, base: nat): seq<nat>
    decreases nodes
  {
    if nodes == [] then []
    else
      var init := nodes[..|nodes| - 1];
      Members(init, shown, base) + NodeMembers(nodes[|nodes| - 1], shown, base + Count(init, shown))
  }

  function NodeMembers(node: Node, shown: seq<bool>, base: nat): seq<nat>
  {
    match node
    case Opt(k) => if IsKept(shown, k) then [base] else []
    case _ => []
  }

  /**
   * The `nice-optgroup` elements a traversal of `nodes` appends to the option list,
   * in order, each with the entries appended to it; entries are numbered from
   * `base` in mirroring order. With `dropBlank`, an optgroup none of whose options
   * has non-blank text is not rendered; the options inside other elements count
   * for this test, although they are not mirrored.
   */
  function Groups(nodes: seq<Node>, shown: seq<bool>, base: nat, dropBlank: bool): seq<RenderGroup>
    decreases nodes
  {
    if nodes == [] then []
    else
      var init := nodes[..|nodes| - 1];
      Groups(init, shown, base, dropBlank)
        + NodeGroups(nodes[|nodes| - 1], shown, base + Count(init, shown), dropBlank)
  }

  function NodeGroups(node: Node, shown: seq<bool>, base: nat, dropBlank: bool): seq<RenderGroup>
    decreases node
  {
    match node
    case Group(c, cs) =>
      if dropBlank && !HasShown(shown, cs) then []
      else [RenderGroup(c, Members(cs, shown, base), false)] + Groups(cs, shown, base, dropBlank)
    case _ => []
  }

  /** `parent.append(...)` of new entries to the rendered group `parent`, if it is one. */
  function Attach(groups: seq<RenderGroup>, parent: Option<nat>, ids: seq<nat>): (r: seq<RenderGroup>)
    ensures |r| == |groups|
  {
    if parent.Some? && parent.value < |groups|
    then groups[parent.value := groups[parent.value].(members := groups[parent.value].members + ids)]
    else groups
  }

  /** Appending `ids` to a group keeps every member of every group among `all` and `ids`. */
  lemma AttachWithin(groups: seq<RenderGroup>, parent: Option<nat>, ids: seq<nat>, all: seq<nat>)
    requires forall g, x :: 0 <= g < |groups| && x in groups[g].members ==> x in all
    ensures var r := Attach(groups, parent, ids);
      forall g, x :: 0 <= g < |r| && x in r[g].members ==> x in all + ids
  {
    var r := Attach(groups, parent, ids);
    forall g, x | 0 <= g < |r| && x in r[g].members ensures x in all + ids {
      if parent.Some? && g == parent.value {
        assert x in groups[g].members || x in ids;
      } else {
        assert r[g] == groups[g];
      }
    }
  }

  /** Two appends to the same group append their entries in order. */
  lemma AttachTwice(groups: seq<RenderGroup>, parent: Option<nat>, a: seq<nat>, b: seq<nat>)
    ensures Attach(Attach(groups, parent, a), parent, b) == Attach(groups, parent, a + b)
  {
    if parent.Some? && parent.value < |groups| {
      assert groups[parent.value].members + a + b == groups[parent.value].members + (a + b);
    }
  }

  /** Groups rendered after `parent` are not touched by an append to it. */
  lemma AttachBefore(groups: seq<RenderGroup>, later: seq<RenderGroup>, parent: Option<nat>, ids: seq<nat>)
    requires parent.None? || parent.value < |groups|
    ensures Attach(groups + later, parent, ids) == Attach(groups, parent, ids) + later
  {
  }

  /** Appending nothing changes nothing. */
  lemma AttachNothing(groups: seq<RenderGroup>, parent: Option<nat>)
    ensures Attach(groups, parent, []) == groups
  {
    if parent.Some? && parent.value < |groups| {
      assert groups[parent.value].members + [] == groups[parent.value].members;
    }
  }

  /** Every identifier of `ids` lies in `[lo, hi)`. */
  predicate Within(ids: seq<nat>, lo: nat, hi: nat)
  {
    forall id :: id in ids ==> lo <= id < hi
  }

  /** Every entry of every group of `gs` lies in `[lo, hi)`. */
  predicate GroupsWithin(gs: seq<RenderGroup>, lo: nat, hi: nat)
  {
    forall g :: 0 <= g < |gs| ==> Within(gs[g].members, lo, hi)
  }

  /** A group's direct entries are among the entries its children mirror. */
  lemma {:induction false} MembersMirrored(nodes: seq<Node>, shown: seq<bool>, base: nat)
    ensures Within(Members(nodes, shown, base), base, base + Count(nodes, shown))
    decreases |nodes|
  {
    if nodes != [] {
      MembersMirrored(nodes[..|nodes| - 1], shown, base);
    }
  }

  lemma GroupsWithinConcat(g1: seq<RenderGroup>, g2: seq<RenderGroup>, lo: nat, mid: nat, hi: nat)
    requires lo <= mid <= hi
    requires GroupsWithin(g1, lo, mid) && GroupsWithin(g2, mid, hi)
    ensures GroupsWithin(g1 + g2, lo, hi)
  {
    forall g | 0 <= g < |g1 + g2| ensures Within((g1 + g2)[g].members, lo, hi) {
      if g < |g1| {
        assert (g1 + g2)[g] == g1[g];
      } else {
        assert (g1 + g2)[g] == g2[g - |g1|];
      }
    }
  }

  /** Every entry a rendered group holds is one of the entries the same traversal mirrors. */
  lemma {:induction false} GroupsMirrored(nodes: seq<Node>, shown: seq<bool>, base: nat, dropBlank: bool)
    ensures GroupsWithin(Groups(nodes, shown, base, dropBlank), base, base + Count(nodes, shown))
    decreases nodes
  {
    if nodes != [] {
      var init, last := nodes[..|nodes| - 1], nodes[|nodes| - 1];
      var n1, n2 := Count(init, shown), NodeCount(last, shown);
      GroupsMirrored(init, shown, base, dropBlank);
      NodeGroupsMirrored(last, shown, base + n1, dropBlank);
      GroupsWithinConcat(Groups(init, shown, base, dropBlank), NodeGroups(last, shown, base + n1, dropBlank), base, base + n1, base + n1 + n2);
    }
  }

  lemma {:induction false} NodeGroupsMirrored(node: Node, shown: seq<bool>, base: nat, dropBlank: bool)
    ensures GroupsWithin(NodeGroups(node, shown, base, dropBlank), base, base + NodeCount(node, shown))
    decreases node
  {
    if node.Group? {
      var cs := node.children;
      GroupsMirrored(cs, shown, base, dropBlank);
      MembersMirrored(cs, shown, base);
    }
  }

  /**
   * The light-DOM option `selectCurrrentOption` marks: the first whose value equals
   * `v` or whose text equals `t`.
   */
  function FirstMatch(light: seq<SourceOption>, v: string, t: string): (r: Option<nat>)
    ensures r.Some? ==> r.value < |light| && (light[r.value].value == v || light[r.value].text == t)
    ensures r.Some? ==> forall j :: 0 <= j < r.value ==> light[j].value != v && light[j].text != t
    ensures r.None? <==> forall j :: 0 <= j < |light| ==> light[j].value != v && light[j].text != t
  {
    if light == [] then None
    else if light[0].value == v || light[0].text == t then Some(0)
    else match FirstMatch(light[1..], v, t)
      case None => None
      case Some(j) => Some(j + 1)
  }

  /**
   * The host's options after the selection of an entry with value `v` and text `t`
   * is written back: when some option matches, it alone is selected; otherwise
   * nothing changes. Only the selected flags change.
   */
  function Reflect(light: seq<SourceOption>, v: string, t: string): (r: seq<SourceOption>)
    ensures |r| == |light|
    ensures forall m :: 0 <= m < |light| ==> r[m].(selected := false) == light[m].(selected := false)
    ensures FirstMatch(light, v, t).None? ==> r == light
    ensures FirstMatch(light, v, t).Some? ==> forall m :: 0 <= m < |light| ==> (r[m].selected <==> m == FirstMatch(light, v, t).value)
  {
    match FirstMatch(light, v, t)
    case None => light
    case Some(j) => seq(|light|, m requires 0 <= m < |light| => light[m].(selected := m == j))
  }

  /** Clearing every option's selected flag and then setting the matching one's writes the selection back. */
  lemma ReflectByClearing(light: seq<SourceOption>, cleared: seq<SourceOption>, v: string, t: string)
    requires FirstMatch(light, v, t).Some?
    requires |cleared| == |light| && forall k :: 0 <= k < |light| ==> cleared[k] == light[k].(selected := false)
    ensures var j := FirstMatch(light, v, t).value; cleared[j := cleared[j].(selected := true)] == Reflect(light, v, t)
  {
  }

  /** Changing only the selected flags of the host's options leaves them mirrored as they were. */
  lemma ShownIgnoresSelected(light: seq<SourceOption>, light': seq<SourceOption>)
    requires |light| == |light'|
    requires forall m :: 0 <= m < |light| ==> light[m].(selected := false) == light'[m].(selected := false)
    ensures Shown(light) == Shown(light')
  {
    forall m | 0 <= m < |light| ensures Shown(light)[m] == Shown(light')[m] {
      assert light[m].text == light[m].(selected := false).text;
      assert light'[m].text == light'[m].(selected := false).text;
    }
  }

  /**
   * Writing back the selection of a clone of the host option `k` leaves one host
   * option selected, at or before `k`, so every later option loses its flag.
   */
  lemma ReflectOwnOption(light: seq<SourceOption>, k: nat)
    requires k < |light|
    ensures var r := Reflect(light, light[k].value, light[k].text);
      && (exists j :: 0 <= j <= k && r[j].selected)
      && (forall m :: k < m < |light| ==> !r[m].selected)
      && (forall m, m' :: 0 <= m < |light| && 0 <= m' < |light| && r[m].selected && r[m'].selected ==> m == m')
  {
    var j := FirstMatch(light, light[k].value, light[k].text);
    assert j.Some? && j.value <= k;
    assert Reflect(light, light[k].value, light[k].text)[j.value].selected;
  }
}
