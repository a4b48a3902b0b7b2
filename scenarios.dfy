/**
 * Two concrete runs of the option mirror: a resync of three options, one of
 * them disabled and one selected, and a search over three fruit names.
 */
module Scenarios {
  import opened Wrappers
  import opened Text
  import opened Seqs
  import opened Views
  import opened Markup
  import opened Mirroring
  import opened Searching
  import NiceSelect
  import Legacy

  /** Three host options: `A`, `B` disabled, and `C` selected. */
  function AbcOptions(): seq<SourceOption>
  {
    [SourceOption("A", "A", false, false, false),
     SourceOption("B", "B", false, true, false),
     SourceOption("C", "C", true, false, false)]
  }

  /** A first connection: nothing mirrored, nothing selected, the value missing. */
  function Fresh(light: seq<SourceOption>, msg: string): Mirror
  {
    Mirror(light, [], [], [], [], [], None, None, ValueMissing(msg), "Select", 0)
  }

  /** The three children of the host: the three options, in document order. */
  lemma AbcIndices(nodes: seq<Node>)
    requires nodes == [Opt(0), Opt(1), Opt(2)]
    ensures OptionIndices(nodes) == [0, 1, 2]
  {
    assert nodes[..2] == [Opt(0), Opt(1)] && nodes[..2][..1] == [Opt(0)] && nodes[..2][..1][..0] == [];
    assert OptionIndices(nodes[..1]) == [0];
    assert OptionIndices(nodes[..2]) == [0] + [1];
  }

  /** All three options have non-blank text, so all three are mirrored. */
  lemma AbcKept(light: seq<SourceOption>, ks: seq<nat>)
    requires light == AbcOptions() && ks == [0, 1, 2]
    ensures Kept(Shown(light), ks) == ks
  {
    var sh := Shown(light);
    forall k | 0 <= k < 3 ensures sh[k] {
      assert !IsTrimmable(light[k].text[0]);
    }
    assert ks[..2] == [0, 1] && ks[..2][..1] == [0] && ks[..2][..1][..0] == [];
    assert Kept(sh, ks[..1]) == [0];
    assert Kept(sh, ks[..2]) == [0] + [1];
  }

  /** Of the three options only `C` is selected and enabled. */
  lemma AbcPick(light: seq<SourceOption>, ks: seq<nat>)
    requires light == AbcOptions() && ks == [0, 1, 2]
    ensures FirstPick(light, ks) == Some(2)
  {
    assert ks[0] == 0 && ks[1] == 1 && ks[2] == 2;
    assert !Picks(light, 0) && !Picks(light, 1) && Picks(light, 2);
    var p := FirstPick(light, ks);
    assert p.Some?;
    assert p.value != 0 && p.value != 1;
  }

  /** The store after the resync: the three clones, only `C` selected; `A` and `C` are available. */
  lemma AbcStore(light: seq<SourceOption>, ks: seq<nat>, store: seq<Entry>)
    requires light == AbcOptions() && ks == [0, 1, 2]
    requires store == [] + Clones(light, ks, Some(2))
    ensures store == [Entry("A", "A", false, false, false), Entry("B", "B", true, false, false), Entry("C", "C", false, false, true)]
    ensures Filter(store, ks, Selectable) == [0, 2]
  {
    assert ks[..2] == [0, 1] && ks[..2][..1] == [0] && ks[..2][..1][..0] == [];
    assert Filter(store, ks[..1], Selectable) == [0];
    assert Filter(store, ks[..2], Selectable) == [0];
  }

  /** What the traversal of the three options leaves: the facts `ResyncMirrors` gives, read on this input. */
  lemma AbcOutcome(m: Mirror, ks: seq<nat>, msg: string, r: Mirror)
    requires m == Fresh(AbcOptions(), msg) && ks == [0, 1, 2]
    requires r.store == m.store + Clones(m.light, ks, Some(2))
    requires r.all == Ids(0, 3) && r.available == Filter(r.store, r.all, Selectable)
    requires PickedAt(m, ks, Some(2), msg, r)
    ensures r.all == [0, 1, 2] && r.available == [0, 2] && r.current == Some(2)
    ensures r.formValue == Some("C") && r.validity == Satisfied && r.presentation == "C"
  {
    assert r.all == ks;
    AbcStore(m.light, ks, r.store);
  }

  /**
   * A resync of `A`, disabled `B` and selected `C` lists all three, makes `C`
   * current with its value as the form value, and leaves `A` and `C` available.
   */
  lemma ResyncAbc(m: Mirror, nodes: seq<Node>, msg: string)
    requires m == Fresh(AbcOptions(), msg) && nodes == [Opt(0), Opt(1), Opt(2)]
    ensures var r := Resync(m, nodes, msg);
      && r.all == [0, 1, 2]
      && r.available == [0, 2]
      && r.current == Some(2)
      && r.formValue == Some("C")
      && r.validity == Satisfied
      && r.presentation == "C"
  {
    var ks := [0, 1, 2];
    AbcIndices(nodes);
    assert Increasing(ks);
    AbcKept(m.light, ks);
    AbcPick(m.light, ks);
    ResyncMirrors(m, nodes, msg);
    AbcOutcome(m, ks, msg, Resync(m, nodes, msg));
  }

  /** An entry as listed from an option whose value is its text. */
  function Plain(t: string): Entry
  {
    Entry(t, t, false, false, false)
  }

  /** Three listed entries, `Apple`, `Banana` and `Blueberry`, none hidden or disabled. */
  function Fruits(): Mirror
  {
    Mirror([], [Plain("Apple"), Plain("Banana"), Plain("Blueberry")], [0, 1, 2], [0, 1, 2], [0, 1, 2], [], None, None, ValueMissing(""), "Select", 0)
  }

  /** A text without the letter `b` in either case does not match the query `b`. */
  lemma NoB(t: string)
    requires forall i :: 0 <= i < |t| ==> t[i] != 'b' && t[i] != 'B'
    ensures !Allows(Matches("b"), Plain(t))
  {
    IncludesIff(Lower(t), Lower("b"));
    assert Lower("b") == "b";
    forall i | 0 <= i < |t| ensures Lower(t)[i] != 'b' {
    }
    forall i ensures !OccursAt(Lower(t), "b", i) {
      if 0 <= i && i + 1 <= |t| {
        assert Lower(t)[i..i + 1][0] == Lower(t)[i];
      }
    }
  }

  /** A text starting with `B` matches the query `b`. */
  lemma StartsWithB(t: string)
    requires |t| > 0 && t[0] == 'B'
    ensures Allows(Matches("b"), Plain(t))
  {
    assert Lower("b") == "b";
    assert Lower(t)[..1] == "b";
  }

  /** Of the three fruits, exactly `Banana` and `Blueberry` match the query `b`. */
  lemma FruitsMatching(m: Mirror, q: string)
    requires m == Fruits() && q == "b"
    ensures Filter(m.store, m.all, Matches(q)) == [1, 2]
  {
    NoB("Apple");
    StartsWithB("Banana");
    StartsWithB("Blueberry");
    assert m.all[..2] == [0, 1] && m.all[..2][..1] == [0] && m.all[..2][..1][..0] == [];
    assert Filter(m.store, m.all[..1], Matches(q)) == [];
    assert Filter(m.store, m.all[..2], Matches(q)) == [1];
  }

  /**
   * Searching for `b` leaves `Banana` and `Blueberry` visible and hides
   * `Apple`; clearing the search shows all three again.
   */
  lemma SearchFruits(m: Mirror, q: string)
    requires m == Fruits() && q == "b"
    ensures Searched(m, q).visible == [1, 2]
    ensures Searched(m, q).store[0].hidden
    ensures Searched(m, "").visible == [0, 1, 2]
  {
    FruitsMatching(m, q);
    SearchHides(m, q);
    assert 0 in m.all && 0 !in Searched(m, q).visible;
    EmptyQueryMatchesAll(m.store, m.all);
  }

  /**
   * An optgroup whose only option sits inside another element, as in
   * `<optgroup label="G"><span><option>A</option></span></optgroup>`: the
   * group has an option of non-blank text, so it is rendered, but the traversal
   * does not reach the option, so the group stays empty and nothing is listed.
   */
  lemma ResyncWrappedOption(m: Mirror, nodes: seq<Node>, msg: string)
    requires m == Fresh([SourceOption("A", "A", false, false, false)], msg)
    requires nodes == [Group("G", [Other([0])])]
    ensures Resync(m, nodes, msg).groups == [RenderGroup("G", [], false)]
    ensures Resync(m, nodes, msg).all == []
  {
    var cs := [Other([0])];
    var sh := Shown(m.light);
    assert sh[0] by {
      assert !IsTrimmable(m.light[0].text[0]);
    }
    assert cs[..0] == [];
    assert AllOptionIndices(cs) == [0];
    assert [0][..0] == [];
    assert Kept(sh, [0]) == [0];
    assert HasShown(sh, cs);
    assert OptionIndices(cs) == [];
    assert nodes[..0] == [];
    var m0 := m.(all := [], visible := [], available := [], groups := []);
    var m1 := m0.(groups := [RenderGroup("G", [], false)]);
    assert Visit(m1, cs[..0], Some(0), msg) == m1;
    assert VisitNode(m1, Other([0]), Some(0), msg) == m1;
    assert Visit(m1, cs, Some(0), msg) == m1;
    assert VisitNode(m0, nodes[0], None, msg) == m1;
    assert Visit(m0, nodes[..0], None, msg) == m0;
    assert Resync(m, nodes, msg) == Visit(m0, nodes, None, msg);
  }

  /**
   * `<nice-select data-search>` before it is connected: the attribute switches
   * the search on, and the value setter throws, since nothing is available yet.
   */
  method SearchBeforeConnect(light: seq<SourceOption>, children: seq<Node>, v: string) returns (outcome: Outcome)
    ensures outcome == Thrown(NiceSelect.NotAValidOption(v))
  {
    var e := new NiceSelect.Element(light, children, None);
    e.ToggleSearch(true);
    outcome := e.SetValue(v);
  }

  /** The same for the older form of the element. */
  method LegacySearchBeforeConnect(light: seq<SourceOption>, children: seq<Node>, v: string) returns (outcome: Outcome)
    ensures outcome == Thrown(NiceSelect.NotAValidOption(v))
  {
    var e := new Legacy.Element(light, children, None);
    e.ToggleSearch(true);
    outcome := e.SetValue(v);
  }
}
