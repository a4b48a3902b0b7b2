/**
 * What the search box's `input` handler and the switching off of the search
 * (in `toggleSearch`) do to the element's state, stated on values.
 */
module Searching {
  import opened Wrappers
  import opened Text
  import opened Seqs
  import opened Views
  import opened Mirroring

  /** Whether some entry of `members` is not hidden (`querySelector('option:not([hidden])')`). */
  predicate HasUnhidden(store: seq<Entry>, members: seq<nat>)
  {
    exists x :: x in members && x < |store| && !store[x].hidden
  }

  /** The listed entries are hidden exactly when they are not in `visible`. */
  function HideUnlisted(store: seq<Entry>, all: seq<nat>, visible: seq<nat>): (r: seq<Entry>)
    ensures |r| == |store|
    ensures forall id :: 0 <= id < |store| ==> r[id] == if id in all then store[id].(hidden := id !in visible) else store[id]
  {
    seq(|store|, id requires 0 <= id < |store| => if id in all then store[id].(hidden := id !in visible) else store[id])
  }

  /** Every rendered group is hidden exactly when none of its entries is shown. */
  function HideEmptyGroups(store: seq<Entry>, groups: seq<RenderGroup>): (r: seq<RenderGroup>)
    ensures |r| == |groups|
    ensures forall g :: 0 <= g < |groups| ==> r[g] == groups[g].(hidden := !HasUnhidden(store, groups[g].members))
  {
    seq(|groups|, g requires 0 <= g < |groups| => groups[g].(hidden := !HasUnhidden(store, groups[g].members)))
  }

  /**
   * The `input` handler with the search text `q`: the visible entries become the
   * listed ones whose lower-cased text includes the lower-cased query, the
   * available ones are recomputed from them, every listed entry is hidden
   * exactly when it is not visible, and every rendered group exactly when it has
   * no shown entry.
   */
  function Searched(m: Mirror, q: string): Mirror
  {
    var visible := Filter(m.store, m.all, Matches(q));
    var store := HideUnlisted(m.store, m.all, visible);
    m.(visible := visible,
       available := Filter(m.store, visible, NotDisabled),
       store := store,
       groups := HideEmptyGroups(store, m.groups))
  }

  /** `toggleSearch` switching the search off: every listed entry is shown again; the views stay. */
  function Unhidden(m: Mirror): Mirror
  {
    m.(store := seq(|m.store|, id requires 0 <= id < |m.store| => if id in m.all then m.store[id].(hidden := false) else m.store[id]))
  }

  /**
   * After a search, an entry is visible exactly when it is listed and its text
   * matches the query, and available exactly when it also is not disabled.
   */
  lemma SearchFilters(m: Mirror, q: string, msg: string)
    requires Consistent(m, msg)
    ensures var r := Searched(m, q);
      && (forall id :: id in r.visible <==> id in m.all && Allows(Matches(q), m.store[id]))
      && (forall id :: id in r.available <==> id in r.visible && !m.store[id].disabled)
  {
    var store, all := m.store, m.all;
    assert forall id :: id in all ==> id < |store|;
    var visible := Filter(store, all, Matches(q));
    FilterMembers(store, all, Matches(q));
    FilterMembers(store, visible, NotDisabled);
    assert Searched(m, q).visible == visible && Searched(m, q).available == Filter(store, visible, NotDisabled);
  }

  /**
   * After a search, a listed entry is hidden exactly when it is not visible, and
   * nothing but the hidden flags changes in the store.
   */
  lemma SearchHides(m: Mirror, q: string)
    ensures var r := Searched(m, q);
      && |r.store| == |m.store|
      && (forall id :: id in m.all && id < |m.store| ==> (r.store[id].hidden <==> id !in r.visible))
      && (forall id :: 0 <= id < |m.store| ==> r.store[id].(hidden := false) == m.store[id].(hidden := false))
  {
  }

  /** After a search, a rendered group is hidden exactly when none of its entries is visible. */
  lemma SearchHidesGroups(m: Mirror, q: string, msg: string)
    requires Consistent(m, msg)
    ensures var r := Searched(m, q);
      && |r.groups| == |m.groups|
      && forall g :: 0 <= g < |m.groups| ==> (r.groups[g].hidden <==> forall x :: x in m.groups[g].members ==> x !in r.visible)
  {
    var r := Searched(m, q);
    SearchHides(m, q);
    forall g | 0 <= g < |m.groups|
      ensures r.groups[g].hidden <==> forall x :: x in m.groups[g].members ==> x !in r.visible
    {
      var ms := m.groups[g].members;
      assert r.groups[g].hidden == !HasUnhidden(r.store, ms);
      forall x | x in ms ensures x in m.all && x < |r.store| && (r.store[x].hidden <==> x !in r.visible) {
      }
    }
  }

  /** After a search, the visible entries are exactly the listed entries not hidden. */
  lemma SearchAgreesWithFlags(m: Mirror, q: string, msg: string)
    requires Consistent(m, msg)
    ensures var r := Searched(m, q); r.visible == Filter(r.store, r.all, NotHidden)
  {
    var r := Searched(m, q);
    SearchHides(m, q);
    FilterMembers(m.store, m.all, Matches(q));
    FilterStableMatch(m.store, r.store, m.all, q);
  }

  /** On listed entries, the hidden flags after a search decide visibility the way the query does. */
  lemma {:induction false} FilterStableMatch(store: seq<Entry>, store': seq<Entry>, ids: seq<nat>, q: string)
    requires forall id :: id in ids ==> id < |store| && id < |store'|
    requires forall id :: id in ids ==> (store'[id].hidden <==> !Allows(Matches(q), store[id]))
    ensures Filter(store, ids, Matches(q)) == Filter(store', ids, NotHidden)
  {
    if ids != [] {
      var init := ids[..|ids| - 1];
      forall id | id in init ensures id < |store| && id < |store'| && (store'[id].hidden <==> !Allows(Matches(q), store[id])) {
        assert id in ids;
      }
      FilterStableMatch(store, store', init, q);
      assert ids[|ids| - 1] in ids;
    }
  }

  /** An empty search shows every listed entry. */
  lemma EmptySearchShowsAll(m: Mirror, msg: string)
    requires Consistent(m, msg)
    ensures Searched(m, "").visible == m.all
    ensures forall id :: id in m.all ==> !Searched(m, "").store[id].hidden
  {
    EmptyQueryMatchesAll(m.store, m.all);
    FilterMembers(m.store, m.all, Matches(""));
  }

  /** A search keeps the state consistent. */
  lemma SearchConsistent(m: Mirror, q: string, msg: string)
    requires Consistent(m, msg)
    ensures Consistent(Searched(m, q), msg)
  {
    var visible := Filter(m.store, m.all, Matches(q));
    var store := HideUnlisted(m.store, m.all, visible);
    var groups := HideEmptyGroups(store, m.groups);
    var r := m.(visible := visible, available := Filter(m.store, visible, NotDisabled), store := store, groups := groups);
    assert r == Searched(m, q);
    FilterIncreasing(m.store, m.all, Matches(q));
    FilterMembers(m.store, m.all, Matches(q));
    assert forall id :: 0 <= id < |m.store| ==> store[id].(hidden := false) == m.store[id].(hidden := false);
    assert forall g :: 0 <= g < |m.groups| ==> groups[g].members == m.groups[g].members;
    FlagsOnlyConsistent(m, r, msg);
  }

  /** Switching the search off shows every listed entry and keeps the state consistent. */
  lemma UnhiddenConsistent(m: Mirror, msg: string)
    requires Consistent(m, msg)
    ensures Consistent(Unhidden(m), msg)
    ensures forall id :: id in m.all ==> !Unhidden(m).store[id].hidden
  {
    FlagsOnlyConsistent(m, Unhidden(m), msg);
  }

  /**
   * Rewriting the hidden flags, and choosing as visible an increasing selection
   * of the listed entries with the available ones recomputed from it, keeps the
   * state consistent.
   */
  lemma FlagsOnlyConsistent(m: Mirror, r: Mirror, msg: string)
    requires Consistent(m, msg)
    requires |r.store| == |m.store| && forall id :: 0 <= id < |m.store| ==> r.store[id].(hidden := false) == m.store[id].(hidden := false)
    requires r.all == m.all && Increasing(r.visible) && (forall id :: id in r.visible ==> id in r.all)
    requires r.available == Filter(m.store, r.visible, NotDisabled)
    requires |r.groups| == |m.groups| && forall g :: 0 <= g < |m.groups| ==> r.groups[g].members == m.groups[g].members
    requires r.current == m.current && r.formValue == m.formValue && r.validity == m.validity
    ensures Consistent(r, msg)
  {
    forall id | id in r.visible ensures id < |m.store| && Allows(NotDisabled, m.store[id]) == Allows(NotDisabled, r.store[id]) {
      assert r.store[id].(hidden := false) == m.store[id].(hidden := false);
    }
    FilterStable(m.store, r.store, r.visible, NotDisabled);
    forall x | x in r.all ensures !IsBlank(r.store[x].text) && r.store[x].value != "" && r.store[x].selected == m.store[x].selected {
      assert r.store[x].(hidden := false) == m.store[x].(hidden := false);
    }
  }
}
