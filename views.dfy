/**
 * The element's mirror of its options: the cloned option entries, the rendered
 * optgroups, the three ordered views over them and the pure rules the element's
 * handlers apply to those views (filtering, `indexOf`-based navigation, `find`
 * by value, form value, validity and label).
 */
module Views {
  import opened Wrappers
  import opened Text
  import opened Seqs

  /** A cloned `<option>` rendered in the shadow tree. */
  datatype Entry = Entry(text: string, value: string, disabled: bool, hidden: bool, selected: bool)

  /** A rendered `nice-optgroup`: its label and the entries appended to it. */
  datatype RenderGroup = RenderGroup(caption: string, members: seq<nat>, hidden: bool)

  /** The validity the element reports through its ElementInternals. */
  datatype Validity = Satisfied | ValueMissing(message: string)

  /** The error the `value` setter throws. */
  datatype Outcome = Done | Thrown(message: string)

  /** What the presentation shows for an option without text (`&nbsp;`). */
  const NoBreakSpace: string := "\U{A0}"

  /** The three filters the element applies to its option lists. */
  datatype Criterion = NotHidden | NotDisabled | Selectable | Matches(query: string)

  predicate Allows(c: Criterion, e: Entry)
  {
    match c
    case NotHidden => !e.hidden
    case NotDisabled => !e.disabled
    case Selectable => !e.hidden && !e.disabled
    case Matches(q) => Includes(Lower(e.text), Lower(q))
  }

  /** The entries of `ids` that meet `c`, in the order of `ids` (`Array.prototype.filter`). */
  function Filter(store: seq<Entry>, ids: seq<nat>, c: Criterion): seq<nat>
  {
    if ids == [] then []
    else
      var last := ids[|ids| - 1];
      Filter(store, ids[..|ids| - 1], c) + (if last < |store| && Allows(c, store[last]) then [last] else [])
  }

  /** The filter keeps exactly the entries of `ids` that meet `c`. */
  lemma {:induction false} FilterMembers(store: seq<Entry>, ids: seq<nat>, c: Criterion)
    ensures forall id :: id in Filter(store, ids, c) <==> id in ids && id < |store| && Allows(c, store[id])
    ensures |Filter(store, ids, c)| <= |ids|
  {
    if ids != [] {
      FilterMembers(store, ids[..|ids| - 1], c);
      assert ids == ids[..|ids| - 1] + [ids[|ids| - 1]];
    }
  }

  lemma {:induction false} FilterConcat(store: seq<Entry>, a: seq<nat>, b: seq<nat>, c: Criterion)
    ensures Filter(store, a + b, c) == Filter(store, a, c) + Filter(store, b, c)
    decreases |b|
  {
    if b == [] {
      assert a + b == a;
    } else {
      assert (a + b)[..|a + b| - 1] == a + b[..|b| - 1];
      FilterConcat(store, a, b[..|b| - 1], c);
    }
  }

  /** Filtering by a criterion every entry meets keeps everything. */
  lemma {:induction false} FilterAll(store: seq<Entry>, ids: seq<nat>, c: Criterion)
    requires forall id :: id in ids ==> id < |store| && Allows(c, store[id])
    ensures Filter(store, ids, c) == ids
  {
    if ids != [] {
      var init, last := ids[..|ids| - 1], ids[|ids| - 1];
      forall id | id in init ensures id < |store| && Allows(c, store[id]) {
        assert id in ids;
      }
      FilterAll(store, init, c);
      assert last in ids;
      assert ids == init + [last];
    }
  }

  /** Changing only what a criterion does not look at leaves the filter as it was. */
  lemma {:induction false} FilterStable(s: seq<Entry>, s': seq<Entry>, ids: seq<nat>, c: Criterion)
    requires forall id :: id in ids ==> id < |s| && id < |s'| && Allows(c, s[id]) == Allows(c, s'[id])
    ensures Filter(s, ids, c) == Filter(s', ids, c)
  {
    if ids != [] {
      var init := ids[..|ids| - 1];
      forall id | id in init ensures id < |s| && id < |s'| && Allows(c, s[id]) == Allows(c, s'[id]) {
        assert id in ids;
      }
      FilterStable(s, s', init, c);
    }
  }

  /** Filtering an increasing sequence leaves it increasing. */
  lemma {:induction false} FilterIncreasing(store: seq<Entry>, ids: seq<nat>, c: Criterion)
    requires Increasing(ids)
    ensures Increasing(Filter(store, ids, c))
  {
    if ids != [] {
      var init, last := ids[..|ids| - 1], ids[|ids| - 1];
      FilterIncreasing(store, init, c);
      FilterMembers(store, init, c);
      forall x | x in Filter(store, init, c) ensures x < last {
        var i :| 0 <= i < |ids| - 1 && ids[i] == x;
      }
      if last < |store| && Allows(c, store[last]) {
        ConcatIncreasing(Filter(store, init, c), [last]);
      }
    }
  }

  /** Filtering the unhidden entries for the enabled ones keeps the selectable ones. */
  lemma {:induction false} FilterTwice(store: seq<Entry>, ids: seq<nat>)
    ensures Filter(store, Filter(store, ids, NotHidden), NotDisabled) == Filter(store, ids, Selectable)
  {
    if ids != [] {
      var init, last := ids[..|ids| - 1], ids[|ids| - 1];
      FilterTwice(store, init);
      FilterConcat(store, Filter(store, init, NotHidden), if last < |store| && Allows(NotHidden, store[last]) then [last] else [], NotDisabled);
      assert Filter(store, [last], NotDisabled) == Filter(store, [], NotDisabled) + (if last < |store| && Allows(NotDisabled, store[last]) then [last] else []);
    }
  }

  /** An empty search query makes every entry match. */
  lemma {:induction false} EmptyQueryMatchesAll(store: seq<Entry>, ids: seq<nat>)
    requires forall id :: id in ids ==> id < |store|
    ensures Filter(store, ids, Matches("")) == ids
  {
    forall id | id in ids ensures Allows(Matches(""), store[id]) {
      assert Lower("") == "";
      IncludesEmpty(Lower(store[id].text));
    }
    FilterAll(store, ids, Matches(""));
  }

  /** Matching ignores the case of both the text and the query. */
  lemma MatchIgnoresCase(e: Entry, q: string)
    ensures Allows(Matches(q), e) == Allows(Matches(Lower(q)), e)
    ensures Allows(Matches(q), e) == Allows(Matches(q), e.(text := Lower(e.text)))
  {
    LowerIdempotent(q);
    LowerIdempotent(e.text);
  }

  /**
   * The view invariant: `allOptions` lists entries once each in creation order,
   * `visibleOptions` is drawn from it, and `availableOptions` is exactly the
   * visible entries that are not disabled.
   */
  predicate ViewsHold(store: seq<Entry>, all: seq<nat>, visible: seq<nat>, available: seq<nat>)
  {
    && Increasing(all)
    && (forall id :: id in all ==> id < |store|)
    && Increasing(visible)
    && (forall id :: id in visible ==> id in all)
    && available == Filter(store, visible, NotDisabled)
  }

  /** Available is a subsequence of Visible, which is a subsequence of All. */
  lemma NestedViews(store: seq<Entry>, all: seq<nat>, visible: seq<nat>, available: seq<nat>)
    requires ViewsHold(store, all, visible, available)
    ensures Sub(available, visible) && Sub(visible, all) && Sub(available, all)
    ensures Increasing(available)
    ensures forall id :: id in available ==> id in visible && !store[id].disabled
  {
    FilterIncreasing(store, visible, NotDisabled);
    FilterMembers(store, visible, NotDisabled);
    IncreasingSubsetIsSub(available, visible);
    IncreasingSubsetIsSub(visible, all);
    IncreasingSubsetIsSub(available, all);
  }

  /** At most one entry of `ids` carries the selected flag. */
  predicate AtMostOneSelected(store: seq<Entry>, ids: seq<nat>)
  {
    forall x, y :: x in ids && y in ids && x < |store| && y < |store| && store[x].selected && store[y].selected ==> x == y
  }

  /** The store after `removeAttribute('selected')` on every entry of `ids`. */
  function ClearSelected(store: seq<Entry>, ids: seq<nat>): (r: seq<Entry>)
    ensures |r| == |store|
    ensures forall id :: 0 <= id < |store| ==> r[id] == if id in ids then store[id].(selected := false) else store[id]
  {
    seq(|store|, id requires 0 <= id < |store| => if id in ids then store[id].(selected := false) else store[id])
  }

  /** What `setFormValue(value || null)` registers. */
  function FormValueOf(v: string): (r: Option<string>)
    ensures r.Some? <==> v != ""
    ensures r.Some? ==> r.value == v
  {
    if v == "" then None else Some(v)
  }

  /** The validity after a selection: satisfied exactly when the value is non-empty. */
  function ValidityOf(v: string, message: string): (r: Validity)
    ensures r == Satisfied <==> v != ""
    ensures r.ValueMissing? ==> r.message == message
  {
    if v != "" then Satisfied else ValueMissing(message)
  }

  /** The presentation text after a selection: the option's text, or a no-break space. */
  function LabelOf(text: string): (r: string)
    ensures r != ""
    ensures text != "" ==> r == text
    ensures text == "" ==> r == NoBreakSpace
  {
    if text != "" then text else NoBreakSpace
  }

  /** `ids.indexOf(x)`; `-1` when `x` is absent. */
  function IndexOf(ids: seq<nat>, x: Option<nat>): (r: int)
    ensures -1 <= r < |ids|
    ensures r >= 0 ==> x == Some(ids[r]) && forall j :: 0 <= j < r ==> x != Some(ids[j])
    ensures r == -1 <==> forall j :: 0 <= j < |ids| ==> x != Some(ids[j])
  {
    if ids == [] then -1
    else if x == Some(ids[0]) then 0
    else var r := IndexOf(ids[1..], x); if r == -1 then -1 else r + 1
  }

  /** In a sequence without duplicates, `indexOf` finds an element at its one position. */
  lemma IndexOfAt(ids: seq<nat>, i: nat)
    requires Increasing(ids) && i < |ids|
    ensures IndexOf(ids, Some(ids[i])) == i
  {
  }

  /** ArrowDown: the entry after `current`, or the first when `current` is last or absent. */
  function NextOption(available: seq<nat>, current: Option<nat>): Option<nat>
  {
    var i := IndexOf(available, current) + 1;
    if 0 <= i < |available| then Some(available[i])
    else if |available| > 0 then Some(available[0])
    else None
  }

  /** ArrowUp: the entry before `current`, or the last when `current` is first or absent. */
  function PreviousOption(available: seq<nat>, current: Option<nat>): Option<nat>
  {
    var i := IndexOf(available, current) - 1;
    if 0 <= i < |available| then Some(available[i])
    else if |available| > 0 then Some(available[|available| - 1])
    else None
  }

  /** With nothing available, both arrow keys find nothing. */
  lemma NavigationEmpty(current: Option<nat>)
    ensures NextOption([], current) == None && PreviousOption([], current) == None
  {
  }

  /** ArrowDown steps forward by one and wraps from the last (or an absent) entry to the first. */
  lemma NextSteps(available: seq<nat>, current: Option<nat>)
    requires Increasing(available) && |available| > 0
    ensures forall i :: 0 <= i < |available| - 1 && current == Some(available[i]) ==> NextOption(available, current) == Some(available[i + 1])
    ensures current == Some(available[|available| - 1]) ==> NextOption(available, current) == Some(available[0])
    ensures (forall i :: 0 <= i < |available| ==> current != Some(available[i])) ==> NextOption(available, current) == Some(available[0])
  {
    forall i | 0 <= i < |available| && current == Some(available[i]) ensures IndexOf(available, current) == i {
      IndexOfAt(available, i);
    }
  }

  /** ArrowUp steps back by one and wraps from the first (or an absent) entry to the last. */
  lemma PreviousSteps(available: seq<nat>, current: Option<nat>)
    requires Increasing(available) && |available| > 0
    ensures forall i :: 0 < i < |available| && current == Some(available[i]) ==> PreviousOption(available, current) == Some(available[i - 1])
    ensures current == Some(available[0]) ==> PreviousOption(available, current) == Some(available[|available| - 1])
    ensures (forall i :: 0 <= i < |available| ==> current != Some(available[i])) ==> PreviousOption(available, current) == Some(available[|available| - 1])
  {
    forall i | 0 <= i < |available| && current == Some(available[i]) ensures IndexOf(available, current) == i {
      IndexOfAt(available, i);
    }
  }

  /** ArrowDown then ArrowUp (and ArrowUp then ArrowDown) return to the starting entry, including across the wrap. */
  lemma NavigationRoundTrip(available: seq<nat>, i: nat)
    requires Increasing(available) && i < |available|
    ensures PreviousOption(available, NextOption(available, Some(available[i]))) == Some(available[i])
    ensures NextOption(available, PreviousOption(available, Some(available[i]))) == Some(available[i])
  {
    var n := |available|;
    IndexOfAt(available, i);
    IndexOfAt(available, if i + 1 < n then i + 1 else 0);
    IndexOfAt(available, if i > 0 then i - 1 else n - 1);
  }

  /** The navigation result is always one of the available entries. */
  lemma NavigationStaysAvailable(available: seq<nat>, current: Option<nat>)
    ensures NextOption(available, current).Some? ==> NextOption(available, current).value in available
    ensures PreviousOption(available, current).Some? ==> PreviousOption(available, current).value in available
  {
  }

  /** `availableOptions.find(option => option.value === v)`. */
  function FindByValue(store: seq<Entry>, ids: seq<nat>, v: string): (r: Option<nat>)
    ensures r.Some? ==> r.value in ids && r.value < |store| && store[r.value].value == v
    ensures r.None? <==> forall id :: id in ids && id < |store| ==> store[id].value != v
    ensures r.Some? ==> exists j :: 0 <= j < |ids| && ids[j] == r.value && forall i :: 0 <= i < j ==> !(ids[i] < |store| && store[ids[i]].value == v)
  {
    if ids == [] then None
    else if ids[0] < |store| && store[ids[0]].value == v then Some(ids[0])
    else FindByValue(store, ids[1..], v)
  }
}
