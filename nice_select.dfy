/**
 * The `nice-select` element as an object: its fields are the element's state,
 * and each method is one of its closures or handlers, updating the fields step
 * by step as the element does. Every method is proved to leave the state where
 * the corresponding function of `Mirroring` or `Searching` says, and the
 * handlers a user can trigger keep the element's invariant.
 */
module NiceSelect {
  import opened Wrappers
  import opened Text
  import opened Seqs
  import opened Views
  import opened Markup
  import opened Mirroring
  import opened Searching
  import opened Scrolling

  /** The message reported while no value is selected, unless `data-validity-message` says otherwise. */
  const DefaultValidityMessage: string := "Please select on option."

  /** What the presentation shows before anything is selected, without a `placeholder`. */
  const DefaultPresentation: string := "Select"

  /** The keys the keyboard handler tells apart. */
  datatype Key = ArrowDown | ArrowUp | OtherKey

  /** The state around the option mirror that its operations leave alone. */
  datatype Widget = Widget(
    children: seq<Node>,
    validityMessage: string,
    placeholder: Option<string>,
    interacted: bool,
    isOpen: bool,
    searchEnabled: bool,
    scrollTop: int)

  /** The message the `value` setter throws for a value no available entry has. */
  function NotAValidOption(v: string): string
  {
    "'" + v + "' is not a valid option."
  }

  /** `ids.filter(...)` with the criterion `c`, one entry after another. */
  method FilterBy(store: seq<Entry>, ids: seq<nat>, c: Criterion) returns (r: seq<nat>)
    ensures r == Filter(store, ids, c)
  {
    r := [];
    for i := 0 to |ids|
      invariant r == Filter(store, ids[..i], c)
    {
      assert ids[..i + 1][..i] == ids[..i];
      if ids[i] < |store| && Allows(c, store[ids[i]]) {
        r := r + [ids[i]];
      }
    }
    assert ids[..|ids|] == ids;
  }

  /** `removeAttribute('selected')` on every entry of `ids`, one after another. */
  method RemoveSelected(store: seq<Entry>, ids: seq<nat>) returns (r: seq<Entry>)
    requires forall id :: id in ids ==> id < |store|
    ensures r == ClearSelected(store, ids)
  {
    r := store;
    for i := 0 to |ids|
      invariant |r| == |store| && r == ClearSelected(store, ids[..i])
    {
      assert ids[..i + 1] == ids[..i] + [ids[i]] && ids[i] in ids;
      r := r[ids[i] := r[ids[i]].(selected := false)];
    }
    assert ids[..|ids|] == ids;
  }

  /**
   * The write-back of a selection with value `v` and text `t` to the host's
   * options: the first option with that value or that text is found; when there
   * is one, every option loses its selected flag, one after another, and that
   * option gains it.
   */
  method WriteBack(light: seq<SourceOption>, v: string, t: string) returns (r: seq<SourceOption>)
    ensures r == if FirstMatch(light, v, t).Some? then Reflect(light, v, t) else light
  {
    r := light;
    var target := FirstMatch(light, v, t);
    if target.Some? {
      for j := 0 to |r|
        invariant |r| == |light|
        invariant forall k :: 0 <= k < |light| ==> r[k] == if k < j then light[k].(selected := false) else light[k]
      {
        r := r[j := r[j].(selected := false)];
      }
      ReflectByClearing(light, r, v, t);
      r := r[target.value := r[target.value].(selected := true)];
    }
  }

  /** Writes each listed entry's hidden flag as "not in `visible`". */
  method HideUnlistedBy(store: seq<Entry>, ids: seq<nat>, visible: seq<nat>) returns (r: seq<Entry>)
    ensures r == HideUnlisted(store, ids, visible)
  {
    r := store;
    for i := 0 to |ids|
      invariant |r| == |store|
      invariant forall id :: 0 <= id < |store| ==> r[id] == if id in ids[..i] then store[id].(hidden := id !in visible) else store[id]
    {
      assert ids[..i + 1] == ids[..i] + [ids[i]];
      if ids[i] < |r| {
        r := r[ids[i] := store[ids[i]].(hidden := ids[i] !in visible)];
      }
    }
    assert ids[..|ids|] == ids;
  }

  /** Hides every group with no shown entry and shows every other one. */
  method HideEmptyGroupsBy(store: seq<Entry>, groups: seq<RenderGroup>) returns (r: seq<RenderGroup>)
    ensures r == HideEmptyGroups(store, groups)
  {
    r := groups;
    for g := 0 to |groups|
      invariant |r| == |groups|
      invariant forall h :: 0 <= h < |groups| ==> r[h] == if h < g then groups[h].(hidden := !HasUnhidden(store, groups[h].members)) else groups[h]
    {
      r := r[g := groups[g].(hidden := !HasUnhidden(store, groups[g].members))];
    }
  }

  /**
   * The steps of the search box's `input` handler on the state `m` with the
   * text `query`, one after another: the visible list is filtered, the
   * available list recomputed, the entries' and then the groups' hidden flags
   * rewritten.
   */
  method SearchBy(m: Mirror, query: string) returns (r: Mirror)
    ensures r == Searched(m, query)
  {
    var shown := FilterBy(m.store, m.all, Matches(query));
    var selectable := FilterBy(m.store, shown, NotDisabled);
    var entries := HideUnlistedBy(m.store, m.all, shown);
    var rendered := HideEmptyGroupsBy(entries, m.groups);
    r := m.(visible := shown, available := selectable, store := entries, groups := rendered);
  }

  /**
   * The steps of `selectCurrrentOption` on the state `m` whose current entry is
   * the enabled entry `id`, one after another: every listed entry loses its
   * selected flag, the form value and the validity follow the entry's value,
   * the entry is marked selected, the host's options are written back, the
   * presentation shows the entry's text and one `change` event is counted.
   */
  method ChooseBy(m: Mirror, id: nat, msg: string) returns (r: Mirror)
    requires id < |m.store| && m.current == Some(id) && forall x :: x in m.all ==> x < |m.store|
    ensures r == Chosen(m, id, msg)
  {
    ChosenFields(m, id, msg);
    var entries := RemoveSelected(m.store, m.all);
    var e := entries[id];
    assert e.(selected := true) == m.store[id].(selected := true);
    assert e.value == m.store[id].value && e.text == m.store[id].text;
    var options := WriteBack(m.light, e.value, e.text);
    r := m.(formValue := FormValueOf(e.value), validity := ValidityOf(e.value, msg), light := options);
    r := r.(store := entries[id := e.(selected := true)], presentation := LabelOf(e.text), changes := m.changes + 1);
  }

  /**
   * The loop of `toggleSearch` switching the search off on the state `m`: the
   * `hidden` class is removed from every listed entry in turn.
   */
  method UnhideBy(m: Mirror) returns (r: Mirror)
    requires forall id :: id in m.all ==> id < |m.store|
    ensures r == Unhidden(m)
  {
    var entries, ids := m.store, m.all;
    for i := 0 to |ids|
      invariant |entries| == |m.store|
      invariant forall id :: 0 <= id < |m.store| ==> entries[id] == if id in ids[..i] then m.store[id].(hidden := false) else m.store[id]
    {
      assert ids[..i + 1] == ids[..i] + [ids[i]] && ids[i] in ids;
      entries := entries[ids[i] := entries[ids[i]].(hidden := false)];
    }
    assert ids[..|ids|] == ids;
    r := m.(store := entries);
  }

  /**
   * The entry an arrow key moves to: ArrowDown the available entry after
   * `current`, or the first; ArrowUp the one before, or the last; other keys none.
   */
  function KeyTarget(key: Key, available: seq<nat>, current: Option<nat>): (r: Option<nat>)
    ensures r.Some? ==> r.value in available
    ensures r.None? <==> key == OtherKey || available == []
  {
    NavigationStaysAvailable(available, current);
    match key
    case ArrowDown => NextOption(available, current)
    case ArrowUp => PreviousOption(available, current)
    case OtherKey => None
  }

  class Element {
    /** The host's options in document order, and its child nodes. */
    var light: seq<SourceOption>
    var children: seq<Node>
    /** Every clone ever made, by identifier; `allOptions`, `visibleOptions`, `availableOptions`. */
    var store: seq<Entry>
    var all: seq<nat>
    var visible: seq<nat>
    var available: seq<nat>
    /** The rendered `nice-optgroup` elements, in the order they were appended. */
    var groups: seq<RenderGroup>
    /** `currentOption`. */
    var current: Option<nat>
    /** What ElementInternals holds: the form value and the validity. */
    var formValue: Option<string>
    var validity: Validity
    var validityMessage: string
    /** The presentation's text and the `placeholder` attribute. */
    var presentation: string
    var placeholder: Option<string>
    /** How many `change` events have been dispatched. */
    var changes: nat
    /** The custom states `interacted` and `open`. */
    var interacted: bool
    var isOpen: bool
    var searchEnabled: bool
    /** The option list's `scrollTop`. */
    var scrollTop: int

    function Snapshot(): Mirror
      reads this`light, this`store, this`all, this`visible, this`available, this`groups, this`current
      reads this`formValue, this`validity, this`presentation, this`changes
    {
      Mirror(light, store, all, visible, available, groups, current, formValue, validity, presentation, changes)
    }

    function Rest(): Widget
      reads this`children, this`validityMessage, this`placeholder, this`interacted, this`isOpen, this`searchEnabled, this`scrollTop
    {
      Widget(children, validityMessage, placeholder, interacted, isOpen, searchEnabled, scrollTop)
    }

    /** The identifiers the element holds name entries that exist. */
    predicate Indexed()
      reads this`current, this`store, this`all
    {
      && (current.Some? ==> current.value < |store|)
      && (forall id :: id in all ==> id < |store|)
    }

    /** The element's invariant between two handlers. */
    predicate Valid()
      reads this`light, this`store, this`all, this`visible, this`available, this`groups, this`current
      reads this`formValue, this`validity, this`presentation, this`changes, this`validityMessage
    {
      Consistent(Snapshot(), validityMessage)
    }

    /**
     * The state between the constructor and the first connection: nothing is
     * mirrored, rendered or current yet.
     */
    predicate Unconnected()
      reads this`store, this`all, this`visible, this`available, this`groups, this`current
    {
      store == [] && all == [] && visible == [] && available == [] && groups == [] && current == None
    }

    /**
     * The constructor: nothing is mirrored yet, and the presentation shows the
     * placeholder, or "Select" without one.
     */
    constructor(light: seq<SourceOption>, children: seq<Node>, placeholder: Option<string>)
      ensures this.light == light && this.children == children && this.placeholder == placeholder
      ensures store == [] && all == [] && visible == [] && available == [] && groups == []
      ensures Unconnected()
      ensures current == None && formValue == None && validity == Satisfied && changes == 0
      ensures validityMessage == DefaultValidityMessage
      ensures presentation == if placeholder.Some? && placeholder.value != "" then placeholder.value else DefaultPresentation
      ensures !interacted && !isOpen && !searchEnabled && scrollTop == 0
    {
      this.light := light;
      this.children := children;
      this.placeholder := placeholder;
      presentation := if placeholder.Some? && placeholder.value != "" then placeholder.value else DefaultPresentation;
      store := [];
      all := [];
      available := [];
      visible := [];
      groups := [];
      current := None;
      formValue := None;
      validity := Satisfied;
      validityMessage := DefaultValidityMessage;
      changes := 0;
      interacted := false;
      isOpen := false;
      searchEnabled := false;
      scrollTop := 0;
    }

    /** `updateAvailableOptions`: the visible entries that are not disabled. */
    method UpdateAvailableOptions()
      modifies this`available
      ensures available == Filter(store, visible, NotDisabled)
    {
      available := FilterBy(store, visible, NotDisabled);
    }

    /**
     * `selectCurrrentOption`: nothing happens without a current entry or when it
     * is disabled; otherwise every listed entry loses its selected flag, the form
     * value and the validity follow the current entry's value, the current entry
     * is marked selected, the first host option with its value or its text is
     * marked as the only selected one, the presentation shows its text and one
     * `change` event is dispatched.
     */
    method SelectCurrentOption()
      requires Indexed()
      modifies this`store, this`light, this`formValue, this`validity, this`presentation, this`changes
      ensures old(current).None? || old(store[current.value].disabled) ==> Snapshot() == old(Snapshot())
      ensures old(current).Some? && !old(store[current.value].disabled) ==>
        Snapshot() == Chosen(old(Snapshot()), old(current.value), validityMessage)
    {
      if current.None? || store[current.value].disabled {
        return;
      }
      Commit(current.value);
    }

    /**
     * The part of `selectCurrrentOption` that runs once the current entry is
     * known to be the enabled entry `id`.
     */
    method Commit(id: nat)
      requires id < |store| && Indexed() && current == Some(id)
      modifies this`store, this`light, this`formValue, this`validity, this`presentation, this`changes
      ensures Snapshot() == Chosen(old(Snapshot()), id, validityMessage)
    {
      var r := ChooseBy(Snapshot(), id, validityMessage);
      light, store, formValue, validity, presentation, changes := r.light, r.store, r.formValue, r.validity, r.presentation, r.changes;
    }

    /** Makes `id` the current option and selects it, which does nothing more when it is disabled. */
    method Select(id: nat)
      requires id < |store| && Indexed()
      modifies this`current, this`store, this`light, this`formValue, this`validity, this`presentation, this`changes
      ensures old(store[id].disabled) ==> Snapshot() == old(Snapshot()).(current := Some(id))
      ensures !old(store[id].disabled) ==> Snapshot() == Chosen(old(Snapshot()), id, validityMessage)
    {
      ghost var m := Snapshot();
      current := Some(id);
      ChosenIgnoresCurrent(m, id, validityMessage, Some(id));
      SelectCurrentOption();
    }

    /**
     * The first steps of the option branch of `addValidNodeToOptions` for the
     * host option `k`: it is cloned, and a clone marked selected loses the mark
     * when disabled and is otherwise made current and selected.
     */
    method CloneOption(k: nat) returns (id: nat)
      requires k < |light| && Indexed()
      modifies this`light, this`store, this`current, this`formValue, this`validity, this`presentation, this`changes
      ensures id == old(|store|)
      ensures var m := old(Snapshot()); var m1 := m.(store := m.store + [RawClone(m.light[k], Picks(m.light, k))]);
        Snapshot() == if Picks(m.light, k) then Chosen(m1, |m.store|, validityMessage) else m1
    {
      ghost var m := Snapshot();
      var s := light[k];
      id := |store|;
      ghost var m1 := m.(store := m.store + [RawClone(s, Picks(m.light, k))]);
      store := store + [RawClone(s, s.selected)];
      if store[id].selected {
        if store[id].disabled {
          store := store[id := store[id].(selected := false)];
          assert store == m1.store;
        } else {
          current := Some(id);
          ChosenIgnoresCurrent(m1, id, validityMessage, current);
          SelectCurrentOption();
        }
      }
    }

    /**
     * The option branch of `addValidNodeToOptions` for the host option `k`: the
     * clone is pushed to the visible and available lists as its flags say, its
     * empty value is replaced by its text, and it is appended to `parent` and to
     * `allOptions`.
     */
    method AddOption(k: nat, parent: Option<nat>)
      requires k < |light| && Indexed()
      modifies this`light, this`store, this`all, this`visible, this`available, this`groups, this`current, this`formValue, this`validity, this`presentation, this`changes
      ensures Snapshot() == Mirroring.AddOption(old(Snapshot()), k, parent, validityMessage)
      ensures Indexed() && |groups| == old(|groups|)
    {
      ghost var m := Snapshot();
      var id := CloneOption(k);
      ghost var m2 := Snapshot();
      Register(id, parent);
      AddOptionAfterSelection(m, k, parent, validityMessage, m2, Snapshot());
    }

    /**
     * The rest of `addOption` for the clone `id`: an empty value is replaced by
     * the text, the clone joins `allOptions`, `visibleOptions` unless hidden,
     * `availableOptions` unless also disabled, and `parent`'s members.
     */
    method Register(id: nat, parent: Option<nat>)
      requires id < |store|
      modifies this`store, this`all, this`visible, this`available, this`groups
      ensures var m := old(Snapshot()); var e := m.store[id];
        Snapshot() == m.(
          store := m.store[id := Defaulted(e)],
          all := m.all + [id],
          visible := m.visible + (if !e.hidden then [id] else []),
          available := m.available + (if !e.hidden && !e.disabled then [id] else []),
          groups := Attach(m.groups, parent, [id]))
    {
      var e := store[id];
      visible := visible + (if !e.hidden then [id] else []);
      available := available + (if !e.hidden && !e.disabled then [id] else []);
      store := store[id := if e.value == "" then e.(value := e.text) else e];
      groups := Attach(groups, parent, [id]);
      all := all + [id];
    }

    /**
     * `addValidNodeToOptions(node, parent)`: an optgroup with an option of
     * non-blank text anywhere inside it is rendered at the end of the option list and its children
     * are added to it, one after another; an option is added when its trimmed
     * text is not empty; anything else is ignored.
     */
    method AddValidNode(node: Node, parent: Option<nat>)
      requires Indexed() && (parent.None? || parent.value < |groups|)
      modifies this`light, this`store, this`all, this`visible, this`available, this`groups, this`current, this`formValue, this`validity, this`presentation, this`changes
      ensures Snapshot() == VisitNode(old(Snapshot()), node, parent, validityMessage)
      ensures Indexed() && |groups| >= old(|groups|)
      decreases node
    {
      match node
      case Group(c, cs) =>
        if HasShown(Shown(light), cs) {
          var g := |groups|;
          groups := groups + [RenderGroup(c, [], false)];
          ghost var s1 := Snapshot();
          for i := 0 to |cs|
            invariant Snapshot() == Visit(s1, cs[..i], Some(g), validityMessage)
            invariant Indexed() && g < |groups|
          {
            assert cs[..i + 1][..i] == cs[..i];
            AddValidNode(cs[i], Some(g));
          }
          assert cs[..|cs|] == cs;
        }
      case Opt(k) =>
        if k < |light| {
          BlankIff(light[k].text);
          if Trim(light[k].text) != "" {
            AddOption(k, parent);
          }
        }
      case Other(_) =>
    }

    /**
     * `updateOptions`: the three lists and the option list are emptied and every
     * child node of the host is added in turn.
     */
    method UpdateOptions()
      requires Indexed()
      modifies this`light, this`store, this`all, this`visible, this`available, this`groups, this`current, this`formValue, this`validity, this`presentation, this`changes
      ensures Snapshot() == Resync(old(Snapshot()), children, validityMessage)
      ensures Indexed()
    {
      all, available, visible, groups := [], [], [], [];
      AddValidNodes(children);
    }

    /** `addValidNodeToOptions(node)` on each of `nodes` in turn, at the top level. */
    method AddValidNodes(nodes: seq<Node>)
      requires Indexed()
      modifies this`light, this`store, this`all, this`visible, this`available, this`groups, this`current, this`formValue, this`validity, this`presentation, this`changes
      ensures Snapshot() == Visit(old(Snapshot()), nodes, None, validityMessage)
      ensures Indexed()
    {
      ghost var s0 := Snapshot();
      for i := 0 to |nodes|
        invariant Snapshot() == Visit(s0, nodes[..i], None, validityMessage)
        invariant Indexed()
      {
        assert nodes[..i + 1][..i] == nodes[..i];
        AddValidNode(nodes[i], None);
      }
      assert nodes[..|nodes|] == nodes;
    }

    /**
     * `connectedCallback`, as far as the option mirror goes: the validity
     * message is taken from `data-validity-message` when present, the validity
     * becomes value-missing and the options are brought in by `updateOptions`.
     * On a first connection, with no form value yet, the invariant holds after.
     */
    method Connect(messageAttribute: Option<string>)
      requires Indexed()
      modifies this`validityMessage, this`light, this`store, this`all, this`visible, this`available, this`groups
      modifies this`current, this`formValue, this`validity, this`presentation, this`changes
      ensures validityMessage == if messageAttribute.Some? then messageAttribute.value else old(validityMessage)
      ensures Snapshot() == Resync(old(Snapshot()).(validity := ValueMissing(validityMessage)), children, validityMessage)
      ensures old(formValue).None? ==> Valid()
    {
      if messageAttribute.Some? {
        validityMessage := messageAttribute.value;
      }
      validity := ValueMissing(validityMessage);
      ghost var m := Snapshot();
      UpdateOptions();
      if m.formValue.None? {
        ResyncConsistent(m, children, validityMessage);
      }
    }

    /**
     * The child-list observer's callback once the host's options and child
     * nodes have changed to `light` and `children`: a full `updateOptions`.
     */
    method ChildrenChanged(light: seq<SourceOption>, children: seq<Node>)
      requires Valid()
      modifies this`children, this`light, this`store, this`all, this`visible, this`available, this`groups
      modifies this`current, this`formValue, this`validity, this`presentation, this`changes
      ensures this.children == children
      ensures Snapshot() == Resync(old(Snapshot()).(light := light), children, validityMessage)
      ensures Valid()
    {
      this.light := light;
      this.children := children;
      ghost var m := Snapshot();
      UpdateOptions();
      ResyncConsistent(m, children, validityMessage);
    }

    /**
     * The search box's `input` handler with the text `query`: the visible list
     * becomes the listed entries whose text includes the query, ignoring case;
     * the available list is recomputed; every listed entry is hidden exactly
     * when it is not visible, and every rendered group exactly when it has no
     * entry left shown.
     */
    method OnSearchInput(query: string)
      requires Valid()
      modifies this`visible, this`available, this`store, this`groups
      ensures Snapshot() == Searched(old(Snapshot()), query)
      ensures Valid()
    {
      ghost var m := Snapshot();
      var r := SearchBy(Snapshot(), query);
      visible, available, store, groups := r.visible, r.available, r.store, r.groups;
      SearchConsistent(m, query, validityMessage);
    }

    /**
     * `toggleSearch` on a change of `data-search` to `hasSearch`: nothing happens
     * when the search is on and stays on; otherwise the search is switched as
     * the attribute says, and switching it off shows every listed entry again.
     */
    method ToggleSearch(hasSearch: bool)
      requires Valid() || Unconnected()
      modifies this`searchEnabled, this`store
      ensures old(searchEnabled) && hasSearch ==> searchEnabled && Snapshot() == old(Snapshot())
      ensures searchEnabled == hasSearch
      ensures Snapshot() == if hasSearch then old(Snapshot()) else Unhidden(old(Snapshot()))
      ensures old(Valid()) ==> Valid()
      ensures old(Unconnected()) ==> Unconnected()
    {
      if searchEnabled && hasSearch {
        return;
      }
      searchEnabled := hasSearch;
      if !searchEnabled {
        ghost var m := Snapshot();
        var r := UnhideBy(Snapshot());
        store := r.store;
        if Consistent(m, validityMessage) {
          UnhiddenConsistent(m, validityMessage);
        }
      }
    }

    /**
     * The `keydown` handler. ArrowDown selects the available entry after the
     * current one, or the first; ArrowUp the one before, or the last. When
     * there is one, the `interacted` and `open` states are set and the list
     * scrolls the newly current entry, laid out as `layout` says, into view.
     * Other keys, and an empty available list, change nothing.
     */
    method OnKeyDown(key: Key, layout: nat -> Layout, listHeight: int)
      requires Valid()
      modifies this`light, this`store, this`available, this`current, this`formValue, this`validity, this`presentation, this`changes
      modifies this`interacted, this`isOpen, this`scrollTop
      ensures var next := KeyTarget(key, old(available), old(current));
        if next.None? then
          Snapshot() == old(Snapshot()) && interacted == old(interacted) && isOpen == old(isOpen) && scrollTop == old(scrollTop)
        else
          && next.value < old(|store|) && !old(store[next.value].disabled)
          && Snapshot() == Chosen(old(Snapshot()), next.value, validityMessage)
          && interacted && isOpen
          && scrollTop == ScrollTopFor(ListOffset(layout(next.value)), layout(next.value).height, listHeight, old(scrollTop))
      ensures Valid()
    {
      if key == OtherKey {
        return;
      }
      ghost var m := Snapshot();
      UpdateAvailableOptions();
      assert Snapshot() == m;
      KeyMove(key, layout, listHeight);
    }

    /** The `keydown` handler once the available list is up to date. */
    method KeyMove(key: Key, layout: nat -> Layout, listHeight: int)
      requires Valid()
      modifies this`light, this`store, this`current, this`formValue, this`validity, this`presentation, this`changes
      modifies this`interacted, this`isOpen, this`scrollTop
      ensures var next := KeyTarget(key, old(available), old(current));
        if next.None? then
          Snapshot() == old(Snapshot()) && interacted == old(interacted) && isOpen == old(isOpen) && scrollTop == old(scrollTop)
        else
          && next.value < old(|store|) && !old(store[next.value].disabled)
          && Snapshot() == Chosen(old(Snapshot()), next.value, validityMessage)
          && interacted && isOpen
          && scrollTop == ScrollTopFor(ListOffset(layout(next.value)), layout(next.value).height, listHeight, old(scrollTop))
      ensures Valid()
    {
      var next := KeyTarget(key, available, current);
      if next.None? {
        return;
      }
      MoveTo(next.value);
      ghost var chosen := Snapshot();
      Reveal(layout(next.value), listHeight);
      assert Snapshot() == chosen;
    }

    /**
     * After a key moved the selection: the custom states `interacted` and
     * `open` are added, and the list is scrolled so that the newly current
     * entry, laid out as `l`, is in view.
     */
    method Reveal(l: Layout, listHeight: int)
      modifies this`interacted, this`isOpen, this`scrollTop
      ensures interacted && isOpen
      ensures scrollTop == ScrollTopFor(ListOffset(l), l.height, listHeight, old(scrollTop))
    {
      Interacted(true);
      ScrollIntoView(l, listHeight);
    }

    /** Adds the custom state `interacted`, and `open` too when `opening`. */
    method Interacted(opening: bool)
      modifies this`interacted, this`isOpen
      ensures interacted && isOpen == (opening || old(isOpen))
    {
      interacted := true;
      if opening {
        isOpen := true;
      }
    }

    /** Makes the available entry `id` current and selects it. */
    method MoveTo(id: nat)
      requires Valid() && id in available
      modifies this`light, this`store, this`current, this`formValue, this`validity, this`presentation, this`changes
      ensures id < old(|store|) && !old(store[id].disabled)
      ensures Snapshot() == Chosen(old(Snapshot()), id, validityMessage)
      ensures Valid()
    {
      ghost var m := Snapshot();
      FilterMembers(store, visible, NotDisabled);
      Select(id);
      ChosenConsistent(m, id, validityMessage);
    }

    /**
     * Scrolls the list, `listHeight` high, so that the entry laid out as `l`
     * is in view: down to its bottom edge when that is below the view, else up
     * to its top edge when that is above it.
     */
    method ScrollIntoView(l: Layout, listHeight: int)
      modifies this`scrollTop
      ensures scrollTop == ScrollTopFor(ListOffset(l), l.height, listHeight, old(scrollTop))
    {
      var top := GetListOffset(l);
      var bottom := top + l.height;
      if bottom > listHeight + scrollTop {
        scrollTop := bottom - listHeight;
      } else if top < scrollTop {
        scrollTop := top;
      }
    }

    /**
     * The option list's `click` handler, `target` being the clicked entry if an
     * entry was clicked: a click on another entry than the current one makes it
     * current and selects it (which does nothing when it is disabled) and sets
     * the `interacted` state.
     */
    method OnClick(target: Option<nat>)
      requires Valid() && (target.Some? ==> target.value in all)
      modifies this`light, this`store, this`current, this`formValue, this`validity, this`presentation, this`changes, this`interacted, this`isOpen
      ensures isOpen == old(isOpen)
      ensures target.None? || old(current) == target ==> Snapshot() == old(Snapshot()) && interacted == old(interacted)
      ensures target.Some? && old(current) != target ==>
        && current == target && interacted
        && (old(store[target.value].disabled) ==> Snapshot() == old(Snapshot()).(current := target))
        && (!old(store[target.value].disabled) ==> Snapshot() == Chosen(old(Snapshot()), target.value, validityMessage))
      ensures Valid()
    {
      if target.None? || current == target {
        return;
      }
      ghost var m := Snapshot();
      Select(target.value);
      if !m.store[target.value].disabled {
        ChosenConsistent(m, target.value, validityMessage);
      }
      Interacted(false);
    }

    /** The `value` getter: the current entry's value, or null when it is empty or there is none. */
    function Value(): (r: Option<string>)
      reads this`current, this`store
      ensures r.Some? <==> current.Some? && current.value < |store| && store[current.value].value != ""
      ensures r.Some? ==> r.value == store[current.value].value
    {
      if current.Some? && current.value < |store| && store[current.value].value != "" then Some(store[current.value].value) else None
    }

    /**
     * The `value` setter: the first available entry with value `v` is made
     * current and selected; without one, an error is thrown and nothing changes.
     */
    method SetValue(v: string) returns (outcome: Outcome)
      requires Valid() || Unconnected()
      modifies this`light, this`store, this`current, this`formValue, this`validity, this`presentation, this`changes
      ensures var found := FindByValue(old(store), old(available), v);
        && (found.None? ==> outcome == Thrown(NotAValidOption(v)) && Snapshot() == old(Snapshot()))
        && (found.Some? ==> outcome == Done && Snapshot() == Chosen(old(Snapshot()), found.value, validityMessage))
      ensures outcome == Done ==> Value() == Some(v) && formValue == Some(v) && validity == Satisfied
      ensures old(Valid()) ==> Valid()
      ensures old(Unconnected()) ==> outcome == Thrown(NotAValidOption(v)) && Unconnected()
    {
      var found := FindByValue(store, available, v);
      if found.None? {
        return Thrown(NotAValidOption(v));
      }
      ghost var e := store[found.value];
      FilterMembers(store, visible, NotDisabled);
      assert e.value != "";
      MoveTo(found.value);
      assert store[found.value].(selected := false) == e.(selected := false);
      outcome := Done;
    }

    /**
     * A change of the `placeholder` attribute: it is recorded, and the
     * presentation shows the current entry's value, or else the placeholder.
     */
    method OnPlaceholderChanged(p: Option<string>)
      modifies this`placeholder, this`presentation
      ensures placeholder == p
      ensures presentation == if Value().Some? then Value().value else if p.Some? then p.value else ""
    {
      placeholder := p;
      var v := Value();
      presentation := if v.Some? then v.value else if p.Some? then p.value else "";
    }

    /** The `open` setter. */
    method SetOpen(value: bool)
      modifies this`isOpen
      ensures isOpen == value
    {
      isOpen := value;
    }
  }
}
