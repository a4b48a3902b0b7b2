# nice-select: the option mirror and selection controller

`nice-select` is a form-associated custom element that replaces a native
`<select>`. It mirrors the `<option>` and `<optgroup>` children of its host
into its shadow tree. It keeps three ordered lists over the mirrored entries:
`allOptions`, `visibleOptions` (not hidden by the search filter) and
`availableOptions` (visible and not disabled). Pointer, keyboard and
programmatic input resolve to one `currentOption`, whose value is registered
with the enclosing form together with a validity.

This project models that controller in Dafny and proves what it does.

- `nice-select.js` is the current form of the element. It is the `NiceSelect`
  class, built on the functions and lemmas of `Views`, `Markup`, `Mirroring`,
  `Searching` and `Scrolling`.
- `webcomp.js` is the older form. It is the `Legacy` module, whose lemmas tie
  it to the current form.

How the model is laid out:

- **Host markup.** The host's child nodes are a tree
  `Node = Opt(index) | Group(caption, children) | Other(options)`. An `Other`
  node is any other node, with the options inside it, which the traversal never
  reaches but the optgroup test counts. The host's
  `<option>` elements, in document order, are a `seq<SourceOption>`: text,
  value, selected, disabled, hidden.
- **Entries.** Every clone the element ever makes gets an identifier, its index
  in a `store` that only grows. The three lists are `seq<nat>` of identifiers,
  and `currentOption` is an `Option<nat>`. A resync therefore leaves a stale
  current entry pointing at its old clone, as in the source.
- **Element state.** Each class's fields are the element's state. Each method
  is one closure or handler and updates the fields step by step. Every method
  is proved to leave the state where a function on values (`Chosen`,
  `AddOption`, `Visit`, `Resync`, `Searched`, …) says it does. The lemmas about
  those functions state the properties.
- **Invariant.** `Consistent` is the invariant that every handler a user can
  trigger keeps:
  - the three lists hold (`Available ⊆ Visible ⊆ All`, in order);
  - at most one listed entry is selected;
  - every listed entry has non-blank text and a non-empty value;
  - validity is satisfied exactly when a form value is registered, and that
    value is non-empty;
  - a missing value is reported with the element's message.

Where the code and its description differ, the model follows the code:

- **Which selected option wins a resync.** In `nice-select.js` it is the
  FIRST selected and enabled option with non-blank text.
  `selectCurrrentOption` writes the selection back to the host's options
  (nice-select.js:116-126). It clears `selected` on every host option and sets
  it on the first one with the same value or text, which is at or before the
  one just cloned. Every later host option has therefore lost its flag before
  it is cloned (`Mirroring.PickSuppressed`, `Mirroring.ResyncMirrors`).
  `webcomp.js` has no write-back, so there the LAST such option wins
  (`Legacy.LegacyVisitMirrors`).
- **Value of an option with `value=""`.** The clone's empty value is replaced
  by its text only after the selection call (nice-select.js:239-241). A
  selected option with `value=""` therefore registers no form value at resync,
  although its listed entry then has its text as value.
- **Placeholder change.** A change of `placeholder` makes the presentation show
  the current entry's VALUE, not its text (nice-select.js:577). In `webcomp.js`
  it shows the last submitted value (webcomp.js:483).

## Model

| member | source | states |
|---|---|---|
| `Text.BlankIff` | nice-select.js:215-216 | a text is blank (all ECMAScript white space) exactly when `trim` leaves nothing of it, the test that drops an option |
| `Text.IncludesIff` | nice-select.js:56-58 | `includes` holds exactly when the query occurs at some position of the text |
| `Views.FilterMembers` | nice-select.js:88-92 | `filter` keeps exactly the entries of the list that meet the criterion, and no more of them than the list has |
| `Views.NestedViews` | nice-select.js:231-237 | under the view invariant, Available is a subsequence of Visible, which is a subsequence of All; Available holds only enabled visible entries |
| `Views.EmptyQueryMatchesAll` | nice-select.js:56-58 | an empty search query matches every entry |
| `Views.MatchIgnoresCase` | nice-select.js:57 | matching gives the same answer whatever the case of the query or of the entry's text |
| `Views.FormValueOf` | nice-select.js:103 | the registered form value is present exactly when the value is non-empty, and is then that value |
| `Views.ValidityOf` | nice-select.js:105-112 | validity is satisfied exactly when the value is non-empty, and otherwise value-missing with the element's message |
| `Views.LabelOf` | nice-select.js:128-133 | the presentation shows the entry's text, or a no-break space when it has none; never nothing |
| `Views.IndexOf` | nice-select.js:344 | `indexOf` gives the first position of the entry, or -1 exactly when it is absent |
| `Views.NextSteps` | nice-select.js:343-345 | ArrowDown picks the entry after the current one, and the first when the current one is last or absent |
| `Views.PreviousSteps` | nice-select.js:347-349 | ArrowUp picks the entry before the current one, and the last when the current one is first or absent |
| `Views.NavigationRoundTrip` | nice-select.js:343-350 | ArrowDown then ArrowUp, and ArrowUp then ArrowDown, return to the starting available entry, across the wrap too |
| `Views.NavigationEmpty` | nice-select.js:352 | with nothing available, neither arrow key finds an entry |
| `Views.NavigationStaysAvailable` | nice-select.js:343-350 | the entry an arrow key picks is always an available one |
| `Views.FindByValue` | nice-select.js:619 | `find` returns the first available entry with the given value, and nothing exactly when no available entry has it |
| `Markup.ShownIff` | nice-select.js:215-216 | a host option is mirrored exactly when its text is not blank |
| `Markup.KeptMembers` | nice-select.js:196-216 | the mirrored options of a traversal are exactly those of its options with non-blank text |
| `Markup.KeptIncreasing` | nice-select.js:264-265 | mirroring keeps document order |
| `Markup.Defaulted` | nice-select.js:239-241 | an empty value is replaced by the text; a non-empty value and every other attribute stay; the value is non-empty when either was |
| `Markup.FirstPick` | nice-select.js:221-228 | the position of the first option that is selected and enabled, or none exactly when no option is |
| `Markup.LastPick` | webcomp.js:201-209 | the position of the last option that is selected and enabled, or none exactly when no option is |
| `Markup.FirstMatch` | nice-select.js:116-119 | the first host option whose value or text equals the selection's, or none exactly when no option matches |
| `Markup.Reflect` | nice-select.js:116-126 | writing a selection back leaves only the first matching host option selected, or changes nothing without a match; only selected flags change |
| `Markup.ReflectOwnOption` | nice-select.js:116-126 | writing back the selection of a clone of host option k leaves exactly one host option selected, at or before k |
| `Markup.GroupsMirrored` | nice-select.js:196-212 | every entry a rendered group holds is one the same traversal mirrors |
| `Mirroring.Chosen` | nice-select.js:95-135 | a selection leaves the chosen entry the only selected listed entry; form value, validity and label follow its value and text, the label being a no-break space for an empty text; one change is dispatched; the lists stay |
| `Mirroring.ChosenConsistent` | nice-select.js:99-114 | a selection keeps the element's invariant, and afterwards exactly the chosen listed entry is selected |
| `Mirroring.AddOption` | nice-select.js:218-244 | mirroring an option appends one entry, a clone of it, selected exactly when the option is selected and enabled, to `allOptions` |
| `Mirroring.AddOptionShape` | nice-select.js:218-244 | mirroring an option puts the clone in Visible unless hidden and in Available unless also disabled; a selected and enabled option becomes current and is selected; a selected disabled one loses its flag |
| `Mirroring.PickSuppressed` | nice-select.js:116-126 | once a selected option has been written back, no later host option is still selected and enabled |
| `Mirroring.NextPick` | nice-select.js:221-228 | during a traversal, a later option is picked exactly when no earlier option was and it is selected and enabled |
| `Mirroring.ResyncMirrors` | nice-select.js:257-265 | a resync lists afresh, in document order, a clone of each host option with non-blank text; Visible and Available are derived from the flags; the first selected and enabled one is current and alone selected; with none, the old current entry survives |
| `Mirroring.VisitConsistent` | nice-select.js:196-245 | a traversal of child nodes keeps the element's invariant |
| `Mirroring.ResyncConsistent` | nice-select.js:257-271 | a resync establishes the invariant from any state whose selection is consistent |
| `Mirroring.VisitRenders` | nice-select.js:196-245 | a traversal appends its direct options to the parent and renders, after the existing groups, exactly the optgroups holding an option with non-blank text at any depth, inside other elements too |
| `Mirroring.ResyncRenders` | nice-select.js:196-213 | after a resync the rendered groups are exactly the optgroups with an option of non-blank text anywhere inside them, in document order |
| `Searching.SearchFilters` | nice-select.js:55-60 | after a search, an entry is visible exactly when it is listed and its lower-cased text includes the lower-cased query, and available exactly when it is also enabled |
| `Searching.SearchHides` | nice-select.js:62-64 | after a search a listed entry is hidden exactly when it is not visible; nothing but hidden flags changes |
| `Searching.SearchHidesGroups` | nice-select.js:66-68 | after a search a rendered group is hidden exactly when none of its entries is visible |
| `Searching.SearchAgreesWithFlags` | nice-select.js:56-64 | after a search the visible entries are exactly the listed entries not hidden |
| `Searching.EmptySearchShowsAll` | nice-select.js:56-58 | an empty search makes every listed entry visible and unhidden |
| `Searching.SearchConsistent` | nice-select.js:55-69 | a search keeps the element's invariant |
| `Searching.UnhiddenConsistent` | nice-select.js:76-84 | switching the search off shows every listed entry and keeps the invariant |
| `Scrolling.GetListOffset` | nice-select.js:321-333 | `getListOffset` returns the entry's `offsetTop` plus those of its ancestors below the list |
| `Scrolling.ScrollTopFor` | nice-select.js:361-371 | an entry that fits ends up entirely in view; an entry already in view moves nothing; the list moves only to align the entry's bottom or top edge |
| `Scenarios.ResyncAbc` | nice-select.js:257-265 | options A, B disabled and C selected resync to All [A, B, C], Available [A, C], current C, form value C, validity satisfied |
| `Scenarios.ResyncWrappedOption` | nice-select.js:196-216 | an optgroup whose only option sits inside another element is rendered, because `querySelectorAll` finds the option, but stays empty, and nothing is listed, because the traversal does not reach it |
| `Scenarios.SearchBeforeConnect` | nice-select.js:565-569 | on a freshly constructed element, `data-search` switches the search on and the value setter then throws "is not a valid option" |
| `Scenarios.LegacySearchBeforeConnect` | webcomp.js:472-476 | the same for the older form |
| `Scenarios.SearchFruits` | nice-select.js:55-69 | searching "b" over Apple, Banana, Blueberry leaves Banana and Blueberry visible and Apple hidden; an empty search shows all three |
| `NiceSelect.FilterBy` | nice-select.js:88-92 | the loop form of `filter` computes exactly the filtered list |
| `NiceSelect.RemoveSelected` | nice-select.js:99-101 | the loop clears `selected` on every listed entry and touches nothing else |
| `NiceSelect.WriteBack` | nice-select.js:116-126 | the write-back loop leaves the host's options as `Reflect` says |
| `NiceSelect.HideUnlistedBy` | nice-select.js:62-64 | the loop sets each listed entry's hidden flag to "not visible" |
| `NiceSelect.HideEmptyGroupsBy` | nice-select.js:66-68 | the loop hides exactly the groups with no shown entry |
| `NiceSelect.SearchBy` | nice-select.js:55-69 | the steps of the `input` handler produce the searched state |
| `NiceSelect.ChooseBy` | nice-select.js:99-135 | the steps of `selectCurrrentOption` produce the chosen state |
| `NiceSelect.UnhideBy` | nice-select.js:79-81 | the loop unhides every listed entry |
| `NiceSelect.KeyTarget` | nice-select.js:343-352 | an arrow key picks an available entry, and none exactly for another key or an empty Available |
| `NiceSelect.Element.constructor` | nice-select.js:24-32 | nothing is mirrored or selected; the presentation shows the placeholder or "Select"; the message is the default one |
| `NiceSelect.Element.UpdateAvailableOptions` | nice-select.js:88-92 | Available becomes the enabled visible entries |
| `NiceSelect.Element.SelectCurrentOption` | nice-select.js:95-140 | no-op without a current entry or when it is disabled; otherwise the state becomes the chosen state |
| `NiceSelect.Element.Commit` | nice-select.js:97-135 | past the guard, the state becomes the chosen state |
| `NiceSelect.Element.Select` | nice-select.js:625-626 | making an entry current and selecting it: only `current` changes for a disabled entry, and otherwise the state becomes the chosen state |
| `NiceSelect.Element.CloneOption` | nice-select.js:218-229 | the clone is appended; a selected and enabled one is made current and selected, a selected disabled one loses its flag |
| `NiceSelect.Element.Register` | nice-select.js:231-244 | the clone joins Visible unless hidden, Available unless also disabled, its group and All; an empty value becomes its text |
| `NiceSelect.Element.AddOption` | nice-select.js:218-244 | the option branch of `addValidNodeToOptions` leaves the state `Mirroring.AddOption` gives |
| `NiceSelect.Element.AddValidNode` | nice-select.js:196-245 | one child node is visited as `VisitNode` says: blank options are dropped, an optgroup is dropped when no option inside it, at any depth, has non-blank text, and other nodes are ignored together with the options inside them |
| `NiceSelect.Element.AddValidNodes` | nice-select.js:264-270 | the child nodes are visited in turn |
| `NiceSelect.Element.UpdateOptions` | nice-select.js:257-271 | the lists and rendered groups are emptied and the host's children visited: the resync state |
| `NiceSelect.Element.Connect` | nice-select.js:184-272 | the message comes from `data-validity-message` when present; validity is value-missing, then a resync; the invariant holds after a first connection |
| `NiceSelect.Element.ChildrenChanged` | nice-select.js:276-287 | a change of the host's children is a full resync and keeps the invariant |
| `NiceSelect.Element.OnSearchInput` | nice-select.js:55-69 | the `input` handler leaves the searched state and keeps the invariant |
| `NiceSelect.Element.ToggleSearch` | nice-select.js:42-85 | no-op while search stays on; switching search off unhides every listed entry; callable on a connected element, which keeps the invariant, and on the constructed, unconnected one, which stays unconnected |
| `NiceSelect.Element.OnKeyDown` | nice-select.js:336-373 | an arrow key selects the next or previous available entry, wrapping, sets `interacted` and `open` and scrolls it into view; other keys and an empty Available change nothing; the invariant holds |
| `NiceSelect.Element.KeyMove` | nice-select.js:341-371 | with Available freshly recomputed, an arrow key selects the entry `KeyTarget` gives, sets `interacted` and `open` and scrolls it into view; with none, nothing changes; the invariant holds |
| `NiceSelect.Element.Reveal` | nice-select.js:358-371 | `interacted` and `open` are set and the list scrolls by the scroll rule |
| `NiceSelect.Element.Interacted` | nice-select.js:317 | sets `interacted`, and `open` when asked |
| `NiceSelect.Element.MoveTo` | nice-select.js:354-356 | an available entry, necessarily enabled, becomes current and selected; the invariant holds |
| `NiceSelect.Element.ScrollIntoView` | nice-select.js:361-371 | `scrollTop` becomes what the scroll rule gives |
| `NiceSelect.Element.OnClick` | nice-select.js:310-318 | a click on another entry than the current one makes it current, selects it when enabled and sets `interacted`; otherwise nothing changes |
| `NiceSelect.Element.Value` | nice-select.js:615-617 | the getter gives the current entry's value, and null when there is none or it is empty |
| `NiceSelect.Element.SetValue` | nice-select.js:618-627 | without an available entry of that value it throws "is not a valid option" and changes nothing; otherwise it selects the entry `find` returns, after which the getter, the form value and the validity agree; on the unconnected element it always throws and nothing changes |
| `NiceSelect.Element.OnPlaceholderChanged` | nice-select.js:575-578 | the placeholder is recorded; the presentation shows the current value, else the placeholder |
| `NiceSelect.Element.SetOpen` | nice-select.js:595-601 | the `open` state becomes the given one |
| `Legacy.LegacyChooseBy` | webcomp.js:94-123 | the steps of the older `selectCurrrentOption` produce its chosen state |
| `Legacy.LegacyChosenIsChosen` | webcomp.js:94-123 | the older selection is the current one with the message 'value is empty' and no write-back to the host's options |
| `Legacy.LegacyChosenConsistent` | webcomp.js:97-113 | the older selection keeps the invariant, and afterwards exactly the chosen listed entry is selected |
| `Legacy.LegacyAddOptionIsAddOption` | webcomp.js:198-224 | mirroring an option in the older form is the current form's, with the host's options untouched |
| `Legacy.LegacyVisitMirrors` | webcomp.js:179-225 | a traversal appends, after the entries already listed, a clone of each option with non-blank text in document order; the LAST selected and enabled one is current and alone selected |
| `Legacy.LegacyTraversedConcat` | webcomp.js:237-243 | two incremental traversals in a row are one traversal of both lists of options |
| `Legacy.LegacyVisitConsistent` | webcomp.js:179-225 | a traversal in the older form keeps the invariant |
| `Legacy.LegacyVisitRenders` | webcomp.js:179-196 | EVERY optgroup is rendered, including one with no mirrored option |
| `Legacy.LegacyAppendRenders` | webcomp.js:237-243 | added nodes leave the rendered groups in place and append one per optgroup |
| `Legacy.Element.constructor` | webcomp.js:24-31 | nothing is mirrored or selected; the presentation shows the placeholder or "Select" |
| `Legacy.Element.UpdateAvailableOptions` | webcomp.js:87-91 | Available becomes the enabled visible entries |
| `Legacy.Element.SelectCurrentOption` | webcomp.js:94-123 | no-op without a current entry or when it is disabled; otherwise the older chosen state, with `submitValue` recorded |
| `Legacy.Element.Commit` | webcomp.js:97-122 | past the guard, the older chosen state, with `submitValue` recorded |
| `Legacy.Element.Select` | webcomp.js:531-532 | making an entry current and selecting it, as in the older form |
| `Legacy.Element.CloneOption` | webcomp.js:198-209 | the clone is appended; a selected and enabled one becomes current and selected, a selected disabled one loses its flag |
| `Legacy.Element.Register` | webcomp.js:211-224 | the clone joins Visible unless hidden, Available unless also disabled, its group and All |
| `Legacy.Element.AddOption` | webcomp.js:198-224 | the option branch leaves the state `LegacyAddOption` gives |
| `Legacy.Element.AddValidNode` | webcomp.js:179-225 | one child node is visited; every optgroup is rendered |
| `Legacy.Element.AddValidNodes` | webcomp.js:255-261 | the child nodes are visited in turn, after the entries already listed |
| `Legacy.Element.Connect` | webcomp.js:167-261 | validity becomes value-missing with 'value is empty', then the children are appended; the invariant holds from a first connection |
| `Legacy.Element.NodesAdded` | webcomp.js:237-246 | the mutation callback appends the added nodes without resetting the lists and keeps the invariant |
| `Legacy.Element.OnSearchInput` | webcomp.js:54-68 | the `input` handler leaves the searched state and keeps the invariant |
| `Legacy.Element.ToggleSearch` | webcomp.js:41-84 | records whether search is on; switching it off unhides every listed entry, otherwise the entries stay; callable connected, keeping the invariant, and unconnected, staying unconnected |
| `Legacy.Element.OnKeyDown` | webcomp.js:279-304 | arrow keys select the next or previous available entry, wrapping, and set `interacted` and `open`, without scrolling; otherwise nothing changes |
| `Legacy.Element.Interacted` | webcomp.js:301-302 | sets `interacted`, and `open` when asked |
| `Legacy.Element.MoveTo` | webcomp.js:297-299 | an available entry becomes current and selected; the invariant holds |
| `Legacy.Element.OnClick` | webcomp.js:268-276 | a click on another entry makes it current, selects it when enabled and sets `interacted` |
| `Legacy.Element.Value` | webcomp.js:521-523 | the getter gives the current entry's value, or null |
| `Legacy.Element.SetValue` | webcomp.js:524-533 | throws and changes nothing without an available entry of that value; otherwise selects it, after which the getter, `submitValue`, the form value and the validity agree; on the unconnected element it always throws |
| `Legacy.Element.OnPlaceholderChanged` | webcomp.js:481-484 | the presentation shows the last submitted value when non-empty, else the placeholder |
| `Legacy.Element.SetOpen` | webcomp.js:501-507 | the `open` state becomes the given one |

## Left out

- Shadow-root construction, the CSS style sheets, `part` attributes and the
  search-placeholder style (`updateSearchPlaceHolderCSS`): these are styling
  and DOM plumbing.
- The `MutationObserver` set-up, the 10 ms debounce, the `requestAnimationFrame`
  deferrals and the `skipObservers` flag. These are about asynchronous timing.
  A change of the host's children is one atomic call: `ChildrenChanged`, or
  `NodesAdded` in the older form.
- The older form's observer watches only the host's direct children and
  ignores removed nodes. `NodesAdded` takes the added top-level nodes as a
  parameter and does nothing about removals.
- `calculateSizes` / `calculateMinWidth`: they read layout geometry.
- `removeInvalidNodeFromDOM`: it edits the host's light DOM.
- The document-level `openListener` and the disconnect callback, which depend
  on DOM containment and global listeners.
- Focus handling (`focusElement`, `onfocus`) and the creation of the search box
  in `toggleSearch`.
- `toggleDisabled`: it only toggles `inert` on the rendering surfaces and does
  not touch the option data.
- The `niceSelect` helper that swaps native selects for the element.
- `ElementInternals` is modelled as plain fields: `formValue`, `validity`,
  `interacted`, `isOpen`. The `valid` custom state is not a separate field; it
  is present exactly when `validity` is `Satisfied`. The `change` event is a
  counter of dispatches.
- Layout is passed in as parameters: the entries' `offsetTop` /
  `offsetHeight`, the list's `offsetHeight`.
- `toLowerCase` is modelled for ASCII letters only. Unicode case mapping is not
  modelled.
- `NiceSelect.Element.Connect`: promises the invariant only when no form value
  is registered yet. On a re-connection the source makes validity value-missing
  while an earlier form value stays registered.
- `Legacy.Element.Connect`: promises the invariant only from a first connection,
  or from a valid state without a registered form value, for the same reason.
