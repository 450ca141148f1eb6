# Tab-group panel: tab-node registry and view handlers

A Dafny model of the core of a tab-groups browser extension's panel view:

- the **tab-node registry** of `src/js/view/tabNodes.js`: a map from tab id to
  the visual entry the panel shows for that tab, plus the id of the tab shown
  as active (`-1` when none);
- the **view handlers** of `src/js/view/index.js`: which host notifications
  (tab created, removed, updated, attached, detached, activated) touch the
  registry, how a new tab waits for its group id, and how the arrow keys move
  the active tab through the ordered groups.

Files:

- `optional.dfy` (module `Optional`): an `Option` type for JavaScript's
  `undefined`, and map lookup into it.
- `tab_nodes.dfy` (module `TabNodes`): the registry as the class
  `TabRegistry`, with fields `nodes: map<int, NodeState>` and `activeTabId`.
  It also holds the specification functions its methods are proved against.
  These are `Tooltip`, `Refreshed`, `WithFavicon`, `ThumbnailBackground`,
  `LastActiveTabs`, `ActivateMostRecent`, `SelectById` and `InitialEntries`.
- `view.dfy` (module `View`) contains:
  - the navigation rule `Navigate`, a pure function over `seq<Group>`;
  - the group-id poll `PollGroupId`, a loop;
  - the class `View`, with the view's window id, its own tab id, its registry
    and the group list. Its methods are the handlers.

A DOM element becomes the state the source writes into it (`NodeState`):

- the tab name;
- the `selected`, `inactive` and `pinned` classes;
- the tooltip;
- the thumbnail background;
- the favicon background and its `visible` class;
- whether the tab element has a parent, that is, has been inserted into a
  group (`placed`).

Host services become parameters:

- a tab query result is a `seq<Tab>`;
- the session store is a `map<int, string>`;
- the outcome of test-loading an image is `loads: string -> bool`;
- `decodeURI` is an uninterpreted `decodeUri: string -> string`;
- the group-id store of `tabs.js` is a `map<int, int>`;
- the successive answers of the polled group-id lookup are a `seq<Option<int>>`;
- the tab ids `forEachTab` visits are a `seq<int>`.

Some source paths throw part-way through:

- `tabs.shift().id` on an empty list;
- `tabNodes[id].tab` for an id without an entry;
- the `undefined` id handed on after wrapping into an empty group;
- `tabNodes[tabId].tab.parentNode.removeChild` in `deleteTabNode` when the
  element was never inserted into a group, for example a tab removed or
  detached while `tabCreated` is still waiting for its group id; the entry is
  kept;
- `tabs.forEach` in `tabActivated` when the view's own tab is activated, since
  no `tabs` is in scope there.

These are not made preconditions. The method returns `ok == false`, and its
postcondition states exactly the partial state the source leaves. For
example, `activeTabId` has already been assigned before line 115 throws, and
the visited entries have already been deselected before line 141 throws.

Three behaviours of the code are worth naming:

- `makeTabNode` overwrites an existing entry (`MakeTabNode`).
- `setActiveTabNode` assigns `activeTabId` and then throws when the most
  recent tab has no entry (`ActivateMostRecent`, `ok == false`).
- The left wrap's `pop()` removes the chosen tab from the previous group's
  list. `KeyInput` reassigns `groups` to `AfterStep(...)`, and `StepMutation`
  states the effect.

The registry invariant `Mirrors(nodes, open, self)` says the registry has an
entry for every open tab of the window other than the view's own, and for no
other id. `InitMirrors` shows initialisation sets it up, and the
`...KeepsMirror` lemmas show each handler's effect carries it to the new set
of open tabs. Removal and detachment carry it exactly when the deletion does
not throw, that is, when the element was placed in a group. Finally,
`MirrorsActivates` shows that under it `setActiveTabNode` throws only when the
view is the window's only tab.

## Model

| member | source | states |
|---|---|---|
| TabNodes.TabRegistry.constructor | src/js/view/tabNodes.js:5-6 | The registry starts empty with active id -1. |
| TabNodes.TabRegistry.MakeTabNode | src/js/view/tabNodes.js:27-78 | The entry under `tab.id` is replaced by a fresh node. No other key and not the active id change. |
| TabNodes.NewNode | src/js/view/tabNodes.js:29-41 | A fresh node is `selected` exactly when asked. It has no other class, no name, no tooltip and no images, and is not yet in any group. |
| TabNodes.Prefix | src/js/view/tabNodes.js:89 | `substr(0, n)` gives the first `n` characters, or the whole of a shorter string. |
| TabNodes.StartsWithIsPrefix | src/js/view/tabNodes.js:89 | Comparing the first characters of `s`, as many as `p` has, with `p` is the prefix test. |
| TabNodes.Tooltip | src/js/view/tabNodes.js:89 | The tooltip begins with the title. It equals the title exactly when the URL starts with `data:`. Otherwise the rest is `" - "` followed by the decoded URL. |
| TabNodes.Refreshed | src/js/view/tabNodes.js:86-103 | The entry after `updateTabNode`; its meaning is stated by `RefreshedFlags` and `RefreshedIdempotent`. |
| TabNodes.RefreshedFlags | src/js/view/tabNodes.js:86-103 | After a refresh the name is the title, `inactive` iff discarded and `pinned` iff pinned. Selection, thumbnail and favicon are kept. |
| TabNodes.RefreshedIdempotent | src/js/view/tabNodes.js:81-105 | Refreshing twice with the same tab equals refreshing once. |
| TabNodes.TabRegistry.UpdateTabNode | src/js/view/tabNodes.js:81-105 | An absent id changes nothing. A present entry is replaced by its refresh. |
| TabNodes.TabRegistry.DeleteTabNode | src/js/view/tabNodes.js:149-154 | An absent id changes nothing. A present entry placed in a group is removed. A present entry never placed throws (`ok` false) and is kept. |
| TabNodes.TabRegistry.PlaceTabNode | src/js/view/index.js:244 | Inserting a tab's element into its group marks an existing entry as placed and changes nothing else. |
| TabNodes.DeleteIdempotent | src/js/view/tabNodes.js:149-154 | Two deletions of one id equal one. Deleting an absent id is the identity. |
| TabNodes.ThumbnailBackground | src/js/view/tabNodes.js:160-168 | A supplied thumbnail wins as `url(...)`. Otherwise the persisted session value is used. With neither, the background is empty. |
| TabNodes.TabRegistry.UpdateThumbnail | src/js/view/tabNodes.js:156-170 | An absent id changes nothing. A present entry gets exactly that background. |
| TabNodes.FaviconCandidate | src/js/view/tabNodes.js:194-196 | The guard for test-loading an icon; `FaviconVisibleIff` states what it decides. |
| TabNodes.WithFavicon | src/js/view/tabNodes.js:194-207 | The entry after `updateFavicon`; its meaning is stated by `FaviconVisibleIff`. |
| TabNodes.FaviconVisibleIff | src/js/view/tabNodes.js:194-207 | The icon ends visible iff all four hold: the URL is non-empty, it does not start with `chrome://mozapps/skin/`, it differs from the page URL, and the test load succeeds. It then shows `url(<icon>)`. Only favicon state changes. |
| TabNodes.TabRegistry.UpdateFavicon | src/js/view/tabNodes.js:189-210 | An absent id changes nothing. A present entry gets the favicon outcome. |
| TabNodes.Deselect | src/js/view/tabNodes.js:117-124 | Deselecting keeps the key set, clears `selected` on the listed entries and keeps every other entry. |
| TabNodes.DeselectOneMore | src/js/view/tabNodes.js:117-124 | Deselecting one more listed id is one more single-entry update, skipped when the id has no entry. |
| TabNodes.TabRegistry.ClearSelection | src/js/view/tabNodes.js:117-124 | The loop over ids leaves exactly `Deselect` of the old entries by the visited ids. |
| TabNodes.ExcludeTab | src/js/view/tabNodes.js:130 | The filter removes every tab with the view's id and keeps every other tab with its multiplicity. |
| TabNodes.InsertByRecency | src/js/view/tabNodes.js:131 | Insertion adds exactly one tab to the multiset. |
| TabNodes.InsertByRecencySorted | src/js/view/tabNodes.js:131 | Insertion keeps a list sorted by descending `lastAccessed`. |
| TabNodes.SortByRecency | src/js/view/tabNodes.js:131 | The sort is a permutation and is sorted by descending `lastAccessed`. |
| TabNodes.LastActiveTabs | src/js/view/tabNodes.js:127-132 | The list `getLastActiveTabs` returns; its meaning is stated by `LastActiveTabsSpec`, `LastActiveTabsMembers`, `LastActiveTabsHead` and `LastActiveIds`. |
| TabNodes.LastActiveTabsSpec | src/js/view/tabNodes.js:127-132 | `getLastActiveTabs` is sorted most recent first. It is a permutation of the window's tabs other than the view. |
| TabNodes.LastActiveTabsMembers | src/js/view/tabNodes.js:127-132 | A tab is listed iff it is in the window and is not the view. |
| TabNodes.LastActiveTabsHead | src/js/view/tabNodes.js:127-132 | The list is empty iff the view is the only tab. Otherwise its head is another window tab with maximal `lastAccessed`. |
| TabNodes.LastActiveTabsDistinct | src/js/view/tabNodes.js:127-132 | Unique tab ids stay unique after filter and sort. |
| TabNodes.TabRegistry.SetActiveTabNode | src/js/view/tabNodes.js:111-125 | The new registry state and `ok` are exactly `ActivateMostRecent` of the old state. |
| TabNodes.ActivateMostRecent | src/js/view/tabNodes.js:111-125 | The state `setActiveTabNode` leaves; its meaning is stated by `ActivateWithoutOtherTabs`, `ActivateChoosesMostRecent`, `ActivateMarks`, `ActivateDeselectsOthers`, `ActivateSelectsExactlyOne` and `MirrorsActivates`. |
| TabNodes.ActivateWithoutOtherTabs | src/js/view/tabNodes.js:114 | With no other tab, the call throws before changing anything. |
| TabNodes.ActivateChoosesMostRecent | src/js/view/tabNodes.js:112-115 | With another tab, the active id becomes a most recently accessed other tab. The call succeeds iff that tab has an entry. |
| TabNodes.ActivateMarks | src/js/view/tabNodes.js:111-125 | The key set is unchanged. A throwing call leaves every entry as it was. On success the active entry is selected, and entries of unlisted tabs and of the view are untouched. |
| TabNodes.ActivateDeselectsOthers | src/js/view/tabNodes.js:117-124 | On success every listed tab other than the view and the new active one is deselected. Tabs without an entry are skipped. |
| TabNodes.ActivateSelectsExactlyOne | src/js/view/tabNodes.js:107-125 | When the entries are exactly for other listed tabs, success leaves exactly one selected entry: the active one. |
| TabNodes.TabRegistry.SetActiveTabNodeById | src/js/view/tabNodes.js:135-143 | The new registry state and `ok` are exactly `SelectById` of the old state. |
| TabNodes.SelectById | src/js/view/tabNodes.js:135-143 | The state `setActiveTabNodeById` leaves; its meaning is stated by `SelectByIdSpec`. |
| TabNodes.SelectByIdSpec | src/js/view/tabNodes.js:135-143 | The call succeeds iff the id has an entry, and then that entry is selected and active. Every other visited entry is deselected. Other entries and the key set are unchanged. A throwing call keeps the active id. |
| TabNodes.InitialNode | src/js/view/tabNodes.js:19-24 | The entry made for a listed tab is selected exactly as asked. |
| TabNodes.TabRegistry.MakeInitialNode | src/js/view/tabNodes.js:20-23 | The four calls for one tab leave exactly `InitialNode` under its id. |
| TabNodes.TabRegistry.MakeInitialNodeAt | src/js/view/tabNodes.js:19-24 | One turn of the `forEach` adds the next listed tab's entry to those already written. |
| TabNodes.TabRegistry.MakeInitialNodes | src/js/view/tabNodes.js:19-24 | The `forEach` adds exactly the entries for the list, in list order. |
| TabNodes.TabRegistry.InitTabNodes | src/js/view/tabNodes.js:12-25 | With no other tab nothing changes. Otherwise the most recent tab becomes active and the old entries are overlaid with `InitialEntries`. |
| TabNodes.InitialEntriesKeys | src/js/view/tabNodes.js:19-24 | Initialisation only writes entries for listed tabs. |
| TabNodes.EntriesCover | src/js/view/tabNodes.js:18-24 | Every id written by the initialisation loop is a key afterwards, even when ids repeat. |
| TabNodes.InitialEntriesExactKeys | src/js/view/tabNodes.js:18-24 | The keys initialisation writes are exactly the listed tab ids. |
| TabNodes.IdSetOfMembers | src/js/view/tabNodes.js:127-132 | A list holding exactly a window's tabs other than the view has exactly the window's ids other than the view's. |
| TabNodes.LastActiveIds | src/js/view/tabNodes.js:127-132 | The ids `getLastActiveTabs` lists are the window's ids minus the view's. |
| TabNodes.InitMirrors | src/js/view/tabNodes.js:12-25 | Initialising an empty registry over the window's tabs establishes the registry invariant for exactly those tabs. |
| TabNodes.MirrorsActivates | src/js/view/tabNodes.js:111-125 | Under the invariant, `setActiveTabNode` succeeds iff the window has a tab other than the view. |
| View.CreatedKeepsMirror | src/js/view/index.js:231-247 | Creating or attaching a tab other than the view's adds it to the open set and keeps the invariant, whether or not it is placed yet. |
| View.RemovedKeepsMirror | src/js/view/index.js:249-256 | Removing a tab keeps the invariant for the smaller open set iff it is the view's own tab or its deletion does not throw. |
| View.DetachedKeepsMirror | src/js/view/index.js:277-285 | Detaching a tab keeps the invariant for the smaller open set iff its deletion does not throw. |
| View.PlacedKeepsMirror | src/js/view/index.js:244 | Placing an entry in a group keeps the invariant. |
| View.UpdatedKeepsMirror | src/js/view/index.js:258-268 | Updating an existing entry leaves the invariant and the open set unchanged. |
| TabNodes.InitialEntriesSpec | src/js/view/tabNodes.js:18-24 | With unique ids, every listed tab gets its own initial entry, selected iff it is the head. |
| View.FindGroup | src/js/view/index.js:175 | `find` gives the first group with the id, or none when no group has it. |
| View.IndexOf | src/js/view/index.js:178 | `indexOf` gives the first position of the tab, and -1 iff it is absent. |
| View.Navigate | src/js/view/index.js:172-206 | The arrow-key step; its meaning is stated by `NavigateIgnoredIff`, `LocatesUnique`, `RightWithinGroup`, `RightAcrossGroups`, `LeftWithinGroup`, `LeftAcrossGroups` and `NavigationTrace`. |
| View.AfterStep | src/js/view/index.js:203 | The group list after a step; its effect is stated by `StepMutation`. |
| View.NavigateIgnoredIff | src/js/view/index.js:172-179 | An arrow key is ignored iff the active tab has no group id, no group has that id, or the group's list lacks the tab. |
| View.LocatesUnique | src/js/view/index.js:175-178 | The located group and position are the ones `find` and `indexOf` return. |
| View.RightWithinGroup | src/js/view/index.js:181-193 | ArrowRight before the end of a group selects the next tab of that group. |
| View.RightAcrossGroups | src/js/view/index.js:183-190 | ArrowRight at the end of a group selects the first tab of group `(k+1) mod n`, which wraps to the first group. An empty target group gives `undefined`. |
| View.LeftWithinGroup | src/js/view/index.js:204-206 | ArrowLeft after the start of a group selects the previous tab of that group. |
| View.LeftAcrossGroups | src/js/view/index.js:196-203 | ArrowLeft at the start of a group selects the last tab of group `(k+n-1) mod n`, which wraps to the last group. That group's list is popped. |
| View.StepMutation | src/js/view/index.js:203 | The left wrap removes exactly the chosen tab from the end of the previous group's list. Every other group, and every other step, leaves the groups unchanged. |
| View.NavigationTrace | src/js/view/index.js:181-206 | With groups [a,b] and [c,d], Right from d gives a, Right from a gives b, and Left from a gives d and pops d. |
| View.View.KeyInput | src/js/view/index.js:170-212 | Enter asks the host to focus the active tab. Other keys do nothing. An arrow either does nothing or applies the `Navigate` step: it pops per `AfterStep` and selects per `SelectById`. An undefined target only deselects. |
| View.FirstDefined | src/js/view/index.js:238-241 | The first defined lookup answer, or none iff no answer is defined. |
| View.PollGroupId | src/js/view/index.js:238-241 | The poll loop returns the first defined answer and stops right after it. Every earlier answer was undefined. |
| View.PollConverges | src/js/view/index.js:237-241 | Once the group id is recorded and every later lookup returns it, the poll returns it. |
| View.View.constructor | src/js/view/index.js:7-14 | The view starts with its window id, its own tab id, the group list and an empty registry. |
| View.CreatedNode | src/js/view/index.js:232-235 | A created entry is unselected, has no thumbnail, is not yet placed, and carries the refreshed tooltip and flags. |
| View.UpdatedNode | src/js/view/index.js:258-268 | The entry `tabUpdated` leaves; its meaning is stated by `UpdatedNodeSpec`. |
| View.UpdatedNodeSpec | src/js/view/index.js:258-268 | An update from another window that does not change `pinned` leaves the entry alone. Otherwise the tooltip and flags follow the tab. Selection and thumbnail are kept. In-window updates match a refresh followed by the favicon check. |
| View.View.TabCreated | src/js/view/index.js:231-247 | Only a tab of the view's window gets an unselected entry, and the handler then returns the polled group id. The entry is placed iff a group id arrived. Other tabs change nothing. |
| View.View.TabRemoved | src/js/view/index.js:249-256 | The entry is deleted only for a tab of the view's window that is not the view itself, and only if the deletion does not throw (`ok`). |
| View.View.TabUpdated | src/js/view/index.js:258-268 | The entry becomes `UpdatedNode` when it exists. Otherwise nothing changes. |
| View.View.TabAttached | src/js/view/index.js:270-275 | A tab attached to the view's window is handled as created, placed iff a group id arrived. Otherwise nothing changes. |
| View.View.TabDetached | src/js/view/index.js:277-285 | On a window match alone the entry is deleted, the view's own tab included, unless the deletion throws (`ok` false, entry kept). |
| View.View.TabActivated | src/js/view/index.js:287-295 | When the view's own tab is activated the handler throws before any change (`ok` false, registry unchanged); otherwise the registry becomes `ActivateMostRecent` for the view's tab. |

## Left out

- Thumbnail capture and scaling (`captureThumbnail`, `captureThumbnails`, and `view.js`'s copies): host screenshot API, image decoding, canvas and floating-point size arithmetic.
- Settings and theme loading, toolbar position, `initView` listener wiring, visibility toggle, resize, double-click and `createGroup` rectangle arithmetic: storage and DOM plumbing.
- DOM element construction and the click, middle-click, close and drag listeners in `makeTabNode`: only the registry entry and its classes are modelled.
- Pinned tabs' inline `width`/`height` reset in `updateTabNode`: layout styling with no effect on the modelled entry.
- `testImage`: a real image load. Its outcome is the parameter `loads`.
- `decodeURI`: a foreign function, kept uninterpreted. Its `URIError` on malformed input is not modelled.
- `getTabNode` and `getActiveTabId`: a DOM accessor and a plain read of `activeTabId`, which the model reads directly.
- `tabs.js` (`getGroupId`, `forEachTab`), `groupNodes.js` (`insertTab`, `initGroupNodes`, `updateGroupFit`, `getGroups`, `fillGroupNodes`), `groups.js` and `drag.js` are not part of this model. The only effect of `insertTab` and `initGroupNodes` on the registry that is modelled is `PlaceTabNode`; the model has no step for `initGroupNodes`, so entries made by `InitTabNodes` stay unplaced until `PlaceTabNode` is applied to them. Group ids are a map, the visited tab ids a sequence, and the group list a `seq<Group>`. Layout and fit are not modelled.
- The thumbnail loop in `tabActivated`: it iterates a `tabs` that is not in scope, so it throws when the view's own tab is activated and the `setActiveTabNode(view.tabId)` call is then never reached (`TabActivated`, `ok == false`); the loop's `updateThumbnail` calls are never reached either.
- Asynchronous interleaving: each handler is one atomic step. Races between suspended handlers are only covered by the existence checks the source performs.
- `tabMoved` and the group-layout updates the handlers trigger after changing the registry.
- PollGroupId: the source polls without bound. The model reads a finite sequence of answers and returns None when none is defined, which stands for "still waiting".
- SortByRecency: the source's comparator returns a boolean, so the engine's order is not defined by it. The model uses the intended descending sort by `lastAccessed` and does not model any engine's sort.
- InitialEntriesSpec, ActivateMarks, ActivateSelectsExactlyOne and LastActiveTabsDistinct assume the tab ids of one query are unique, as the host guarantees. The methods themselves assume nothing: with a repeated id the later write wins, as in the source.
