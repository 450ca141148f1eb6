/**
 * The panel's event handlers and keyboard navigation (src/js/view/index.js):
 * which host notifications touch the tab-node registry, how a new tab waits
 * for its group, and how the arrow keys move the active tab through the
 * ordered groups.
 */
module View {
  import opened Optional
  import opened TabNodes

  /** A group as the group list exposes it: its id and its ordered member tabs. */
  datatype Group = Group(id: int, tabs: seq<int>)

  datatype Key = ArrowRight | ArrowLeft | Enter | OtherKey

  /** What one arrow key press decides: the id handed to `setActiveTabNodeById`
      (None for JavaScript's `undefined`, taken from an empty group) and the
      group whose tab list `pop()` shortens, if any. */
  datatype Step = Step(target: Option<int>, popped: Option<nat>)

  /** What a key press does: nothing, a navigation (`ok` false where
      `setActiveTabNodeById` throws), or a request to the host to focus a tab. */
  datatype KeyOutcome = Ignored | Navigated(ok: bool) | Activate(tabId: int)

  // ---------------------------------------------------------------------------
  // Locating the active tab

  /** `groups.find(g => g.id === groupId)`, as a position: the first group with that id. */
  function FindGroup(groups: seq<Group>, groupId: int): (r: Option<nat>)
    ensures r.Some? ==> r.value < |groups| && groups[r.value].id == groupId
    ensures r.Some? ==> forall j :: 0 <= j < r.value ==> groups[j].id != groupId
    ensures r.None? ==> forall j :: 0 <= j < |groups| ==> groups[j].id != groupId
  {
    if groups == [] then None
    else if groups[0].id == groupId then Some(0)
    else match FindGroup(groups[1..], groupId)
      case None => None
      case Some(k) => Some(k + 1)
  }

  /** `s.indexOf(x)`: the first position of `x`, or -1. */
  function IndexOf(s: seq<int>, x: int): (r: int)
    ensures -1 <= r < |s|
    ensures r == -1 <==> x !in s
    ensures r >= 0 ==> s[r] == x && x !in s[..r]
  {
    if s == [] then -1
    else if s[0] == x then 0
    else
      var k := IndexOf(s[1..], x);
      assert s[1..][..k + 1] == s[..k + 2][1..] || k == -1;
      if k == -1 then -1 else k + 1
  }

  function First(s: seq<int>): Option<int>
  {
    if s == [] then None else Some(s[0])
  }

  /** `s.pop()` on an array: the last element, or undefined when empty. */
  function Last(s: seq<int>): Option<int>
  {
    if s == [] then None else Some(s[|s| - 1])
  }

  /** The array `s` after `s.pop()`. */
  function DropLast(s: seq<int>): seq<int>
  {
    if s == [] then [] else s[..|s| - 1]
  }

  /** The active tab sits in group `k` at position `i`: `k` is the first group
      carrying the tab's group id and `i` the first position of the tab there. */
  predicate Locates(groups: seq<Group>, groupIds: map<int, int>, active: int, k: nat, i: nat)
  {
    active in groupIds &&
    k < |groups| && groups[k].id == groupIds[active] &&
    (forall j :: 0 <= j < k ==> groups[j].id != groupIds[active]) &&
    i < |groups[k].tabs| && groups[k].tabs[i] == active && active !in groups[k].tabs[..i]
  }

  /** The arrow-key rule of `keyInput`: None where the handler returns early,
      otherwise the step taken. `right` selects ArrowRight. */
  function Navigate(groups: seq<Group>, groupIds: map<int, int>, active: int, right: bool): Option<Step>
  {
    match Lookup(groupIds, active)
    case None => None
    case Some(groupId) =>
      match FindGroup(groups, groupId)
      case None => None
      case Some(k) =>
        var tabs := groups[k].tabs;
        var i := IndexOf(tabs, active);
        if i == -1 then None
        else if right then
          if i == |tabs| - 1 then
            var next := if k == |groups| - 1 then 0 else k + 1;
            Some(Step(First(groups[next].tabs), None))
          else Some(Step(Some(tabs[i + 1]), None))
        else
          if i == 0 then
            var prev := if k == 0 then |groups| - 1 else k - 1;
            Some(Step(Last(groups[prev].tabs), Some(prev)))
          else Some(Step(Some(tabs[i - 1]), None))
  }

  /** Navigation does nothing exactly when the active tab has no group id, no
      group carries that id, or the group's tab list does not hold the tab. */
  lemma NavigateIgnoredIff(groups: seq<Group>, groupIds: map<int, int>, active: int, right: bool)
    ensures Navigate(groups, groupIds, active, right).None? <==>
      !(exists k: nat, i: nat :: Locates(groups, groupIds, active, k, i))
  {
    if Navigate(groups, groupIds, active, right).Some? {
      var k := FindGroup(groups, groupIds[active]).value;
      var i := IndexOf(groups[k].tabs, active);
      assert Locates(groups, groupIds, active, k, i as nat);
    } else {
      forall k: nat, i: nat ensures !Locates(groups, groupIds, active, k, i) {
        if Locates(groups, groupIds, active, k, i) {
          LocatesUnique(groups, groupIds, active, k, i);
          assert false;
        }
      }
    }
  }

  /** `Locates` pins down the group and position `Navigate` works from. */
  lemma LocatesUnique(groups: seq<Group>, groupIds: map<int, int>, active: int, k: nat, i: nat)
    requires Locates(groups, groupIds, active, k, i)
    ensures FindGroup(groups, groupIds[active]) == Some(k)
    ensures IndexOf(groups[k].tabs, active) == i
  {
  }

  /** ArrowRight before the end of a group selects the next tab of that group. */
  lemma RightWithinGroup(groups: seq<Group>, groupIds: map<int, int>, active: int, k: nat, i: nat)
    requires Locates(groups, groupIds, active, k, i) && i < |groups[k].tabs| - 1
    ensures Navigate(groups, groupIds, active, true) == Some(Step(Some(groups[k].tabs[i + 1]), None))
  {
    LocatesUnique(groups, groupIds, active, k, i);
  }

  lemma WrapNext(k: nat, n: nat)
    requires k < n
    ensures (k + 1) % n == if k == n - 1 then 0 else k + 1
  {
  }

  lemma WrapPrevious(k: nat, n: nat)
    requires k < n
    ensures (k + n - 1) % n == if k == 0 then n - 1 else k - 1
  {
    if k == 0 {
      assert (n - 1) % n == n - 1;
    } else {
      assert (k - 1 + n) % n == k - 1;
    }
  }

  /** ArrowRight at the end of a group selects the first tab of the next group,
      from the last group wrapping to the first; an empty target group yields
      `undefined`. No group changes. */
  lemma RightAcrossGroups(groups: seq<Group>, groupIds: map<int, int>, active: int, k: nat, i: nat)
    requires Locates(groups, groupIds, active, k, i) && i == |groups[k].tabs| - 1
    ensures var next := (k + 1) % |groups|;
      Navigate(groups, groupIds, active, true) ==
        Some(Step(if groups[next].tabs == [] then None else Some(groups[next].tabs[0]), None))
  {
    LocatesUnique(groups, groupIds, active, k, i);
    var next := if k == |groups| - 1 then 0 else k + 1;
    assert Navigate(groups, groupIds, active, true) == Some(Step(First(groups[next].tabs), None));
    WrapNext(k, |groups|);
  }

  /** ArrowLeft after the start of a group selects the previous tab of that group. */
  lemma LeftWithinGroup(groups: seq<Group>, groupIds: map<int, int>, active: int, k: nat, i: nat)
    requires Locates(groups, groupIds, active, k, i) && 0 < i
    ensures Navigate(groups, groupIds, active, false) == Some(Step(Some(groups[k].tabs[i - 1]), None))
  {
    LocatesUnique(groups, groupIds, active, k, i);
  }

  /** ArrowLeft at the start of a group selects the last tab of the previous
      group, from the first group wrapping to the last, and that group's tab
      list is popped. */
  lemma LeftAcrossGroups(groups: seq<Group>, groupIds: map<int, int>, active: int, k: nat)
    requires Locates(groups, groupIds, active, k, 0)
    ensures var prev := (k + |groups| - 1) % |groups|;
      var tabs := groups[prev].tabs;
      Navigate(groups, groupIds, active, false) ==
        Some(Step(if tabs == [] then None else Some(tabs[|tabs| - 1]), Some(prev)))
  {
    LocatesUnique(groups, groupIds, active, k, 0);
    var prev := if k == 0 then |groups| - 1 else k - 1;
    assert Navigate(groups, groupIds, active, false) == Some(Step(Last(groups[prev].tabs), Some(prev)));
    WrapPrevious(k, |groups|);
  }

  /** The group list after a step: the popped group loses its last tab. */
  function AfterStep(groups: seq<Group>, step: Step): seq<Group>
    requires step.popped.Some? ==> step.popped.value < |groups|
  {
    match step.popped
    case None => groups
    case Some(p) => groups[p := groups[p].(tabs := DropLast(groups[p].tabs))]
  }

  /** A wrapping ArrowLeft removes the chosen tab from the end of its group's
      list and changes no other group; every other step changes no group. */
  lemma StepMutation(groups: seq<Group>, groupIds: map<int, int>, active: int, right: bool)
    requires Navigate(groups, groupIds, active, right).Some?
    ensures var step := Navigate(groups, groupIds, active, right).value;
      && (step.popped.Some? ==> step.popped.value < |groups|)
      && |AfterStep(groups, step)| == |groups|
      && (right ==> step.popped.None? && AfterStep(groups, step) == groups)
      && (step.popped.None? ==> AfterStep(groups, step) == groups)
      && (step.popped.Some? ==>
            var p := step.popped.value;
            && (step.target.Some? ==>
                  groups[p].tabs == AfterStep(groups, step)[p].tabs + [step.target.value])
            && (step.target.None? ==> groups[p].tabs == [] == AfterStep(groups, step)[p].tabs)
            && (forall j :: 0 <= j < |groups| && j != p ==> AfterStep(groups, step)[j] == groups[j])
            && AfterStep(groups, step)[p].id == groups[p].id)
  {
  }

  /** The two-group trace: with groups [a, b] and [c, d], ArrowRight from d
      gives a, ArrowRight from a gives b, and ArrowLeft from a gives d, popping
      d off the second group. */
  lemma NavigationTrace(a: int, b: int, c: int, d: int, g1: int, g2: int)
    requires a != b && a != c && a != d && b != c && b != d && c != d && g1 != g2
    ensures var groups := [Group(g1, [a, b]), Group(g2, [c, d])];
      var groupIds := map[a := g1, b := g1, c := g2, d := g2];
      && Navigate(groups, groupIds, d, true) == Some(Step(Some(a), None))
      && Navigate(groups, groupIds, a, true) == Some(Step(Some(b), None))
      && Navigate(groups, groupIds, a, false) == Some(Step(Some(d), Some(1)))
      && AfterStep(groups, Step(Some(d), Some(1))) == [Group(g1, [a, b]), Group(g2, [c])]
  {
    var groups := [Group(g1, [a, b]), Group(g2, [c, d])];
    var groupIds := map[a := g1, b := g1, c := g2, d := g2];
    assert [c, d][..1] == [c];
    RightAcrossGroups(groups, groupIds, d, 1, 1);
    assert [a, b][..0] == [];
    RightWithinGroup(groups, groupIds, a, 0, 0);
    LeftAcrossGroups(groups, groupIds, a, 0);
  }

  // ---------------------------------------------------------------------------
  // Waiting for the background script to assign a group

  /** The first defined answer among successive `getGroupId` lookups. */
  function FirstDefined(lookups: seq<Option<int>>): (r: Option<int>)
    ensures r.None? <==> forall j :: 0 <= j < |lookups| ==> lookups[j].None?
    ensures r.Some? ==> r in lookups
    ensures forall j :: (0 <= j < |lookups| && lookups[j].Some? &&
      forall j' :: 0 <= j' < j ==> lookups[j'].None?) ==> r == lookups[j]
  {
    if lookups == [] then None
    else if lookups[0].Some? then lookups[0]
    else
      assert forall j :: 0 < j < |lookups| ==> lookups[j] == lookups[1..][j - 1];
      FirstDefined(lookups[1..])
  }

  /** The `while (groupId === undefined)` loop of `tabCreated` over the answers
      its lookups would get. It stops at the first defined answer; `polls`
      counts the lookups made. When no answer in `lookups` is defined the
      source goes on polling forever; here the result is then None. */
  method PollGroupId(lookups: seq<Option<int>>) returns (groupId: Option<int>, polls: nat)
    ensures groupId == FirstDefined(lookups)
    ensures polls <= |lookups|
    ensures groupId.Some? ==> 0 < polls && lookups[polls - 1] == groupId
    ensures forall j :: 0 <= j < polls - 1 ==> lookups[j].None?
    ensures groupId.None? ==> polls == |lookups|
  {
    groupId := None;
    polls := 0;
    while groupId.None? && polls < |lookups|
      invariant polls <= |lookups|
      invariant groupId.None? ==> forall j :: 0 <= j < polls ==> lookups[j].None?
      invariant groupId.Some? ==> 0 < polls && lookups[polls - 1] == groupId
      invariant forall j :: 0 <= j < polls - 1 ==> lookups[j].None?
      decreases |lookups| - polls
    {
      groupId := lookups[polls];
      polls := polls + 1;
    }
    FirstDefinedAt(lookups, polls);
  }

  /** Once the lookups agree on an answer from the n-th one on, FirstDefined
      is the first defined among the first n, or that answer. */
  lemma {:induction false} FirstDefinedAt(lookups: seq<Option<int>>, n: nat)
    requires n <= |lookups|
    requires forall j :: 0 <= j < n - 1 ==> lookups[j].None?
    requires (n > 0 && lookups[n - 1].Some?) || (n == |lookups| && forall j :: 0 <= j < n ==> lookups[j].None?)
    ensures FirstDefined(lookups) == if n > 0 && lookups[n - 1].Some? then lookups[n - 1] else None
  {
    if n > 1 {
      FirstDefinedAt(lookups[1..], n - 1);
    }
  }

  /** Once the background script has recorded `groupId` for the tab, every later
      lookup returns it, so the poll returns it. */
  lemma PollConverges(lookups: seq<Option<int>>, committed: nat, groupId: int)
    requires committed < |lookups|
    requires forall j :: committed <= j < |lookups| ==> lookups[j] == Some(groupId)
    requires forall j :: 0 <= j < committed ==> lookups[j].None?
    ensures FirstDefined(lookups) == Some(groupId)
  {
    FirstDefinedAt(lookups, committed + 1);
  }

  // ---------------------------------------------------------------------------
  // Registry effects of the host notifications

  /** The entry `tabCreated` leaves: unselected, refreshed, favicon checked. */
  function CreatedNode(tab: Tab, decodeUri: string -> string, loads: string -> bool): (n: NodeState)
    ensures !n.selected && n.thumbnail == "" && !n.placed
    ensures n.inactive == tab.discarded && n.pinned == tab.pinned
    ensures n.tooltip == Tooltip(tab.title, tab.url, decodeUri)
  {
    WithFavicon(Refreshed(NewNode(false), tab, decodeUri), tab, loads)
  }

  /** The entry `tabUpdated` leaves: refreshed and favicon-checked when the tab
      is in the view's window, refreshed again when `pinned` changed. */
  function UpdatedNode(n: NodeState, tab: Tab, inWindow: bool, pinnedChanged: bool,
                       decodeUri: string -> string, loads: string -> bool): NodeState
  {
    var m := if inWindow then WithFavicon(Refreshed(n, tab, decodeUri), tab, loads) else n;
    if pinnedChanged then Refreshed(m, tab, decodeUri) else m
  }

  /** An update from another window that does not change `pinned` leaves the
      entry alone; otherwise the entry's tooltip and flags follow the tab. */
  lemma UpdatedNodeSpec(n: NodeState, tab: Tab, inWindow: bool, pinnedChanged: bool,
                        decodeUri: string -> string, loads: string -> bool)
    ensures var r := UpdatedNode(n, tab, inWindow, pinnedChanged, decodeUri, loads);
      && (!inWindow && !pinnedChanged ==> r == n)
      && ((inWindow || pinnedChanged) ==>
            r.tooltip == Tooltip(tab.title, tab.url, decodeUri) &&
            r.inactive == tab.discarded && r.pinned == tab.pinned)
      && r.selected == n.selected && r.thumbnail == n.thumbnail
      && (inWindow ==> r == WithFavicon(Refreshed(n, tab, decodeUri), tab, loads))
  {
    var r := UpdatedNode(n, tab, inWindow, pinnedChanged, decodeUri, loads);
    var refreshed := Refreshed(n, tab, decodeUri);
    if inWindow {
      var m := WithFavicon(refreshed, tab, loads);
      FaviconVisibleIff(refreshed, tab, loads);
      if pinnedChanged {
        assert Refreshed(m, tab, decodeUri) == m;
      }
      assert r == m;
    } else if pinnedChanged {
      assert r == refreshed;
    }
  }

  // ---------------------------------------------------------------------------
  // The registry invariant across the handlers: `open` is the set of the
  // window's open tabs, `self` the view's own tab

  /** A tab created in (or attached to) the window, other than the view's own,
      joins the open set and gets its entry, placed in a group or still
      waiting for one. */
  lemma CreatedKeepsMirror(nodes: map<int, NodeState>, open: set<int>, self: int,
                           tab: Tab, decodeUri: string -> string, loads: string -> bool, placed: bool)
    requires Mirrors(nodes, open, self) && tab.id != self
    ensures Mirrors(nodes[tab.id := CreatedNode(tab, decodeUri, loads).(placed := placed)], open + {tab.id}, self)
  {
  }

  /** A tab removed from the window leaves the open set. The view's own tab is
      skipped and keeps the invariant; another tab keeps it exactly when its
      deletion does not throw. */
  lemma RemovedKeepsMirror(nodes: map<int, NodeState>, open: set<int>, self: int, removedId: int)
    requires Mirrors(nodes, open, self)
    ensures Mirrors(if self != removedId && Removable(nodes, removedId) then nodes - {removedId} else nodes,
                    open - {removedId}, self)
      <==> removedId == self || Removable(nodes, removedId)
  {
    if removedId != self && !Removable(nodes, removedId) {
      assert removedId in nodes.Keys;
    }
  }

  /** A tab detached from the window leaves the open set; the invariant is kept
      exactly when its deletion does not throw. */
  lemma DetachedKeepsMirror(nodes: map<int, NodeState>, open: set<int>, self: int, detachedId: int)
    requires Mirrors(nodes, open, self)
    ensures Mirrors(if Removable(nodes, detachedId) then nodes - {detachedId} else nodes,
                    open - {detachedId}, self)
      <==> Removable(nodes, detachedId)
  {
    if !Removable(nodes, detachedId) {
      assert detachedId in nodes.Keys;
    }
  }

  /** Inserting an entry's element into a group keeps the key set. */
  lemma PlacedKeepsMirror(nodes: map<int, NodeState>, open: set<int>, self: int, id: int)
    requires Mirrors(nodes, open, self)
    ensures id in nodes ==> Mirrors(nodes[id := nodes[id].(placed := true)], open, self)
  {
  }

  /** `tabUpdated` rewrites an existing entry or nothing, so the open set and
      the invariant are unchanged. */
  lemma UpdatedKeepsMirror(nodes: map<int, NodeState>, open: set<int>, self: int, tab: Tab,
                           inWindow: bool, pinnedChanged: bool,
                           decodeUri: string -> string, loads: string -> bool)
    requires Mirrors(nodes, open, self)
    ensures tab.id in nodes ==>
      Mirrors(nodes[tab.id := UpdatedNode(nodes[tab.id], tab, inWindow, pinnedChanged, decodeUri, loads)],
              open, self)
  {
  }

  /** The view's own state: its window, its own tab, the tab-node registry and
      the group list the navigation reads (and `pop()` writes). */
  class View {
    const windowId: int
    const tabId: int
    const registry: TabRegistry
    var groups: seq<Group>

    constructor (windowId: int, tabId: int, groups: seq<Group>)
      ensures this.windowId == windowId && this.tabId == tabId && this.groups == groups
      ensures fresh(registry) && registry.nodes == map[] && registry.activeTabId == NoTab
    {
      this.windowId := windowId;
      this.tabId := tabId;
      this.groups := groups;
      registry := new TabRegistry();
    }

    /** `tabCreated(tab)`: a tab of this window gets an unselected entry, and
        the handler then waits for its group id; once it has one, the entry's
        element is inserted into the group. */
    method TabCreated(tab: Tab, decodeUri: string -> string, loads: string -> bool,
                      lookups: seq<Option<int>>) returns (groupId: Option<int>)
      modifies registry
      ensures tab.windowId == windowId ==>
        registry.nodes ==
          old(registry.nodes)[tab.id := CreatedNode(tab, decodeUri, loads).(placed := groupId.Some?)] &&
        groupId == FirstDefined(lookups)
      ensures tab.windowId != windowId ==> registry.nodes == old(registry.nodes) && groupId.None?
      ensures registry.activeTabId == old(registry.activeTabId)
    {
      groupId := None;
      if windowId == tab.windowId {
        ghost var base := registry.nodes;
        registry.MakeTabNode(tab, false);
        registry.UpdateTabNode(tab, decodeUri);
        assert registry.nodes == base[tab.id := Refreshed(NewNode(false), tab, decodeUri)];
        registry.UpdateFavicon(tab, loads);
        assert registry.nodes == base[tab.id := CreatedNode(tab, decodeUri, loads)];
        var polls;
        groupId, polls := PollGroupId(lookups);
        if groupId.Some? {
          registry.PlaceTabNode(tab.id);
        }
      }
    }

    /** `tabRemoved(tabId, {windowId})`: only a tab of this window other than
        the view itself loses its entry, and `ok` is false where the deletion
        throws. */
    method TabRemoved(removedId: int, removedWindowId: int) returns (ok: bool)
      modifies registry
      ensures ok <==> !(windowId == removedWindowId && tabId != removedId) ||
                      Removable(old(registry.nodes), removedId)
      ensures registry.nodes ==
        if windowId == removedWindowId && tabId != removedId && ok then old(registry.nodes) - {removedId}
        else old(registry.nodes)
      ensures registry.activeTabId == old(registry.activeTabId)
    {
      ok := true;
      if windowId == removedWindowId && tabId != removedId {
        ok := registry.DeleteTabNode(removedId);
      }
    }

    /** `tabUpdated(tabId, changeInfo, tab)`; `pinnedChanged` is `'pinned' in changeInfo`. */
    method TabUpdated(tab: Tab, pinnedChanged: bool, decodeUri: string -> string, loads: string -> bool)
      modifies registry
      ensures tab.id in old(registry.nodes) ==>
        registry.nodes == old(registry.nodes)[tab.id :=
          UpdatedNode(old(registry.nodes)[tab.id], tab, windowId == tab.windowId, pinnedChanged, decodeUri, loads)]
      ensures tab.id !in old(registry.nodes) ==> registry.nodes == old(registry.nodes)
      ensures registry.activeTabId == old(registry.activeTabId)
    {
      if windowId == tab.windowId {
        registry.UpdateTabNode(tab, decodeUri);
        registry.UpdateFavicon(tab, loads);
      }
      if pinnedChanged {
        registry.UpdateTabNode(tab, decodeUri);
      }
    }

    /** `tabAttached(tabId, {newWindowId})`, where `tab` is what the host returns
        for `tabId`: a tab attached to this window is handled as created. */
    method TabAttached(newWindowId: int, tab: Tab, decodeUri: string -> string, loads: string -> bool,
                       lookups: seq<Option<int>>) returns (groupId: Option<int>)
      modifies registry
      ensures windowId == newWindowId && tab.windowId == windowId ==>
        registry.nodes ==
          old(registry.nodes)[tab.id := CreatedNode(tab, decodeUri, loads).(placed := groupId.Some?)] &&
        groupId == FirstDefined(lookups)
      ensures windowId != newWindowId || tab.windowId != windowId ==>
        registry.nodes == old(registry.nodes) && groupId.None?
      ensures registry.activeTabId == old(registry.activeTabId)
    {
      groupId := None;
      if windowId == newWindowId {
        groupId := TabCreated(tab, decodeUri, loads, lookups);
      }
    }

    /** `tabDetached(tabId, {oldWindowId})`: a tab leaving this window loses its
        entry, unless the deletion throws (`ok` false); unlike removal, the
        view's own tab is not exempt. */
    method TabDetached(detachedId: int, oldWindowId: int) returns (ok: bool)
      modifies registry
      ensures ok <==> windowId != oldWindowId || Removable(old(registry.nodes), detachedId)
      ensures registry.nodes ==
        if windowId == oldWindowId && ok then old(registry.nodes) - {detachedId} else old(registry.nodes)
      ensures registry.activeTabId == old(registry.activeTabId)
    {
      ok := true;
      if windowId == oldWindowId {
        ok := registry.DeleteTabNode(detachedId);
      }
    }

    /** `tabActivated(activeInfo)`: when the view's own tab is activated the
        thumbnail loop runs over a `tabs` that is not defined and throws before
        anything changes; otherwise the active tab is recomputed over the
        window's tabs `tabs`. */
    method TabActivated(activatedId: int, tabs: seq<Tab>) returns (ok: bool)
      modifies registry
      ensures activatedId == tabId ==>
        !ok && registry.nodes == old(registry.nodes) && registry.activeTabId == old(registry.activeTabId)
      ensures activatedId != tabId ==>
        Selection(registry.nodes, registry.activeTabId, ok) ==
        ActivateMostRecent(old(registry.nodes), old(registry.activeTabId), tabs, tabId)
    {
      if activatedId == tabId {
        return false;
      }
      ok := registry.SetActiveTabNode(tabId, tabs);
    }

    /** `keyInput(e)`: the arrow keys move the active tab (`groupIds` is the
        group-id store, `windowTabIds` the tabs `forEachTab` visits), Enter asks
        the host to focus the active tab, other keys do nothing. */
    method KeyInput(key: Key, groupIds: map<int, int>, windowTabIds: seq<int>) returns (outcome: KeyOutcome)
      modifies this, registry
      ensures key == Enter ==> outcome == Activate(old(registry.activeTabId))
      ensures key == OtherKey ==> outcome == Ignored
      ensures (key == Enter || key == OtherKey) ==>
        groups == old(groups) && registry.nodes == old(registry.nodes) &&
        registry.activeTabId == old(registry.activeTabId)
      ensures (key == ArrowRight || key == ArrowLeft) ==>
        var step := Navigate(old(groups), groupIds, old(registry.activeTabId), key == ArrowRight);
        && (step.None? ==>
              outcome == Ignored && groups == old(groups) && registry.nodes == old(registry.nodes) &&
              registry.activeTabId == old(registry.activeTabId))
        && (step.Some? ==>
              && (step.value.popped.Some? ==> step.value.popped.value < |old(groups)|)
              && groups == AfterStep(old(groups), step.value)
              && outcome.Navigated?
              && Selection(registry.nodes, registry.activeTabId, outcome.ok) ==
                   match step.value.target
                   case Some(t) => SelectById(old(registry.nodes), old(registry.activeTabId), windowTabIds, t)
                   case None => Selection(Deselect(old(registry.nodes), ToSet(windowTabIds)),
                                          old(registry.activeTabId), false))
    {
      if key == Enter {
        return Activate(registry.activeTabId);
      }
      if key == OtherKey {
        return Ignored;
      }
      var step := Navigate(groups, groupIds, registry.activeTabId, key == ArrowRight);
      if step.None? {
        return Ignored;
      }
      StepMutation(groups, groupIds, registry.activeTabId, key == ArrowRight);
      groups := AfterStep(groups, step.value);
      var ok := false;
      match step.value.target {
        case Some(t) =>
          ok := registry.SetActiveTabNodeById(windowTabIds, t);
        case None =>
          registry.ClearSelection(windowTabIds);
      }
      outcome := Navigated(ok);
    }
  }
}
