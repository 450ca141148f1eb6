/**
 * The view's tab-node registry (src/js/view/tabNodes.js): one visual node per tab
 * of the observed window, keyed by tab id, plus the id of the tab the view shows
 * as active. The DOM node is reduced to the state the source writes into it.
 */
module TabNodes {
  import opened Optional

  /** The fields of a host tab object that the registry reads. An absent
      `favIconUrl` is the empty string (both are falsy in the source). */
  datatype Tab = Tab(
    id: int,
    windowId: int,
    title: string,
    url: string,
    discarded: bool,
    pinned: bool,
    favIconUrl: string,
    lastAccessed: int)

  /** What the source keeps in one registry entry, as visible state: the
      displayed name, the `selected`, `inactive` and `pinned` classes of the tab element, the
      tooltip (`inner.title`), the thumbnail's background image, and the
      favicon's background image and `visible` class, and whether the tab
      element has been inserted into a group (has a parent element). */
  datatype NodeState = NodeState(
    name: string,
    selected: bool,
    inactive: bool,
    pinned: bool,
    tooltip: string,
    thumbnail: string,
    faviconVisible: bool,
    favicon: string,
    placed: bool)

  /** The tab id the source uses for "no active tab". */
  const NoTab: int := -1

  /** Prefix of URLs the tooltip does not repeat. */
  const DataScheme: string := "data:"

  /** Prefix of the browser's placeholder icons, which are never shown. */
  const PlaceholderIconPrefix: string := "chrome://mozapps/skin/"

  /** JavaScript's `s.substr(0, n)`: the first `n` characters, or all of a shorter string. */
  function Prefix(s: string, n: nat): (r: string)
    ensures |r| <= n && r <= s
    ensures |s| >= n ==> |r| == n
    ensures |s| < n ==> r == s
  {
    if |s| <= n then s else s[..n]
  }

  /** `s.substr(0, |p|) === p`, i.e. `p` is a prefix of `s`. */
  predicate StartsWith(s: string, p: string)
  {
    Prefix(s, |p|) == p
  }

  lemma StartsWithIsPrefix(s: string, p: string)
    ensures StartsWith(s, p) <==> p <= s
  {
  }

  // ---------------------------------------------------------------------------
  // Entry states written by the registry operations

  /** The entry `makeTabNode(tab, selected)` stores: a fresh element whose only
      class beyond `tab` is `selected` when asked, no tooltip, no images, and
      not yet inserted into any group. */
  function NewNode(selected: bool): (n: NodeState)
    ensures n.selected == selected
    ensures !n.inactive && !n.pinned && !n.faviconVisible
    ensures n.name == [] && n.tooltip == [] && n.thumbnail == [] && n.favicon == []
    ensures !n.placed
  {
    NodeState("", selected, false, false, "", "", false, "", false)
  }

  /** The tooltip `updateTabNode` sets: the title, followed by the decoded URL
      unless the URL is a `data:` URL. */
  function Tooltip(title: string, url: string, decodeUri: string -> string): (r: string)
    ensures title <= r
    ensures r == title <==> StartsWith(url, DataScheme)
    ensures !StartsWith(url, DataScheme) ==> r[|title|..] == " - " + decodeUri(url)
  {
    title + (if !StartsWith(url, DataScheme) then " - " + decodeUri(url) else "")
  }

  /** The entry after `updateTabNode(tab)`: name, tooltip, `inactive` and
      `pinned` are derived from the tab; selection and images are kept. */
  function Refreshed(n: NodeState, tab: Tab, decodeUri: string -> string): (r: NodeState)
  {
    n.(name := tab.title,
       tooltip := Tooltip(tab.title, tab.url, decodeUri),
       inactive := tab.discarded,
       pinned := tab.pinned)
  }

  lemma RefreshedFlags(n: NodeState, tab: Tab, decodeUri: string -> string)
    ensures Refreshed(n, tab, decodeUri).name == tab.title
    ensures Refreshed(n, tab, decodeUri).inactive <==> tab.discarded
    ensures Refreshed(n, tab, decodeUri).pinned <==> tab.pinned
    ensures Refreshed(n, tab, decodeUri).selected == n.selected
    ensures Refreshed(n, tab, decodeUri).thumbnail == n.thumbnail
    ensures Refreshed(n, tab, decodeUri).faviconVisible == n.faviconVisible
    ensures Refreshed(n, tab, decodeUri).favicon == n.favicon
  {
  }

  /** Refreshing twice with the same tab is the same as refreshing once. */
  lemma RefreshedIdempotent(n: NodeState, tab: Tab, decodeUri: string -> string)
    ensures Refreshed(Refreshed(n, tab, decodeUri), tab, decodeUri) == Refreshed(n, tab, decodeUri)
  {
  }

  /** The guard of `updateFavicon`: an icon URL is worth test-loading when it is
      non-empty, not a browser placeholder and not the page's own URL. */
  predicate FaviconCandidate(tab: Tab)
  {
    tab.favIconUrl != "" &&
    Prefix(tab.favIconUrl, |PlaceholderIconPrefix|) != PlaceholderIconPrefix &&
    tab.favIconUrl != tab.url
  }

  /** The entry after `updateFavicon(tab)` when test-loading a URL succeeds
      exactly when `loads` says so. A rejected candidate only loses `visible`;
      a failed load also clears the image. */
  function WithFavicon(n: NodeState, tab: Tab, loads: string -> bool): (r: NodeState)
  {
    if FaviconCandidate(tab) then
      if loads(tab.favIconUrl) then n.(favicon := "url(" + tab.favIconUrl + ")", faviconVisible := true)
      else n.(favicon := "", faviconVisible := false)
    else n.(faviconVisible := false)
  }

  /** The icon ends visible exactly when all four conditions hold, and then shows
      that URL; nothing but the favicon state changes. */
  lemma FaviconVisibleIff(n: NodeState, tab: Tab, loads: string -> bool)
    ensures WithFavicon(n, tab, loads).faviconVisible <==>
      tab.favIconUrl != "" &&
      !StartsWith(tab.favIconUrl, PlaceholderIconPrefix) &&
      tab.favIconUrl != tab.url &&
      loads(tab.favIconUrl)
    ensures WithFavicon(n, tab, loads).faviconVisible ==>
      WithFavicon(n, tab, loads).favicon == "url(" + tab.favIconUrl + ")"
    ensures WithFavicon(n, tab, loads).(favicon := n.favicon, faviconVisible := n.faviconVisible) == n
  {
  }

  /** The background `updateThumbnail` gives a node: a supplied (non-empty)
      thumbnail wins, then the value persisted in the session store, else none. */
  function ThumbnailBackground(supplied: string, persisted: Option<string>): (r: string)
    ensures supplied != "" ==> r == "url(" + supplied + ")"
    ensures supplied == "" && persisted.Some? && persisted.value != "" ==> r == "url(" + persisted.value + ")"
    ensures supplied == "" && (persisted.None? || persisted.value == "") ==> r == ""
  {
    var thumbnail := if supplied != "" then supplied else if persisted.Some? then persisted.value else "";
    if thumbnail != "" then "url(" + thumbnail + ")" else ""
  }

  /** Clears `selected` on the entries whose ids are in `ids`, keeping the rest. */
  function Deselect(m: map<int, NodeState>, ids: set<int>): (r: map<int, NodeState>)
    ensures r.Keys == m.Keys
    ensures forall id :: id in r && id in ids ==> r[id] == m[id].(selected := false)
    ensures forall id :: id in r && id !in ids ==> r[id] == m[id]
  {
    map id | id in m :: if id in ids then m[id].(selected := false) else m[id]
  }

  function ToSet(ids: seq<int>): set<int>
  {
    set id | id in ids
  }

  /** Deselecting one more listed id is one more entry update. */
  lemma DeselectOneMore(m: map<int, NodeState>, ids: seq<int>, k: nat)
    requires k < |ids|
    ensures var d := Deselect(m, ToSet(ids[..k]));
      Deselect(m, ToSet(ids[..k + 1])) ==
        if ids[k] in d then d[ids[k] := d[ids[k]].(selected := false)] else d
  {
    assert (ToSet(ids[..k + 1])) == (ToSet(ids[..k])) + {ids[k]} by {
      assert ids[..k + 1] == ids[..k] + [ids[k]];
    }
  }

  // ---------------------------------------------------------------------------
  // getLastActiveTabs: the window's tabs except the view, most recent first

  function IdSet(tabs: seq<Tab>): set<int>
  {
    set i | 0 <= i < |tabs| :: tabs[i].id
  }

  /** Tab ids of one query are unique. */
  predicate DistinctIds(tabs: seq<Tab>)
  {
    forall i, j :: 0 <= i < j < |tabs| ==> tabs[i].id != tabs[j].id
  }

  predicate SortedByRecency(tabs: seq<Tab>)
  {
    forall i, j :: 0 <= i < j < |tabs| ==> tabs[i].lastAccessed >= tabs[j].lastAccessed
  }

  /** `tabs.filter(tab => tab.id !== tabId)`. */
  function ExcludeTab(tabs: seq<Tab>, tabId: int): (r: seq<Tab>)
    ensures forall t :: multiset(r)[t] == if t.id == tabId then 0 else multiset(tabs)[t]
  {
    if tabs == [] then []
    else
      assert tabs == [tabs[0]] + tabs[1..];
      (if tabs[0].id != tabId then [tabs[0]] else []) + ExcludeTab(tabs[1..], tabId)
  }

  /** Inserts `t` before the first tab accessed no later than it. */
  function InsertByRecency(t: Tab, tabs: seq<Tab>): (r: seq<Tab>)
    ensures multiset(r) == multiset(tabs) + multiset{t}
  {
    if tabs == [] || tabs[0].lastAccessed <= t.lastAccessed then [t] + tabs
    else
      assert tabs == [tabs[0]] + tabs[1..];
      [tabs[0]] + InsertByRecency(t, tabs[1..])
  }

  /** Every tab of an insertion result is the inserted one or an old one. */
  lemma InsertByRecencyMembers(t: Tab, tabs: seq<Tab>)
    ensures forall u :: u in InsertByRecency(t, tabs) ==> u == t || u in tabs
  {
    var r := InsertByRecency(t, tabs);
    forall u | u in r ensures u == t || u in tabs {
      assert u in multiset(r);
    }
  }

  lemma {:induction false} InsertByRecencySorted(t: Tab, tabs: seq<Tab>)
    requires SortedByRecency(tabs)
    ensures SortedByRecency(InsertByRecency(t, tabs))
  {
    if tabs == [] || tabs[0].lastAccessed <= t.lastAccessed {
    } else {
      var rest := InsertByRecency(t, tabs[1..]);
      InsertByRecencySorted(t, tabs[1..]);
      InsertByRecencyMembers(t, tabs[1..]);
      var r := [tabs[0]] + rest;
      forall i, j | 0 <= i < j < |r| ensures r[i].lastAccessed >= r[j].lastAccessed {
        if i == 0 {
          assert r[j] in rest;
        }
      }
    }
  }

  /** The descending sort by `lastAccessed` the source's comparator aims for. */
  function SortByRecency(tabs: seq<Tab>): (r: seq<Tab>)
    ensures multiset(r) == multiset(tabs)
    ensures SortedByRecency(r)
  {
    if tabs == [] then []
    else
      assert tabs == [tabs[0]] + tabs[1..];
      InsertByRecencySorted(tabs[0], SortByRecency(tabs[1..]));
      InsertByRecency(tabs[0], SortByRecency(tabs[1..]))
  }

  /** `getLastActiveTabs(tabId)` over the query result `tabs`. */
  function LastActiveTabs(tabs: seq<Tab>, tabId: int): (r: seq<Tab>)
  {
    SortByRecency(ExcludeTab(tabs, tabId))
  }

  /** The list is a permutation of the window's tabs other than the view,
      most recently accessed first. */
  lemma LastActiveTabsSpec(tabs: seq<Tab>, tabId: int)
    ensures var r := LastActiveTabs(tabs, tabId);
      && SortedByRecency(r)
      && (forall t :: multiset(r)[t] == if t.id == tabId then 0 else multiset(tabs)[t])
  {
  }

  lemma LastActiveTabsMembers(tabs: seq<Tab>, tabId: int)
    ensures forall t :: t in LastActiveTabs(tabs, tabId) <==> t in tabs && t.id != tabId
  {
    var r := LastActiveTabs(tabs, tabId);
    assert forall t :: t in r <==> t in multiset(r);
    assert forall t :: t in tabs <==> t in multiset(tabs);
  }

  /** The list is empty exactly when the view is the window's only tab;
      otherwise its head is a most recently accessed other tab. */
  lemma LastActiveTabsHead(tabs: seq<Tab>, tabId: int)
    ensures var r := LastActiveTabs(tabs, tabId);
      && (r == [] <==> forall t :: t in tabs ==> t.id == tabId)
      && (r != [] ==> (r[0] in tabs && r[0].id != tabId &&
            forall t :: t in tabs && t.id != tabId ==> t.lastAccessed <= r[0].lastAccessed))
  {
    var r := LastActiveTabs(tabs, tabId);
    LastActiveTabsMembers(tabs, tabId);
    if r != [] {
      assert r[0] in r;
      forall t | t in tabs && t.id != tabId ensures t.lastAccessed <= r[0].lastAccessed {
        assert t in r;
        var k :| 0 <= k < |r| && r[k] == t;
        assert k == 0 || r[0].lastAccessed >= r[k].lastAccessed;
      }
    }
  }

  lemma DistinctIdsCons(t: Tab, tabs: seq<Tab>)
    ensures DistinctIds([t] + tabs) <==> DistinctIds(tabs) && forall u :: u in tabs ==> u.id != t.id
  {
    var s := [t] + tabs;
    assert forall i :: 0 <= i < |tabs| ==> s[i + 1] == tabs[i];
    if DistinctIds(s) {
      forall u | u in tabs ensures u.id != t.id {
        var k :| 0 <= k < |tabs| && tabs[k] == u;
        assert s[0].id != s[k + 1].id;
      }
    }
  }

  lemma {:induction false} ExcludeTabDistinct(tabs: seq<Tab>, tabId: int)
    requires DistinctIds(tabs)
    ensures DistinctIds(ExcludeTab(tabs, tabId))
  {
    if tabs != [] {
      assert tabs == [tabs[0]] + tabs[1..];
      DistinctIdsCons(tabs[0], tabs[1..]);
      ExcludeTabDistinct(tabs[1..], tabId);
      var rest := ExcludeTab(tabs[1..], tabId);
      if tabs[0].id != tabId {
        forall u | u in rest ensures u.id != tabs[0].id {
          assert u in multiset(rest);
          assert u in tabs[1..];
        }
        DistinctIdsCons(tabs[0], rest);
      } else {
        assert ExcludeTab(tabs, tabId) == rest;
      }
    }
  }

  lemma {:induction false} InsertByRecencyDistinct(t: Tab, tabs: seq<Tab>)
    requires DistinctIds(tabs) && forall u :: u in tabs ==> u.id != t.id
    ensures DistinctIds(InsertByRecency(t, tabs))
  {
    if tabs == [] || tabs[0].lastAccessed <= t.lastAccessed {
      DistinctIdsCons(t, tabs);
    } else {
      assert tabs == [tabs[0]] + tabs[1..];
      DistinctIdsCons(tabs[0], tabs[1..]);
      InsertByRecencyDistinct(t, tabs[1..]);
      var rest := InsertByRecency(t, tabs[1..]);
      forall u | u in rest ensures u.id != tabs[0].id {
        assert u in multiset(rest);
        assert u == t || u in tabs[1..];
      }
      DistinctIdsCons(tabs[0], rest);
    }
  }

  lemma {:induction false} SortByRecencyDistinct(tabs: seq<Tab>)
    requires DistinctIds(tabs)
    ensures DistinctIds(SortByRecency(tabs))
  {
    if tabs != [] {
      assert tabs == [tabs[0]] + tabs[1..];
      DistinctIdsCons(tabs[0], tabs[1..]);
      SortByRecencyDistinct(tabs[1..]);
      var sorted := SortByRecency(tabs[1..]);
      forall u | u in sorted ensures u.id != tabs[0].id {
        assert u in multiset(sorted);
        assert u in tabs[1..];
      }
      InsertByRecencyDistinct(tabs[0], sorted);
    }
  }

  /** Unique ids in the query stay unique in the sorted list. */
  lemma LastActiveTabsDistinct(tabs: seq<Tab>, tabId: int)
    requires DistinctIds(tabs)
    ensures DistinctIds(LastActiveTabs(tabs, tabId))
  {
    ExcludeTabDistinct(tabs, tabId);
    SortByRecencyDistinct(ExcludeTab(tabs, tabId));
  }

  /** With unique ids, the head's id does not occur again. */
  lemma HeadNotInRest(tabs: seq<Tab>)
    requires DistinctIds(tabs) && tabs != []
    ensures tabs[0].id !in IdSet(tabs[1..])
  {
    assert forall k :: 0 <= k < |tabs| - 1 ==> tabs[1..][k] == tabs[k + 1];
  }

  /** A listed tab other than the head is in the tail. */
  lemma RestMember(tabs: seq<Tab>, t: Tab)
    requires t in tabs && tabs != [] && t.id != tabs[0].id
    ensures t.id in IdSet(tabs[1..])
  {
    var k :| 0 <= k < |tabs| && tabs[k] == t;
    assert tabs[1..][k - 1] == t;
  }

  function Ids(tabs: seq<Tab>): (r: seq<int>)
    ensures |r| == |tabs| && forall i :: 0 <= i < |tabs| ==> r[i] == tabs[i].id
  {
    seq(|tabs|, i requires 0 <= i < |tabs| => tabs[i].id)
  }

  lemma IdsIsIdSet(tabs: seq<Tab>)
    ensures ToSet(Ids(tabs)) == IdSet(tabs)
  {
    var ids := Ids(tabs);
    forall id | id in ids ensures id in IdSet(tabs) {
      var k :| 0 <= k < |ids| && ids[k] == id;
    }
  }

  /** The entry `initTabNodes` leaves for a listed tab: made, refreshed, favicon
      checked, thumbnail taken from the session store. */
  function InitialNode(tab: Tab, selected: bool, decodeUri: string -> string,
                       loads: string -> bool, session: map<int, string>): (r: NodeState)
    ensures r.selected == selected
  {
    var n := WithFavicon(Refreshed(NewNode(selected), tab, decodeUri), tab, loads);
    n.(thumbnail := ThumbnailBackground("", Lookup(session, tab.id)))
  }

  // ---------------------------------------------------------------------------
  // Selection: which entry is marked `selected` and which id is active

  /** Registry state after a selection operation; `ok` is false where the
      source throws a TypeError part-way through. */
  datatype Selection = Selection(nodes: map<int, NodeState>, activeTabId: int, ok: bool)

  /** `setActiveTabNode(tabId)` with query result `tabs`: `tabs.shift().id`
      throws on an empty list before anything changes; otherwise the head
      becomes active, and `tabNodes[head].tab` throws when it has no entry;
      otherwise the head is selected and every later listed tab deselected. */
  function ActivateMostRecent(nodes: map<int, NodeState>, activeTabId: int, tabs: seq<Tab>, tabId: int): Selection
  {
    var last := LastActiveTabs(tabs, tabId);
    if last == [] then Selection(nodes, activeTabId, false)
    else if last[0].id !in nodes then Selection(nodes, last[0].id, false)
    else Selection(Deselect(nodes[last[0].id := nodes[last[0].id].(selected := true)], IdSet(last[1..])),
                   last[0].id, true)
  }

  /** `setActiveTabNodeById(tabId)`, where `ids` are the tabs `forEachTab`
      visits: every visited entry is deselected, then `tabNodes[tabId].tab`
      throws when `tabId` has no entry; otherwise it is selected and active. */
  function SelectById(nodes: map<int, NodeState>, activeTabId: int, ids: seq<int>, tabId: int): Selection
  {
    var cleared := Deselect(nodes, ToSet(ids));
    if tabId in nodes then Selection(cleared[tabId := nodes[tabId].(selected := true)], tabId, true)
    else Selection(cleared, activeTabId, false)
  }

  /** With no other tab in the window, `setActiveTabNode` throws before
      changing anything. */
  lemma ActivateWithoutOtherTabs(nodes: map<int, NodeState>, activeTabId: int, tabs: seq<Tab>, tabId: int)
    requires forall t :: t in tabs ==> t.id == tabId
    ensures ActivateMostRecent(nodes, activeTabId, tabs, tabId) == Selection(nodes, activeTabId, false)
  {
    LastActiveTabsHead(tabs, tabId);
  }

  /** With another tab in the window, the active id becomes that of a most
      recently accessed other tab, and the step succeeds exactly when that tab
      has an entry. */
  lemma ActivateChoosesMostRecent(nodes: map<int, NodeState>, activeTabId: int, tabs: seq<Tab>, tabId: int)
    requires exists t :: t in tabs && t.id != tabId
    ensures var s := ActivateMostRecent(nodes, activeTabId, tabs, tabId);
      && (s.ok <==> s.activeTabId in nodes)
      && exists t :: t in tabs && t.id != tabId && t.id == s.activeTabId &&
           forall u :: u in tabs && u.id != tabId ==> u.lastAccessed <= t.lastAccessed
  {
    LastActiveTabsHead(tabs, tabId);
    var last := LastActiveTabs(tabs, tabId);
    assert last[0] in tabs;
  }

  /** How `setActiveTabNode` marks entries: the key set never changes; when it
      throws the entries are untouched; otherwise the active entry is selected,
      and entries of unlisted tabs (and the view's own) keep their state. */
  lemma ActivateMarks(nodes: map<int, NodeState>, activeTabId: int, tabs: seq<Tab>, tabId: int)
    requires DistinctIds(tabs)
    ensures var s := ActivateMostRecent(nodes, activeTabId, tabs, tabId);
      && s.nodes.Keys == nodes.Keys
      && (!s.ok ==> s.nodes == nodes)
      && (s.ok ==> s.activeTabId in s.nodes && s.nodes[s.activeTabId].selected)
      && (forall id :: id in nodes && id != s.activeTabId && (id == tabId || id !in IdSet(tabs)) ==>
            s.nodes[id] == nodes[id])
  {
    var last := LastActiveTabs(tabs, tabId);
    if last != [] && last[0].id in nodes {
      LastActiveTabsDistinct(tabs, tabId);
      HeadNotInRest(last);
      RestIdsListed(tabs, tabId);
    }
  }

  /** The ids after the head of the list are ids of listed tabs other than the view. */
  lemma RestIdsListed(tabs: seq<Tab>, tabId: int)
    requires LastActiveTabs(tabs, tabId) != []
    ensures forall id :: id in IdSet(LastActiveTabs(tabs, tabId)[1..]) ==> id in IdSet(tabs) && id != tabId
  {
    var last := LastActiveTabs(tabs, tabId);
    LastActiveTabsMembers(tabs, tabId);
    forall id | id in IdSet(last[1..]) ensures id in IdSet(tabs) && id != tabId {
      var k :| 0 <= k < |last[1..]| && last[1..][k].id == id;
      assert last[1..][k] in last;
      var j :| 0 <= j < |tabs| && tabs[j] == last[1..][k];
    }
  }

  /** A successful `setActiveTabNode` deselects every listed tab other than the
      view and the new active one. */
  lemma ActivateDeselectsOthers(nodes: map<int, NodeState>, activeTabId: int, tabs: seq<Tab>, tabId: int)
    ensures var s := ActivateMostRecent(nodes, activeTabId, tabs, tabId);
      s.ok ==> forall t :: t in tabs && t.id != tabId && t.id != s.activeTabId && t.id in nodes ==>
        !s.nodes[t.id].selected
  {
    var last := LastActiveTabs(tabs, tabId);
    if last != [] && last[0].id in nodes {
      LastActiveTabsMembers(tabs, tabId);
      forall t | t in tabs && t.id != tabId && t.id != last[0].id
        ensures t.id in IdSet(last[1..])
      {
        RestMember(last, t);
      }
    }
  }

  /** When every entry belongs to a listed tab other than the view, a successful
      `setActiveTabNode` leaves exactly one selected entry: the active one. */
  lemma ActivateSelectsExactlyOne(nodes: map<int, NodeState>, activeTabId: int, tabs: seq<Tab>, tabId: int)
    requires DistinctIds(tabs)
    requires forall id :: id in nodes ==> id != tabId && id in IdSet(tabs)
    ensures var s := ActivateMostRecent(nodes, activeTabId, tabs, tabId);
      s.ok ==> forall id :: id in s.nodes ==> (s.nodes[id].selected <==> id == s.activeTabId)
  {
    var s := ActivateMostRecent(nodes, activeTabId, tabs, tabId);
    ActivateMarks(nodes, activeTabId, tabs, tabId);
    ActivateDeselectsOthers(nodes, activeTabId, tabs, tabId);
    if s.ok {
      forall id | id in s.nodes && id != s.activeTabId ensures !s.nodes[id].selected {
        var k :| 0 <= k < |tabs| && tabs[k].id == id;
        assert tabs[k] in tabs;
      }
    }
  }

  /** What `setActiveTabNodeById` guarantees: it succeeds exactly when the id has
      an entry; then that entry is selected, it is the active id, and every
      other visited entry is deselected; entries neither visited nor chosen,
      and the key set, never change. */
  lemma SelectByIdSpec(nodes: map<int, NodeState>, activeTabId: int, ids: seq<int>, tabId: int)
    ensures var s := SelectById(nodes, activeTabId, ids, tabId);
      && s.nodes.Keys == nodes.Keys
      && (s.ok <==> tabId in nodes)
      && (s.ok ==> s.activeTabId == tabId && s.nodes[tabId].selected)
      && (!s.ok ==> s.activeTabId == activeTabId)
      && (forall id :: id in ids && id != tabId && id in nodes ==> !s.nodes[id].selected)
      && (forall id :: id in nodes && id !in ids && id != tabId ==> s.nodes[id] == nodes[id])
      && (s.ok ==> s.nodes[tabId] == nodes[tabId].(selected := true))
  {
  }

  /** The map made by storing `vals[i]` under `ids[i]` for each `i < n`, in
      order, so a later repeated id replaces the earlier entry. */
  function Entries<V>(ids: seq<int>, vals: seq<V>, n: nat): map<int, V>
    requires n <= |ids| && n <= |vals|
  {
    if n == 0 then map[] else Entries(ids, vals, n - 1)[ids[n - 1] := vals[n - 1]]
  }

  predicate Distinct(ids: seq<int>)
  {
    forall i, j :: 0 <= i < j < |ids| ==> ids[i] != ids[j]
  }

  /** Only stored ids are keys. */
  lemma {:induction false} EntriesKeys<V>(ids: seq<int>, vals: seq<V>, n: nat)
    requires n <= |ids| && n <= |vals|
    ensures forall k :: k in Entries(ids, vals, n) ==> k in ids[..n]
  {
    if n > 0 {
      EntriesKeys(ids, vals, n - 1);
      assert forall k :: k in ids[..n - 1] ==> k in ids[..n] by {
        assert ids[..n - 1] == ids[..n][..n - 1];
      }
      assert ids[n - 1] == ids[..n][n - 1];
    }
  }

  /** With unique ids, each stored value stays under its own id. */
  lemma {:induction false} EntriesAt<V>(ids: seq<int>, vals: seq<V>, n: nat, i: nat)
    requires i < n <= |ids| && n <= |vals| && Distinct(ids)
    ensures ids[i] in Entries(ids, vals, n) && Entries(ids, vals, n)[ids[i]] == vals[i]
  {
    if i < n - 1 {
      EntriesAt(ids, vals, n - 1, i);
    }
  }

  /** Every stored id is a key, whether or not ids repeat. */
  lemma {:induction false} EntriesCover<V>(ids: seq<int>, vals: seq<V>, n: nat)
    requires n <= |ids| && n <= |vals|
    ensures forall i :: 0 <= i < n ==> ids[i] in Entries(ids, vals, n)
  {
    if n > 0 {
      EntriesCover(ids, vals, n - 1);
    }
  }

  lemma UnionUpdate<V>(a: map<int, V>, b: map<int, V>, k: int, v: V)
    ensures (a + b)[k := v] == a + b[k := v]
  {
  }

  /** The nodes `initTabNodes` builds for `last[k..]`; only the first listed tab is selected. */
  function NodesFrom(last: seq<Tab>, k: nat, decodeUri: string -> string,
                     loads: string -> bool, session: map<int, string>): (r: seq<NodeState>)
    requires k <= |last|
    ensures |r| == |last| - k
    decreases |last| - k
  {
    if k == |last| then []
    else [InitialNode(last[k], k == 0, decodeUri, loads, session)] + NodesFrom(last, k + 1, decodeUri, loads, session)
  }

  function InitialNodes(last: seq<Tab>, decodeUri: string -> string,
                        loads: string -> bool, session: map<int, string>): (r: seq<NodeState>)
    ensures |r| == |last|
  {
    NodesFrom(last, 0, decodeUri, loads, session)
  }

  /** The `i`-th initial node is made from the `i`-th listed tab. */
  lemma {:induction false} NodesFromAt(last: seq<Tab>, k: nat, i: nat, decodeUri: string -> string,
                                       loads: string -> bool, session: map<int, string>)
    requires k <= i < |last|
    ensures NodesFrom(last, k, decodeUri, loads, session)[i - k] == InitialNode(last[i], i == 0, decodeUri, loads, session)
    decreases i - k
  {
    if k < i {
      NodesFromAt(last, k + 1, i, decodeUri, loads, session);
    }
  }

  /** The entries `initTabNodes` writes for the listed tabs, in list order. */
  function InitialEntries(last: seq<Tab>, decodeUri: string -> string,
                          loads: string -> bool, session: map<int, string>): map<int, NodeState>
  {
    Entries(Ids(last), InitialNodes(last, decodeUri, loads, session), |last|)
  }

  /** The entries are all for listed tabs. */
  lemma InitialEntriesKeys(last: seq<Tab>, decodeUri: string -> string,
                           loads: string -> bool, session: map<int, string>)
    ensures InitialEntries(last, decodeUri, loads, session).Keys <= IdSet(last)
  {
    var ids := Ids(last);
    var m := InitialEntries(last, decodeUri, loads, session);
    EntriesKeys(ids, InitialNodes(last, decodeUri, loads, session), |last|);
    assert ids[..|last|] == ids;
    IdsIsIdSet(last);
    forall k | k in m
      ensures k in IdSet(last)
    {
      assert k in ToSet(ids);
    }
  }

  /** With unique ids, every listed tab gets exactly its own initial entry, so
      only the first one is selected. */
  lemma InitialEntriesSpec(last: seq<Tab>, decodeUri: string -> string,
                           loads: string -> bool, session: map<int, string>)
    requires DistinctIds(last)
    ensures var m := InitialEntries(last, decodeUri, loads, session);
      forall i :: 0 <= i < |last| ==>
        && last[i].id in m
        && m[last[i].id] == InitialNode(last[i], i == 0, decodeUri, loads, session)
        && (m[last[i].id].selected <==> i == 0)
  {
    var ids := Ids(last);
    var vals := InitialNodes(last, decodeUri, loads, session);
    forall i | 0 <= i < |last|
      ensures ids[i] in Entries(ids, vals, |last|) && Entries(ids, vals, |last|)[ids[i]] == vals[i]
      ensures vals[i] == InitialNode(last[i], i == 0, decodeUri, loads, session)
    {
      EntriesAt(ids, vals, |last|, i);
      NodesFromAt(last, 0, i, decodeUri, loads, session);
    }
  }

  /** `deleteTabNode` gets past `parentNode.removeChild` exactly when the id
      has no entry or its element has a parent. */
  predicate Removable(nodes: map<int, NodeState>, tabId: int)
  {
    tabId !in nodes || nodes[tabId].placed
  }

  /** Deleting an id twice is deleting it once, and deleting an absent id
      changes nothing: the two calls of `deleteTabNode` the handlers can make
      for one tab agree with one. */
  lemma DeleteIdempotent(m: map<int, NodeState>, tabId: int)
    ensures (m - {tabId}) - {tabId} == m - {tabId}
    ensures tabId !in m ==> m - {tabId} == m
    ensures tabId !in m - {tabId} && (m - {tabId}).Keys == m.Keys - {tabId}
  {
  }

  /** The registry invariant: there is an entry for every open tab of the
      window except the view's own tab `self`, and for no other id. */
  predicate Mirrors(nodes: map<int, NodeState>, open: set<int>, self: int)
  {
    nodes.Keys == open - {self}
  }

  /** A list holding exactly the tabs of `b` whose id is not `self` has the
      ids of `b` other than `self`. */
  lemma IdSetOfMembers(a: seq<Tab>, b: seq<Tab>, self: int)
    requires forall t :: t in a <==> t in b && t.id != self
    ensures IdSet(a) == IdSet(b) - {self}
  {
    forall k | k in IdSet(a)
      ensures k in IdSet(b) - {self}
    {
      var i :| 0 <= i < |a| && a[i].id == k;
      assert a[i] in a;
      var j :| 0 <= j < |b| && b[j] == a[i];
    }
    forall k | k in IdSet(b) - {self}
      ensures k in IdSet(a)
    {
      var j :| 0 <= j < |b| && b[j].id == k;
      assert b[j] in a;
      var i :| 0 <= i < |a| && a[i] == b[j];
    }
  }

  /** The listed ids are exactly the window's ids other than the view's. */
  lemma LastActiveIds(tabs: seq<Tab>, self: int)
    ensures IdSet(LastActiveTabs(tabs, self)) == IdSet(tabs) - {self}
  {
    LastActiveTabsMembers(tabs, self);
    IdSetOfMembers(LastActiveTabs(tabs, self), tabs, self);
  }

  /** Every listed tab gets an entry, and nothing else does. */
  lemma InitialEntriesExactKeys(last: seq<Tab>, decodeUri: string -> string,
                                loads: string -> bool, session: map<int, string>)
    ensures InitialEntries(last, decodeUri, loads, session).Keys == IdSet(last)
  {
    var m := InitialEntries(last, decodeUri, loads, session);
    InitialEntriesKeys(last, decodeUri, loads, session);
    EntriesCover(Ids(last), InitialNodes(last, decodeUri, loads, session), |last|);
    forall k | k in IdSet(last)
      ensures k in m
    {
      var i :| 0 <= i < |last| && last[i].id == k;
      assert Ids(last)[i] == k;
    }
  }

  /** `initTabNodes` run on an empty registry over the window's tabs sets up
      the invariant for exactly those tabs. */
  lemma InitMirrors(tabs: seq<Tab>, self: int, decodeUri: string -> string,
                    loads: string -> bool, session: map<int, string>)
    ensures Mirrors(map[] + InitialEntries(LastActiveTabs(tabs, self), decodeUri, loads, session),
                    IdSet(tabs), self)
  {
    var m := InitialEntries(LastActiveTabs(tabs, self), decodeUri, loads, session);
    assert map[] + m == m;
    LastActiveIds(tabs, self);
    InitialEntriesExactKeys(LastActiveTabs(tabs, self), decodeUri, loads, session);
  }

  /** Under the invariant, `setActiveTabNode` over the window's tabs throws
      only when the view is the window's only tab. */
  lemma MirrorsActivates(nodes: map<int, NodeState>, activeTabId: int, tabs: seq<Tab>, self: int)
    requires Mirrors(nodes, IdSet(tabs), self)
    ensures ActivateMostRecent(nodes, activeTabId, tabs, self).ok <==> exists t :: t in tabs && t.id != self
  {
    var last := LastActiveTabs(tabs, self);
    LastActiveTabsHead(tabs, self);
    if last != [] {
      var j :| 0 <= j < |tabs| && tabs[j] == last[0];
      assert last[0].id in IdSet(tabs);
    }
  }

  /** The module-level `tabNodes` map and `activeTabId` of tabNodes.js. */
  class TabRegistry {
    var nodes: map<int, NodeState>
    var activeTabId: int

    constructor ()
      ensures nodes == map[] && activeTabId == NoTab
    {
      nodes := map[];
      activeTabId := NoTab;
    }

    /** `makeTabNode(tab, selected)`: stores a new entry, replacing any old one. */
    method MakeTabNode(tab: Tab, selected: bool)
      modifies this
      ensures nodes == old(nodes)[tab.id := NewNode(selected)]
      ensures activeTabId == old(activeTabId)
    {
      nodes := nodes[tab.id := NewNode(selected)];
    }

    /** `updateTabNode(tab)`: refreshes the entry if there is one. */
    method UpdateTabNode(tab: Tab, decodeUri: string -> string)
      modifies this
      ensures tab.id in old(nodes) ==> nodes == old(nodes)[tab.id := Refreshed(old(nodes)[tab.id], tab, decodeUri)]
      ensures tab.id !in old(nodes) ==> nodes == old(nodes)
      ensures activeTabId == old(activeTabId)
    {
      if tab.id in nodes {
        nodes := nodes[tab.id := Refreshed(nodes[tab.id], tab, decodeUri)];
      }
    }

    /** `deleteTabNode(tabId)`: removes the entry if there is one; detaching
        the element from its parent throws, keeping the entry, when the
        element was never inserted into a group. */
    method DeleteTabNode(tabId: int) returns (ok: bool)
      modifies this
      ensures ok <==> Removable(old(nodes), tabId)
      ensures nodes == if ok then old(nodes) - {tabId} else old(nodes)
      ensures tabId !in old(nodes) ==> ok && nodes == old(nodes)
      ensures activeTabId == old(activeTabId)
    {
      ok := true;
      if tabId in nodes {
        if !nodes[tabId].placed {
          return false;
        }
        nodes := nodes - {tabId};
      }
    }

    /** The registry side of inserting a tab's element into a group (the
        insertion itself lives outside the registry): an existing entry is
        marked as having a parent, and nothing else changes. */
    method PlaceTabNode(tabId: int)
      modifies this
      ensures nodes == if tabId in old(nodes) then old(nodes)[tabId := old(nodes)[tabId].(placed := true)]
                       else old(nodes)
      ensures activeTabId == old(activeTabId)
    {
      if tabId in nodes {
        nodes := nodes[tabId := nodes[tabId].(placed := true)];
      }
    }

    /** `updateThumbnail(tabId, thumbnail)` with the session store `session`
        (`""` stands for an omitted thumbnail). */
    method UpdateThumbnail(tabId: int, thumbnail: string, session: map<int, string>)
      modifies this
      ensures tabId in old(nodes) ==>
        nodes == old(nodes)[tabId := old(nodes)[tabId].(thumbnail := ThumbnailBackground(thumbnail, Lookup(session, tabId)))]
      ensures tabId !in old(nodes) ==> nodes == old(nodes)
      ensures activeTabId == old(activeTabId)
    {
      if tabId in nodes {
        var background := ThumbnailBackground(thumbnail, Lookup(session, tabId));
        nodes := nodes[tabId := nodes[tabId].(thumbnail := background)];
      }
    }

    /** `updateFavicon(tab)`, with the test load's outcome given by `loads`. */
    method UpdateFavicon(tab: Tab, loads: string -> bool)
      modifies this
      ensures tab.id in old(nodes) ==> nodes == old(nodes)[tab.id := WithFavicon(old(nodes)[tab.id], tab, loads)]
      ensures tab.id !in old(nodes) ==> nodes == old(nodes)
      ensures activeTabId == old(activeTabId)
    {
      if tab.id in nodes {
        nodes := nodes[tab.id := WithFavicon(nodes[tab.id], tab, loads)];
      }
    }

    /** Removes `selected` from every listed id that still has an entry. */
    method ClearSelection(ids: seq<int>)
      modifies this
      ensures nodes == Deselect(old(nodes), ToSet(ids))
      ensures activeTabId == old(activeTabId)
    {
      var k := 0;
      while k < |ids|
        invariant 0 <= k <= |ids|
        invariant nodes == Deselect(old(nodes), ToSet(ids[..k]))
        invariant activeTabId == old(activeTabId)
      {
        DeselectOneMore(old(nodes), ids, k);
        if ids[k] in nodes {
          nodes := nodes[ids[k] := nodes[ids[k]].(selected := false)];
        }
        k := k + 1;
      }
      assert ids[..k] == ids;
    }

    /** `setActiveTabNode(tabId)` over the query result `tabs`; `ok` is false
        where the source throws. */
    method SetActiveTabNode(tabId: int, tabs: seq<Tab>) returns (ok: bool)
      modifies this
      ensures Selection(nodes, activeTabId, ok) == ActivateMostRecent(old(nodes), old(activeTabId), tabs, tabId)
    {
      var last := LastActiveTabs(tabs, tabId);
      if last == [] {
        return false;
      }
      activeTabId := last[0].id;
      if activeTabId !in nodes {
        return false;
      }
      nodes := nodes[activeTabId := nodes[activeTabId].(selected := true)];
      var rest := Ids(last[1..]);
      IdsIsIdSet(last[1..]);
      ClearSelection(rest);
      ok := true;
    }

    /** `setActiveTabNodeById(tabId)`, where `windowTabIds` are the ids
        `forEachTab` visits; `ok` is false where the source throws. */
    method SetActiveTabNodeById(windowTabIds: seq<int>, tabId: int) returns (ok: bool)
      modifies this
      ensures Selection(nodes, activeTabId, ok) == SelectById(old(nodes), old(activeTabId), windowTabIds, tabId)
    {
      ClearSelection(windowTabIds);
      if tabId !in nodes {
        return false;
      }
      nodes := nodes[tabId := nodes[tabId].(selected := true)];
      activeTabId := tabId;
      ok := true;
    }

    /** `initTabNodes(tabId)` over the query result `tabs` and session store
        `session`: with no other tab nothing changes; otherwise the most recent
        tab becomes active and the listed tabs get their entries in list order. */
    method InitTabNodes(tabId: int, tabs: seq<Tab>, decodeUri: string -> string,
                        loads: string -> bool, session: map<int, string>)
      modifies this
      ensures var last := LastActiveTabs(tabs, tabId);
        && (last == [] ==> nodes == old(nodes) && activeTabId == old(activeTabId))
        && (last != [] ==> activeTabId == last[0].id)
        && nodes == old(nodes) + InitialEntries(last, decodeUri, loads, session)
    {
      var last := LastActiveTabs(tabs, tabId);
      if |last| == 0 {
        return;
      }
      activeTabId := last[0].id;
      MakeInitialNodes(last, decodeUri, loads, session, Ids(last), InitialNodes(last, decodeUri, loads, session));
    }

    /** The `forEach` of `initTabNodes`: the entries for `last`, in order
        (`ids` and `vals` are the listed ids and the nodes made for them). */
    method MakeInitialNodes(last: seq<Tab>, decodeUri: string -> string,
                            loads: string -> bool, session: map<int, string>,
                            ghost ids: seq<int>, ghost vals: seq<NodeState>)
      requires ids == Ids(last) && vals == InitialNodes(last, decodeUri, loads, session)
      modifies this
      ensures nodes == old(nodes) + Entries(ids, vals, |last|)
      ensures activeTabId == old(activeTabId)
    {
      var i := 0;
      assert Entries(ids, vals, 0) == map[];
      assert old(nodes) + map[] == old(nodes);
      while i < |last|
        invariant 0 <= i <= |last|
        invariant activeTabId == old(activeTabId)
        invariant nodes == old(nodes) + Entries(ids, vals, i)
      {
        MakeInitialNodeAt(last, i, decodeUri, loads, session, old(nodes), ids, vals);
        i := i + 1;
      }
    }

    /** One turn of the `forEach` in `initTabNodes`: the entry for `last[i]`. */
    method MakeInitialNodeAt(last: seq<Tab>, i: nat, decodeUri: string -> string,
                             loads: string -> bool, session: map<int, string>,
                             ghost base: map<int, NodeState>, ghost ids: seq<int>, ghost vals: seq<NodeState>)
      requires i < |last| && ids == Ids(last) && vals == InitialNodes(last, decodeUri, loads, session)
      requires nodes == base + Entries(ids, vals, i)
      modifies this
      ensures nodes == base + Entries(ids, vals, i + 1)
      ensures activeTabId == old(activeTabId)
    {
      ghost var entries := Entries(ids, vals, i);
      assert Entries(ids, vals, i + 1) == entries[ids[i] := vals[i]];
      NodesFromAt(last, 0, i, decodeUri, loads, session);
      MakeInitialNode(last[i], i == 0, decodeUri, loads, session);
      assert nodes == (base + entries)[ids[i] := vals[i]];
      UnionUpdate(base, entries, ids[i], vals[i]);
    }

    /** The body of the `forEach` in `initTabNodes` for one tab. */
    method MakeInitialNode(tab: Tab, selected: bool, decodeUri: string -> string,
                           loads: string -> bool, session: map<int, string>)
      modifies this
      ensures nodes == old(nodes)[tab.id := InitialNode(tab, selected, decodeUri, loads, session)]
      ensures activeTabId == old(activeTabId)
    {
      ghost var made := NewNode(selected);
      ghost var refreshed := Refreshed(made, tab, decodeUri);
      MakeTabNode(tab, selected);
      assert nodes == old(nodes)[tab.id := made];
      UpdateTabNode(tab, decodeUri);
      assert nodes == old(nodes)[tab.id := refreshed];
      UpdateFavicon(tab, loads);
      assert nodes == old(nodes)[tab.id := WithFavicon(refreshed, tab, loads)];
      UpdateThumbnail(tab.id, "", session);
    }
  }
}
