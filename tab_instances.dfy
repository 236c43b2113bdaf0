/**
 * The tab instance store of one window: a browser-like back/forward history
 * per tab, a data bag merged from fetched data, and a sleep/wake flag.
 * Every handler takes the store and a payload and returns the next store.
 */
module TabInstanceStore {
  import opened Wrappers
  import opened Types
  import opened Actions

  /** The key under which `windowOpened` puts the bootstrap tab. */
  const InitialTab := "initial-tab"

  /** The data buckets that `merge` combines one level deeper. */
  const DeepFields: seq<string> := ["users", "games", "collections", "web", "toast"]

  /** The prefix of a resource that forces an internal url. */
  const CollectionsPrefix := "collections/"

  /** The internal url scheme. */
  const InternalScheme := "itch://"

  /** The bucket stored under `k`, if any. */
  function Bucket(d: TabData, k: string): Option<Value> {
    if k in d then Some(d[k]) else None
  }

  /**
   * The fields `{ ...(v || {}) }` copies: an object's own fields, nothing for
   * an absent or non-object bucket.
   */
  function Spread(v: Option<Value>): map<string, Value> {
    if v.Some? && v.value.Obj? then v.value.fields else map[]
  }

  /** The value `merge` gives the deep field `df`: `b`'s nested keys win. */
  function DeepMerged(a: TabData, b: TabData, df: string): Value {
    Obj(Spread(Bucket(a, df)) + Spread(Bucket(b, df)))
  }

  /**
   * `base` with each of `fields` overwritten by its deep merge, in order:
   * the effect of the reducer's loop over the deep fields.
   */
  function Overlaid(base: TabData, a: TabData, b: TabData, fields: seq<string>): (r: TabData)
    ensures r.Keys == base.Keys + set df | df in fields
    ensures forall k | k in r :: r[k] == if k in fields then DeepMerged(a, b, k) else base[k]
    decreases |fields|
  {
    if fields == [] then base
    else
      var df := fields[|fields| - 1];
      Overlaid(base, a, b, fields[..|fields| - 1])[df := DeepMerged(a, b, df)]
  }

  /**
   * `merge(a, b, { shallow })`: a top-level overwrite in which `b` wins;
   * without `shallow`, each deep field is additionally the union of both
   * sides' nested keys (again `b` wins) and is always present.
   */
  function Merged(a: TabData, b: TabData, shallow: bool): (r: TabData)
    ensures shallow ==> r.Keys == a.Keys + b.Keys
    ensures !shallow ==> r.Keys == a.Keys + b.Keys + set df | df in DeepFields
    ensures forall k | k in r && (shallow || k !in DeepFields) :: r[k] == if k in b then b[k] else a[k]
    ensures !shallow ==> forall df | df in DeepFields :: r[df] == DeepMerged(a, b, df)
  {
    if shallow then a + b else Overlaid(a + b, a, b, DeepFields)
  }

  /** Overlaying one more field extends the overlay of the prefix. */
  lemma OverlaidStep(base: TabData, a: TabData, b: TabData, fields: seq<string>, i: nat)
    requires i < |fields|
    ensures Overlaid(base, a, b, fields[..i + 1])
         == Overlaid(base, a, b, fields[..i])[fields[i] := DeepMerged(a, b, fields[i])]
  {
    assert fields[..i + 1][..i] == fields[..i];
  }

  /** `merge` as the reducer runs it: a loop that overwrites each deep field of `res`. */
  method Merge(a: TabData, b: TabData, shallow: bool) returns (res: TabData)
    ensures res == Merged(a, b, shallow)
  {
    res := a + b;
    if !shallow {
      for i := 0 to |DeepFields|
        invariant res == Overlaid(a + b, a, b, DeepFields[..i])
      {
        OverlaidStep(a + b, a, b, DeepFields, i);
        res := res[DeepFields[i] := DeepMerged(a, b, DeepFields[i])];
      }
      assert DeepFields[..|DeepFields|] == DeepFields;
    }
  }

  /** A tab whose current entry exists: history non-empty and index in range. */
  predicate Navigable(t: TabInstance) {
    t.history.Some? && t.currentIndex.Some? && 0 <= t.currentIndex.value < |t.history.value|
  }

  /** A navigable tab that also carries a data bag. */
  predicate WellFormed(t: TabInstance) {
    Navigable(t) && t.data.Some?
  }

  /** The invariant of a store whose tabs were all made by `openTab`/`windowOpened`. */
  predicate AllWellFormed(s: TabInstances) {
    forall k | k in s :: WellFormed(s[k])
  }

  /** The entry at `currentIndex`. */
  function Current(t: TabInstance): Entry
    requires Navigable(t)
  {
    t.history.value[t.currentIndex.value]
  }

  /** A fresh, sleepy, single-entry tab. */
  function FreshTab(entry: Entry, data: TabData): TabInstance {
    TabInstance(Some([entry]), Some(0), true, Some(data), None)
  }

  /** `windowOpened`: add the bootstrap tab at `initialURL`. */
  function OnWindowOpened(s: TabInstances, initialURL: string): (r: TabInstances)
    ensures r.Keys == s.Keys + {InitialTab}
    ensures WellFormed(r[InitialTab]) && r[InitialTab].sleepy && r[InitialTab].data == Some(map[])
    ensures r[InitialTab].history == Some([Entry(Some(initialURL), None)]) && r[InitialTab].currentIndex == Some(0)
    ensures forall k | k in s && k != InitialTab :: r[k] == s[k]
  {
    s[InitialTab := FreshTab(Entry(Some(initialURL), None), map[])]
  }

  /**
   * `tabDataFetched`: merge `data` into the tab's data and wake it. Merging
   * deep into a tab without data reads a field of `undefined` and throws.
   */
  function OnTabDataFetched(s: TabInstances, tab: string, data: TabData, shallow: bool): (r: TabInstances)
    requires tab in s && !shallow ==> s[tab].data.Some?
    ensures tab !in s ==> r == s
    ensures r.Keys == s.Keys
    ensures forall k | k in s && k != tab :: r[k] == s[k]
    ensures tab in s ==>
      && r[tab].history == s[tab].history
      && r[tab].currentIndex == s[tab].currentIndex
      && r[tab].webContentsId == s[tab].webContentsId
      && !r[tab].sleepy
      && r[tab].data == Some(Merged(s[tab].data.GetOr(map[]), data, shallow))
  {
    if tab !in s then s
    else
      var prev := s[tab];
      s[tab := prev.(sleepy := false, data := Some(Merged(prev.data.GetOr(map[]), data, shallow)))]
  }

  /**
   * The entry `evolveTab` writes. The replace test uses the caller's `url`
   * before a `collections/` resource rewrites it.
   */
  function EvolvedEntry(cur: Entry, url: Option<string>, resource: Option<string>): (r: Entry)
    ensures Present(resource) && CollectionsPrefix <= resource.value ==>
      r == Entry(Some(InternalScheme + resource.value), resource)
    ensures Present(resource) && !(CollectionsPrefix <= resource.value) ==> r == Entry(url, resource)
    ensures !Present(resource) ==> r == Entry(url, cur.resource)
  {
    var url' := if Present(resource) && CollectionsPrefix <= resource.value
                then Some(InternalScheme + resource.value) else url;
    var resource' := if Present(resource) then resource else cur.resource;
    Entry(url', resource')
  }

  /** Whether `evolveTab` overwrites the current entry instead of pushing. */
  function Replaces(cur: Entry, url: Option<string>, replace: bool): bool {
    replace || cur.url == url
  }

  /**
   * The history and index after navigating to `e`: replacing overwrites the
   * entry at `i`; pushing drops everything after `i` and appends `e`.
   */
  function Navigated(h: seq<Entry>, i: nat, e: Entry, replacing: bool): (r: (seq<Entry>, nat))
    requires i < |h|
    ensures r.1 < |r.0| && r.0[r.1] == e
    ensures replacing ==> |r.0| == |h| && r.1 == i && forall j | 0 <= j < |h| && j != i :: r.0[j] == h[j]
    ensures !replacing ==> r.0 == h[..i + 1] + [e] && r.1 == |r.0| - 1
  {
    if replacing then (h[..i] + [e] + h[i + 1..], i)
    else (h[..i + 1] + [e], i + 1)
  }

  /**
   * `evolveTab`: navigate the tab. Replacing overwrites the current entry;
   * pushing drops the forward branch and appends. Data is merged deep.
   */
  function OnEvolveTab(s: TabInstances, tab: string, url: Option<string>, resource: Option<string>,
                       data: TabData, replace: bool): (r: TabInstances)
    requires tab in s ==> WellFormed(s[tab])
    ensures tab !in s ==> r == s
    ensures r.Keys == s.Keys
    ensures forall k | k in s && k != tab :: r[k] == s[k]
    ensures tab in s ==>
      var prev, next := s[tab], r[tab];
      var h, i := prev.history.value, prev.currentIndex.value;
      var e := EvolvedEntry(Current(prev), url, resource);
      && WellFormed(next)
      && Current(next) == e
      && next.sleepy == prev.sleepy && next.webContentsId == prev.webContentsId
      && next.data == Some(Merged(prev.data.value, data, false))
      && (Replaces(Current(prev), url, replace) ==>
            |next.history.value| == |h| && next.currentIndex == prev.currentIndex
            && forall j | 0 <= j < |h| && j != i :: next.history.value[j] == h[j])
      && (!Replaces(Current(prev), url, replace) ==>
            next.history.value == h[..i + 1] + [e]
            && next.currentIndex.value == |next.history.value| - 1)
  {
    if tab !in s then s
    else
      var prev := s[tab];
      var h, i := prev.history.value, prev.currentIndex.value;
      var (h', i') := Navigated(h, i, EvolvedEntry(h[i], url, resource), Replaces(h[i], url, replace));
      s[tab := prev.(history := Some(h'), currentIndex := Some(i'), data := Some(Merged(prev.data.value, data, false)))]
  }

  /** `tabGoBack`: step back unless at the first entry. Reads `currentIndex` of the tab unguarded. */
  function OnTabGoBack(s: TabInstances, tab: string): (r: TabInstances)
    requires tab in s && s[tab].currentIndex.Some?
    ensures s[tab].currentIndex.value <= 0 ==> r == s
    ensures r.Keys == s.Keys
    ensures forall k | k in s && k != tab :: r[k] == s[k]
    ensures r[tab] == s[tab].(currentIndex := r[tab].currentIndex)
    ensures s[tab].currentIndex.value > 0 ==> r[tab].currentIndex == Some(s[tab].currentIndex.value - 1)
  {
    var t := s[tab];
    if t.currentIndex.value <= 0 then s
    else s[tab := t.(currentIndex := Some(t.currentIndex.value - 1))]
  }

  /** `tabGoForward`: step forward unless at the last entry. Reads `history` of the tab unguarded. */
  function OnTabGoForward(s: TabInstances, tab: string): (r: TabInstances)
    requires tab in s && s[tab].history.Some? && s[tab].currentIndex.Some?
    ensures s[tab].currentIndex.value >= |s[tab].history.value| - 1 ==> r == s
    ensures r.Keys == s.Keys
    ensures forall k | k in s && k != tab :: r[k] == s[k]
    ensures r[tab] == s[tab].(currentIndex := r[tab].currentIndex)
    ensures s[tab].currentIndex.value < |s[tab].history.value| - 1 ==>
      r[tab].currentIndex == Some(s[tab].currentIndex.value + 1)
  {
    var t := s[tab];
    if t.currentIndex.value >= |t.history.value| - 1 then s
    else s[tab := t.(currentIndex := Some(t.currentIndex.value + 1))]
  }

  /** `focusTab`: wake a sleepy tab. */
  function OnFocusTab(s: TabInstances, tab: string): (r: TabInstances)
    ensures !(tab in s && s[tab].sleepy) ==> r == s
    ensures r.Keys == s.Keys
    ensures forall k | k in s && k != tab :: r[k] == s[k]
    ensures tab in s ==> r[tab] == s[tab].(sleepy := false)
  {
    if tab in s && s[tab].sleepy then s[tab := s[tab].(sleepy := false)] else s
  }

  /** `closeTab`: drop the tab. */
  function OnCloseTab(s: TabInstances, tab: string): (r: TabInstances)
    ensures r.Keys == s.Keys - {tab}
    ensures forall k | k in r :: r[k] == s[k]
  {
    s - {tab}
  }

  /** `openTab`: a falsy tab id is ignored; otherwise a fresh sleepy tab. */
  function OnOpenTab(s: TabInstances, tab: string, url: Option<string>, resource: Option<string>, data: TabData): (r: TabInstances)
    ensures tab == "" ==> r == s
    ensures tab != "" ==> r.Keys == s.Keys + {tab}
    ensures forall k | k in s && k != tab :: r[k] == s[k]
    ensures tab != "" ==>
      && WellFormed(r[tab]) && r[tab].sleepy
      && r[tab].history == Some([Entry(url, resource)])
      && r[tab].currentIndex == Some(0) && r[tab].data == Some(data)
      && r[tab].webContentsId.None?
  {
    if tab == "" then s else s[tab := FreshTab(Entry(url, resource), data)]
  }

  /**
   * `tabGotWebContents`: attach the id; a tab not yet in the store becomes a
   * placeholder that holds only the id.
   */
  function OnTabGotWebContents(s: TabInstances, tab: string, webContentsId: int): (r: TabInstances)
    ensures r.Keys == s.Keys + {tab}
    ensures forall k | k in s && k != tab :: r[k] == s[k]
    ensures r[tab].webContentsId == Some(webContentsId)
    ensures tab in s ==> r[tab] == s[tab].(webContentsId := Some(webContentsId))
    ensures tab !in s ==> r[tab].history.None? && r[tab].currentIndex.None? && r[tab].data.None? && !r[tab].sleepy
  {
    var base := if tab in s then s[tab] else TabInstance(None, None, false, None, None);
    s[tab := base.(webContentsId := Some(webContentsId))]
  }

  /** Whether a snapshot item restores the tab `k`. */
  predicate SavesId(item: SavedTab, k: string) {
    item.Saved? && item.id != "" && item.id == k
  }

  /** The instance a saved record is restored to: persisted fields verbatim, empty data, sleepy. */
  function Revived(item: SavedTab): TabInstance
    requires item.Saved?
  {
    TabInstance(item.history, item.currentIndex, true, Some(map[]), item.webContentsId)
  }

  /** One step of `tabsRestored`: skip non-records and records without id. */
  function RestoreOne(s: TabInstances, item: SavedTab): TabInstances {
    if item.Saved? && item.id != "" then s[item.id := Revived(item)] else s
  }

  /**
   * `tabsRestored` over `items`, applied in order, skipping a null item
   * (the code throws on one: `RestoredAsWritten`).
   */
  function Restored(s: TabInstances, items: seq<SavedTab>): (r: TabInstances)
    ensures s.Keys <= r.Keys
    ensures forall k | k in r :: k in s || exists i | 0 <= i < |items| :: SavesId(items[i], k)
    decreases |items|
  {
    if items == [] then s
    else RestoreOne(Restored(s, items[..|items| - 1]), items[|items| - 1])
  }

  /**
   * The reducer's loop over the snapshot items, updating an accumulator.
   * Like `Restored` it skips a null item, where the code throws
   * (`RestoredAsWritten`).
   */
  method RestoreTabs(s: TabInstances, items: seq<SavedTab>) returns (acc: TabInstances)
    ensures acc == Restored(s, items)
    ensures forall k | k in acc :: k in s || exists i | 0 <= i < |items| :: SavesId(items[i], k)
  {
    acc := s;
    for i := 0 to |items|
      invariant acc == Restored(s, items[..i])
      invariant forall k | k in acc :: k in s || exists j | 0 <= j < i :: SavesId(items[j], k)
    {
      assert items[..i + 1][..i] == items[..i];
      var item := items[i];
      if item.Saved? && item.id != "" {
        acc := acc[item.id := Revived(item)];
        assert SavesId(items[i], item.id);
      }
    }
    assert items[..|items|] == items;
  }

  /**
   * `tabsRestored` exactly as written: `typeof null` is "object", so a null
   * item passes the guard and destructuring it throws (`None`), aborting the
   * whole batch.
   */
  function RestoredAsWritten(s: TabInstances, items: seq<SavedTab>): (r: Option<TabInstances>)
    ensures r.None? <==> exists i | 0 <= i < |items| :: items[i].NullItem?
    decreases |items|
  {
    if items == [] then Some(s)
    else
      match RestoredAsWritten(s, items[..|items| - 1])
      case None => None
      case Some(acc) =>
        if items[|items| - 1].NullItem? then None else Some(RestoreOne(acc, items[|items| - 1]))
  }

  /** What the store requires of an action so that its handler does not throw. */
  predicate Applicable(s: TabInstances, a: Action) {
    match a
    case TabDataFetched(_, tab, _, shallow) => tab in s && !shallow ==> s[tab].data.Some?
    case EvolveTab(_, tab, _, _, _, _) => tab in s ==> WellFormed(s[tab])
    case TabGoBack(_, tab) => tab in s && s[tab].currentIndex.Some?
    case TabGoForward(_, tab) => tab in s && s[tab].history.Some? && s[tab].currentIndex.Some?
    case _ => true
  }

  /** The tab instance reducer: dispatch on the action type. */
  function Reduce(s: TabInstances, a: Action): (r: TabInstances)
    requires Applicable(s, a)
    ensures a.Logout? ==> r == map[]
    ensures a.WindowClosed? || a.PopupContextMenu? || a.CloseContextMenu? || a.Other? ==> r == s
    ensures TabScoped(a) ==> forall k | k in s && k != a.tab :: k in r && r[k] == s[k]
  {
    match a
    case WindowOpened(_, initialURL) => OnWindowOpened(s, initialURL)
    case OpenTab(_, tab, url, resource, data) => OnOpenTab(s, tab, url, resource, data)
    case CloseTab(_, tab) => OnCloseTab(s, tab)
    case FocusTab(_, tab) => OnFocusTab(s, tab)
    case TabGotWebContents(_, tab, id) => OnTabGotWebContents(s, tab, id)
    case TabDataFetched(_, tab, data, shallow) => OnTabDataFetched(s, tab, data, shallow)
    case EvolveTab(_, tab, url, resource, data, replace) => OnEvolveTab(s, tab, url, resource, data, replace)
    case TabGoBack(_, tab) => OnTabGoBack(s, tab)
    case TabGoForward(_, tab) => OnTabGoForward(s, tab)
    case Logout => map[]
    case TabsRestored(_, items) => Restored(s, items)
    case _ => s
  }
}
