/** Properties of the tab instance store that relate several calls or actions. */
module TabInstanceProperties {
  import opened Wrappers
  import opened Types
  import opened Actions
  import opened TabInstanceStore

  /** Deep merge keeps sibling keys of a deep field: `b`'s nested keys win, `a`'s others stay. */
  lemma MergedKeepsNestedKeys(a: TabData, b: TabData, df: string, key: string)
    requires df in DeepFields
    ensures Merged(a, b, false)[df].Obj?
    ensures key in Merged(a, b, false)[df].fields <==> key in Spread(Bucket(a, df)) || key in Spread(Bucket(b, df))
    ensures key in Spread(Bucket(b, df)) ==> Merged(a, b, false)[df].fields[key] == Spread(Bucket(b, df))[key]
    ensures key !in Spread(Bucket(b, df)) && key in Spread(Bucket(a, df)) ==>
      Merged(a, b, false)[df].fields[key] == Spread(Bucket(a, df))[key]
  {
  }

  /** `games: {g1: 1}` merged deep with `games: {g2: 2}` holds both games. */
  lemma MergedGamesExample()
    ensures Merged(map["games" := Obj(map["g1" := Num(1)])], map["games" := Obj(map["g2" := Num(2)])], false)["games"]
         == Obj(map["g1" := Num(1), "g2" := Num(2)])
  {
    var a, b := map["games" := Obj(map["g1" := Num(1)])], map["games" := Obj(map["g2" := Num(2)])];
    assert "games" in DeepFields;
    assert Spread(Bucket(a, "games")) + Spread(Bucket(b, "games")) == map["g1" := Num(1), "g2" := Num(2)];
  }

  /**
   * The replace test looks at the caller's url: a `collections/` navigation
   * whose caller url equals the current one replaces, though the entry it
   * writes has a different url.
   */
  lemma ReplaceTestPrecedesRewrite(s: TabInstances, tab: string, resource: string)
    requires tab in s && WellFormed(s[tab])
    requires CollectionsPrefix <= resource
    requires Current(s[tab]).url != Some(InternalScheme + resource)
    ensures var r := OnEvolveTab(s, tab, Current(s[tab]).url, Some(resource), map[], false);
      && r[tab].currentIndex == s[tab].currentIndex
      && |r[tab].history.value| == |s[tab].history.value|
      && Current(r[tab]).url != Current(s[tab]).url
  {
  }

  /** The store invariant survives every action except placeholders and restores. */
  lemma ReducePreservesWellFormed(s: TabInstances, a: Action)
    requires AllWellFormed(s)
    requires a.TabGoBack? || a.TabGoForward? || a.TabGotWebContents? ==> a.tab in s
    requires !a.TabsRestored?
    ensures Applicable(s, a)
    ensures AllWellFormed(Reduce(s, a))
  {
    var r := Reduce(s, a);
    forall k | k in r
      ensures WellFormed(r[k])
    {
      if a.TabGoBack? && k == a.tab {
        var ci := s[k].currentIndex.value;
        assert r[k].currentIndex == Some(if ci > 0 then ci - 1 else ci);
      } else if a.TabGoForward? && k == a.tab {
        var ci := s[k].currentIndex.value;
        assert r[k].currentIndex == Some(if ci < |s[k].history.value| - 1 then ci + 1 else ci);
      }
    }
  }

  /** A restore keeps the invariant when every record it applies is navigable. */
  lemma {:induction false} RestoredPreservesWellFormed(s: TabInstances, items: seq<SavedTab>)
    requires AllWellFormed(s)
    requires forall i | 0 <= i < |items| && items[i].Saved? && items[i].id != "" :: Navigable(Revived(items[i]))
    ensures AllWellFormed(Restored(s, items))
  {
    if items != [] {
      RestoredPreservesWellFormed(s, items[..|items| - 1]);
    }
  }

  /** A placeholder made by `tabGotWebContents` for an unknown tab breaks the invariant. */
  lemma PlaceholderIsNotNavigable(s: TabInstances, tab: string, id: int)
    requires tab !in s
    ensures tab in Reduce(s, TabGotWebContents("", tab, id))
    ensures !Navigable(Reduce(s, TabGotWebContents("", tab, id))[tab])
  {
  }

  /** A restored record without history breaks the invariant. */
  lemma RestoredWithoutHistoryIsNotNavigable(s: TabInstances, id: string)
    requires id != ""
    ensures id in Restored(s, [Saved(id, None, Some(0), None)])
    ensures !Navigable(Restored(s, [Saved(id, None, Some(0), None)])[id])
  {
    assert [Saved(id, None, Some(0), None)][..0] == [];
  }

  /** The last record saving `k` decides `k`'s restored instance: persisted fields, empty data, sleepy. */
  lemma {:induction false} RestoredLastWins(s: TabInstances, items: seq<SavedTab>, k: string, i: nat)
    requires i < |items| && SavesId(items[i], k)
    requires forall j | i < j < |items| :: !SavesId(items[j], k)
    ensures k in Restored(s, items)
    ensures var t := Restored(s, items)[k];
      && t.sleepy && t.data == Some(map[])
      && t.history == items[i].history && t.currentIndex == items[i].currentIndex
      && t.webContentsId == items[i].webContentsId
  {
    var n := |items|;
    if i < n - 1 {
      var prefix := items[..n - 1];
      assert prefix[i] == items[i];
      RestoredLastWins(s, prefix, k, i);
    }
  }

  /** A tab no record saves keeps its prior instance, or stays absent. */
  lemma {:induction false} RestoredUntouched(s: TabInstances, items: seq<SavedTab>, k: string)
    requires forall j | 0 <= j < |items| :: !SavesId(items[j], k)
    ensures k in Restored(s, items) <==> k in s
    ensures k in s ==> Restored(s, items)[k] == s[k]
  {
    if items != [] {
      var prefix := items[..|items| - 1];
      assert forall j | 0 <= j < |prefix| :: prefix[j] == items[j];
      RestoredUntouched(s, prefix, k);
    }
  }

  /** As written, a null item anywhere aborts the whole restore. */
  lemma {:induction false} NullItemAbortsRestore(s: TabInstances, items: seq<SavedTab>, i: nat)
    requires i < |items| && items[i].NullItem?
    ensures RestoredAsWritten(s, items).None?
  {
    var n := |items|;
    if i < n - 1 {
      var prefix := items[..n - 1];
      assert prefix[i] == items[i];
      NullItemAbortsRestore(s, prefix, i);
    }
  }

  /** Without null items the code as written and the model agree. */
  lemma {:induction false} RestoredAsWrittenAgrees(s: TabInstances, items: seq<SavedTab>)
    requires forall i | 0 <= i < |items| :: !items[i].NullItem?
    ensures RestoredAsWritten(s, items) == Some(Restored(s, items))
  {
    if items != [] {
      var prefix := items[..|items| - 1];
      assert forall j | 0 <= j < |prefix| :: prefix[j] == items[j];
      RestoredAsWrittenAgrees(s, prefix);
    }
  }

  /** The input that shows it: a null item followed by a good record restores nothing as written. */
  lemma NullItemExample(id: string)
    requires id != ""
    ensures RestoredAsWritten(map[], [NullItem, Saved(id, None, None, None)]).None?
    ensures id in Restored(map[], [NullItem, Saved(id, None, None, None)])
  {
    NullItemAbortsRestore(map[], [NullItem, Saved(id, None, None, None)], 0);
    RestoredLastWins(map[], [NullItem, Saved(id, None, None, None)], id, 1);
  }

  /** Open `u1`, navigate to `u2`, go back: the tab is on `u1` again at index 0. */
  lemma OpenEvolveBack(s: TabInstances, tab: string, u1: string, u2: string)
    requires tab != "" && u1 != u2
    ensures var s1 := Reduce(s, OpenTab("", tab, Some(u1), None, map[]));
      var s2 := Reduce(s1, EvolveTab("", tab, Some(u2), None, map[], false));
      var s3 := Reduce(s2, TabGoBack("", tab));
      && tab in s3 && Navigable(s3[tab])
      && s3[tab].currentIndex == Some(0) && Current(s3[tab]).url == Some(u1)
      && |s3[tab].history.value| == 2
  {
    var s1 := Reduce(s, OpenTab("", tab, Some(u1), None, map[]));
    var s2 := Reduce(s1, EvolveTab("", tab, Some(u2), None, map[], false));
    assert s2[tab].history.value == [Entry(Some(u1), None), Entry(Some(u2), None)];
  }

  /** After `closeTab`, data, navigation, focus and close events for that tab change nothing. */
  lemma ClosedTabIgnoresEvents(s: TabInstances, a: Action)
    requires a.TabDataFetched? || a.EvolveTab? || a.FocusTab? || a.CloseTab?
    ensures Applicable(OnCloseTab(s, a.tab), a)
    ensures Reduce(OnCloseTab(s, a.tab), a) == OnCloseTab(s, a.tab)
  {
  }

  /** ... but `tabGotWebContents` brings a closed tab back, as a placeholder. */
  lemma ClosedTabRevivedByWebContents(s: TabInstances, tab: string, id: int)
    ensures tab in Reduce(OnCloseTab(s, tab), TabGotWebContents("", tab, id))
  {
  }
}
