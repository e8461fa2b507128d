/**
 * The page itself, as the object the event handlers update in place: the
 * ordered list of tabs, `_tabCounter`, and the side table from each tab to
 * its rendered row. Each handler is a method whose effect on the list and
 * the counter is the matching function of the Tabs module, and every method
 * keeps the row table in step with the list.
 */
module Page {
  import opened Converters
  import opened Counter
  import opened Tabs

  /** Which TabItem property a PropertyChanged notification names. */
  datatype Property = IsSelectedProperty | TitleProperty | ContentProperty

  /** A CollectionChanged notification of the tab list. */
  datatype Change = Added(newItems: seq<Tab>) | Removed(oldItems: seq<Tab>) | OtherChange

  /** The row table after a row has been created for each item, in order. */
  function WithRows(rows: map<TabId, Row>, items: seq<Tab>, count: int): map<TabId, Row> {
    if items == [] then rows
    else
      var last := items[|items| - 1];
      WithRows(rows, items[..|items| - 1], count)[last.id := RowFor(last, count)]
  }

  /** The row table after the row of each item has been removed, in order. */
  function WithoutRows(rows: map<TabId, Row>, items: seq<Tab>): map<TabId, Row> {
    if items == [] then rows else WithoutRows(rows, items[..|items| - 1]) - {items[|items| - 1].id}
  }

  /** Creating rows for some items adds exactly their identities as keys. */
  lemma {:induction false} WithRowsKeys(rows: map<TabId, Row>, items: seq<Tab>, count: int)
    ensures WithRows(rows, items, count).Keys == rows.Keys + Ids(items)
  {
    if items != [] {
      var front := items[..|items| - 1];
      assert forall k | 0 <= k < |front| :: front[k] == items[k];
      WithRowsKeys(rows, front, count);
      assert Ids(items) == Ids(front) + {items[|items| - 1].id};
    }
  }

  /**
   * Creating rows for items with distinct identities gives each item the row
   * built from it and keeps every other row.
   */
  lemma {:induction false} WithRowsLookup(rows: map<TabId, Row>, items: seq<Tab>, count: int)
    requires DistinctIds(items)
    ensures forall k | 0 <= k < |items| ::
      items[k].id in WithRows(rows, items, count) && WithRows(rows, items, count)[items[k].id] == RowFor(items[k], count)
    ensures forall id | id in rows && id !in Ids(items) ::
      id in WithRows(rows, items, count) && WithRows(rows, items, count)[id] == rows[id]
  {
    if items != [] {
      var front := items[..|items| - 1];
      var last := items[|items| - 1];
      assert forall k | 0 <= k < |front| :: front[k] == items[k];
      assert DistinctIds(front);
      WithRowsLookup(rows, front, count);
      forall k | 0 <= k < |front| ensures items[k].id != last.id {
        assert items[k].id != items[|items| - 1].id;
      }
      assert forall id | id in Ids(front) :: id in Ids(items);
    }
  }

  /** Removing the rows of some items leaves every other row as it was. */
  lemma {:induction false} WithoutRowsLookup(rows: map<TabId, Row>, items: seq<Tab>)
    ensures WithoutRows(rows, items).Keys == rows.Keys - Ids(items)
    ensures forall id | id in WithoutRows(rows, items) :: WithoutRows(rows, items)[id] == rows[id]
  {
    if items != [] {
      var front := items[..|items| - 1];
      WithoutRowsLookup(rows, front);
      assert Ids(items) == Ids(front) + {items[|items| - 1].id} by {
        assert forall k | 0 <= k < |front| :: front[k] == items[k];
      }
    }
  }

  /**
   * The row table shows the list: one row per tab, keyed by its identity,
   * whose text and colours follow the tab and whose close button is shown
   * exactly when more than one tab is left.
   */
  ghost predicate RowsMatch(tabs: seq<Tab>, rows: map<TabId, Row>) {
    && rows.Keys == Ids(tabs)
    && forall k | 0 <= k < |tabs| :: rows[tabs[k].id] == RowFor(tabs[k], |tabs|)
  }

  /** Every row's close button set to `visible`, everything else untouched. */
  function Revisible(rows: map<TabId, Row>, visible: bool): (r: map<TabId, Row>)
    ensures r.Keys == rows.Keys
  {
    map id | id in rows :: rows[id].(closeVisible := visible)
  }

  /**
   * Rows that match the list show every close button exactly when more than
   * one tab is left, and each tab's row shows its title in its selection colours.
   */
  lemma MatchedRowsShowClose(tabs: seq<Tab>, rows: map<TabId, Row>)
    requires RowsMatch(tabs, rows)
    ensures forall id | id in rows :: rows[id].closeVisible <==> |tabs| > 1
    ensures forall k | 0 <= k < |tabs| :: tabs[k].id in rows && rows[tabs[k].id].text == tabs[k].title
    ensures forall k | 0 <= k < |tabs| && tabs[k].isSelected ::
      rows[tabs[k].id].background == White && rows[tabs[k].id].foreground == Black
    ensures forall k | 0 <= k < |tabs| && !tabs[k].isSelected ::
      rows[tabs[k].id].background == Transparent && rows[tabs[k].id].foreground == Gray
  {
    forall id | id in rows ensures rows[id].closeVisible <==> |tabs| > 1 {
      var k :| 0 <= k < |tabs| && tabs[k].id == id;
    }
  }

  /** Rows that already match the list are left as they are by recomputing visibility. */
  lemma RevisibleMatched(tabs: seq<Tab>, rows: map<TabId, Row>)
    requires RowsMatch(tabs, rows)
    ensures Revisible(rows, |tabs| > 1) == rows
  {
    MatchedRowsShowClose(tabs, rows);
  }

  /** Changing one tab's flag and recolouring its row keeps the rows matching. */
  lemma RowsMatchSetFlag(tabs: seq<Tab>, rows: map<TabId, Row>, i: nat, b: bool)
    requires RowsMatch(tabs, rows) && DistinctIds(tabs) && i < |tabs|
    ensures tabs[i].id in rows
    ensures DistinctIds(SetFlag(tabs, i, b)) && Ids(SetFlag(tabs, i, b)) == Ids(tabs)
    ensures RowsMatch(SetFlag(tabs, i, b),
      rows[tabs[i].id := rows[tabs[i].id].(background := Background(b), foreground := Foreground(b))])
  {
    var t := SetFlag(tabs, i, b);
    SameUpToSelectionIds(t, tabs);
    var r := rows[tabs[i].id := rows[tabs[i].id].(background := Background(b), foreground := Foreground(b))];
    forall k | 0 <= k < |t| ensures r[t[k].id] == RowFor(t[k], |t|) {
      if k != i {
        assert tabs[k].id != tabs[i].id by {
          if k < i { assert tabs[k].id != tabs[i].id; } else { assert tabs[i].id != tabs[k].id; }
        }
      }
    }
  }

  /** Changing one tab's title and relabelling its row keeps the rows matching. */
  lemma RowsMatchSetTitle(tabs: seq<Tab>, rows: map<TabId, Row>, i: nat, title: string)
    requires RowsMatch(tabs, rows) && DistinctIds(tabs) && i < |tabs|
    ensures tabs[i].id in rows
    ensures DistinctIds(tabs[i := tabs[i].(title := title)]) && Ids(tabs[i := tabs[i].(title := title)]) == Ids(tabs)
    ensures RowsMatch(tabs[i := tabs[i].(title := title)], rows[tabs[i].id := rows[tabs[i].id].(text := title)])
  {
    var t := tabs[i := tabs[i].(title := title)];
    assert forall k | 0 <= k < |t| :: t[k].id == tabs[k].id;
    assert Ids(t) == Ids(tabs);
    var r := rows[tabs[i].id := rows[tabs[i].id].(text := title)];
    forall k | 0 <= k < |t| ensures r[t[k].id] == RowFor(t[k], |t|) {
      if k != i {
        assert tabs[k].id != tabs[i].id by {
          if k < i { assert tabs[k].id != tabs[i].id; } else { assert tabs[i].id != tabs[k].id; }
        }
      }
    }
  }

  /**
   * Appending a tab with a fresh identity, creating its row and recomputing
   * visibility gives rows matching the longer list.
   */
  lemma RowsMatchAppend(tabs: seq<Tab>, rows: map<TabId, Row>, t: Tab)
    requires RowsMatch(tabs, rows) && DistinctIds(tabs) && t.id !in Ids(tabs)
    ensures DistinctIds(tabs + [t])
    ensures RowsMatch(tabs + [t], Revisible(rows[t.id := RowFor(t, |tabs + [t]|)], |tabs + [t]| > 1))
  {
    var u := tabs + [t];
    var r := Revisible(rows[t.id := RowFor(t, |u|)], |u| > 1);
    AppendIds(tabs, t);
    forall k | 0 <= k < |u| ensures r[u[k].id] == RowFor(u[k], |u|) {
      if k < |tabs| {
        assert u[k] == tabs[k];
        assert tabs[k].id != t.id;
      } else {
        assert u[k] == t;
      }
    }
  }

  /**
   * Removing the tab at position i with its row and recomputing visibility
   * gives rows matching the shorter list.
   */
  lemma RowsMatchRemove(tabs: seq<Tab>, rows: map<TabId, Row>, i: nat)
    requires RowsMatch(tabs, rows) && DistinctIds(tabs) && i < |tabs|
    ensures DistinctIds(RemoveAt(tabs, i))
    ensures RowsMatch(RemoveAt(tabs, i), Revisible(rows - {tabs[i].id}, |RemoveAt(tabs, i)| > 1))
  {
    var u := RemoveAt(tabs, i);
    var r := Revisible(rows - {tabs[i].id}, |u| > 1);
    RemoveAtIds(tabs, i);
    forall k | 0 <= k < |u| ensures r[u[k].id] == RowFor(u[k], |u|) {
      var m := if k < i then k else k + 1;
      assert u[k] == tabs[m];
      assert tabs[m].id != tabs[i].id by {
        if m < i { assert tabs[m].id != tabs[i].id; } else { assert tabs[i].id != tabs[m].id; }
      }
    }
  }

  /**
   * What the page keeps true between events: at least one tab, distinct
   * identities all below the next one, a 32-bit counter and rows matching the list.
   */
  ghost predicate Consistent(tabs: seq<Tab>, counter: int, nextId: TabId, rows: map<TabId, Row>) {
    && |tabs| >= 1
    && DistinctIds(tabs)
    && IdsBelow(tabs, nextId)
    && IsInt32(counter)
    && RowsMatch(tabs, rows)
  }

  /**
   * The three initial tabs, the counter at 1, identities 0 to 2 given out
   * and a row created for each tab in order: a consistent page.
   */
  lemma InitialConsistent()
    ensures Consistent(InitialTabs(), 1, 3, WithRows(map[], InitialTabs(), |InitialTabs()|))
  {
    WithRowsKeys(map[], InitialTabs(), |InitialTabs()|);
    WithRowsLookup(map[], InitialTabs(), |InitialTabs()|);
  }

  /** Changing one tab's flag and recolouring its row keeps the page consistent. */
  lemma SetFlagConsistent(tabs: seq<Tab>, counter: int, nextId: TabId, rows: map<TabId, Row>, i: nat, b: bool)
    requires Consistent(tabs, counter, nextId, rows) && i < |tabs|
    ensures tabs[i].id in rows
    ensures Consistent(SetFlag(tabs, i, b), counter, nextId,
      rows[tabs[i].id := rows[tabs[i].id].(background := Background(b), foreground := Foreground(b))])
  {
    RowsMatchSetFlag(tabs, rows, i, b);
    SameUpToSelectionKeeps(SetFlag(tabs, i, b), tabs, nextId);
  }

  /** Changing one tab's title and relabelling its row keeps the page consistent. */
  lemma SetTitleConsistent(tabs: seq<Tab>, counter: int, nextId: TabId, rows: map<TabId, Row>, i: nat, title: string)
    requires Consistent(tabs, counter, nextId, rows) && i < |tabs|
    ensures tabs[i].id in rows
    ensures Consistent(tabs[i := tabs[i].(title := title)], counter, nextId, rows[tabs[i].id := rows[tabs[i].id].(text := title)])
  {
    RowsMatchSetTitle(tabs, rows, i, title);
    var renamed := tabs[i := tabs[i].(title := title)];
    assert forall k | 0 <= k < |renamed| :: renamed[k].id == tabs[k].id;
  }

  /**
   * Appending a tab with the next identity, creating its row and recomputing
   * visibility keeps the page consistent, whatever 32-bit value the counter now holds.
   */
  lemma AppendConsistent(tabs: seq<Tab>, counter: int, nextId: TabId, rows: map<TabId, Row>, t: Tab, counter': int)
    requires Consistent(tabs, counter, nextId, rows) && t.id == nextId && IsInt32(counter')
    ensures Consistent(tabs + [t], counter', nextId + 1, Revisible(rows[t.id := RowFor(t, |tabs + [t]|)], |tabs + [t]| > 1))
  {
    AppendKeeps(tabs, t, nextId);
    RowsMatchAppend(tabs, rows, t);
  }

  /** Closing one of several tabs, with its row, and recomputing visibility keeps the page consistent. */
  lemma CloseConsistent(tabs: seq<Tab>, counter: int, nextId: TabId, rows: map<TabId, Row>, i: nat)
    requires Consistent(tabs, counter, nextId, rows) && |tabs| > 1 && i < |tabs|
    ensures Consistent(RemoveAt(tabs, i), counter, nextId, Revisible(rows - {tabs[i].id}, |RemoveAt(tabs, i)| > 1))
  {
    RemoveAtKeeps(tabs, i, nextId);
    RowsMatchRemove(tabs, rows, i);
  }

  class MainPage {
    var tabs: seq<Tab>
    var counter: int
    /** The identity the next TabItem object receives. */
    var nextId: TabId
    var rows: map<TabId, Row>

    ghost function State(): Strip
      reads this
    {
      Strip(tabs, counter, nextId)
    }

    ghost predicate Valid()
      reads this
    {
      Consistent(tabs, counter, nextId, rows)
    }

    /** The constructor's InitializeTabs: three tabs, the first selected, and a row for each. */
    constructor ()
      ensures Valid()
      ensures State() == Initial()
    {
      tabs := InitialTabs();
      counter := 1;
      nextId := 3;
      rows := map[];
      new;
      InitialConsistent();
      var i := 0;
      while i < |tabs|
        invariant 0 <= i <= |tabs|
        invariant tabs == InitialTabs() && counter == 1 && nextId == 3
        invariant rows == WithRows(map[], tabs[..i], |tabs|)
      {
        CreateTabControl(tabs[i]);
        assert tabs[..i + 1][..i] == tabs[..i];
        i := i + 1;
      }
      assert tabs[..i] == tabs;
    }

    /**
     * CreateTabControl: a row showing the tab's title in its selection
     * colours, with the close button shown when the list holds more than one
     * tab, entered in the table under the tab's identity.
     */
    method CreateTabControl(t: Tab)
      modifies this`rows
      ensures rows == old(rows)[t.id := RowFor(t, |tabs|)]
      ensures rows[t.id].text == t.title && (rows[t.id].closeVisible <==> |tabs| > 1)
    {
      rows := rows[t.id := Row(t.title, Background(t.isSelected), Foreground(t.isSelected), |tabs| > 1)];
    }

    /** RemoveTabControl: the tab's row, if it has one, leaves the table. */
    method RemoveTabControl(id: TabId)
      modifies this`rows
      ensures rows == old(rows) - {id}
    {
      if id in rows {
        rows := rows - {id};
      }
    }

    /** Tabs_CollectionChanged: a row for every added tab, none for a removed one. */
    method OnTabsCollectionChanged(change: Change)
      modifies this`rows
      ensures change.Added? ==> rows == WithRows(old(rows), change.newItems, |tabs|)
      ensures change.Removed? ==> rows == WithoutRows(old(rows), change.oldItems)
      ensures change.OtherChange? ==> rows == old(rows)
    {
      match change
      case Added(items) =>
        var i := 0;
        while i < |items|
          invariant 0 <= i <= |items|
          invariant rows == WithRows(old(rows), items[..i], |tabs|)
        {
          CreateTabControl(items[i]);
          assert items[..i + 1][..i] == items[..i];
          i := i + 1;
        }
        assert items[..i] == items;
      case Removed(items) =>
        var i := 0;
        while i < |items|
          invariant 0 <= i <= |items|
          invariant rows == WithoutRows(old(rows), items[..i])
        {
          RemoveTabControl(items[i].id);
          assert items[..i + 1][..i] == items[..i];
          i := i + 1;
        }
        assert items[..i] == items;
      case OtherChange =>
    }

    /**
     * Tab_PropertyChanged: a change of the selection flag recolours the tab's
     * row, a change of title relabels it; a tab without a row is ignored.
     */
    method OnTabPropertyChanged(sender: Tab, property: Property)
      modifies this`rows
      ensures sender.id !in old(rows) ==> rows == old(rows)
      ensures sender.id in old(rows) && property == IsSelectedProperty ==>
        rows == old(rows)[sender.id := old(rows)[sender.id].(background := Background(sender.isSelected),
                                                         foreground := Foreground(sender.isSelected))]
      ensures sender.id in old(rows) && property == TitleProperty ==>
        rows == old(rows)[sender.id := old(rows)[sender.id].(text := sender.title)]
      ensures property == ContentProperty ==> rows == old(rows)
    {
      if sender.id in rows {
        var row := rows[sender.id];
        match property
        case IsSelectedProperty =>
          rows := rows[sender.id := row.(background := Background(sender.isSelected), foreground := Foreground(sender.isSelected))];
        case TitleProperty =>
          rows := rows[sender.id := row.(text := sender.title)];
        case ContentProperty =>
      }
    }

    /** The IsSelected setter of the tab at position i, with its notification. */
    method SetSelected(i: nat, b: bool)
      requires Valid() && i < |tabs|
      modifies this`tabs, this`rows
      ensures Valid()
      ensures tabs == SetFlag(old(tabs), i, b)
    {
      SetFlagConsistent(tabs, counter, nextId, rows, i, b);
      tabs := tabs[i := tabs[i].(isSelected := b)];
      OnTabPropertyChanged(tabs[i], IsSelectedProperty);
    }

    /** The Title setter of the tab at position i, with its notification. */
    method SetTitle(i: nat, title: string)
      requires Valid() && i < |tabs|
      modifies this`tabs, this`rows
      ensures Valid()
      ensures tabs == old(tabs)[i := old(tabs)[i].(title := title)]
    {
      SetTitleConsistent(tabs, counter, nextId, rows, i, title);
      tabs := tabs[i := tabs[i].(title := title)];
      OnTabPropertyChanged(tabs[i], TitleProperty);
    }

    /** The Content setter of the tab at position i; no row shows the content. */
    method SetContent(i: nat, content: string)
      requires Valid() && i < |tabs|
      modifies this`tabs, this`rows
      ensures Valid()
      ensures tabs == old(tabs)[i := old(tabs)[i].(content := content)]
      ensures rows == old(rows)
    {
      ghost var changed := tabs[i := tabs[i].(content := content)];
      assert forall k | 0 <= k < |changed| ::
        changed[k].id == tabs[k].id && RowFor(changed[k], |changed|) == RowFor(tabs[k], |tabs|);
      assert Ids(changed) == Ids(tabs);
      tabs := tabs[i := tabs[i].(content := content)];
      OnTabPropertyChanged(tabs[i], ContentProperty);
    }

    /** UpdateCloseButtonVisibility: every row's close button shown exactly when more than one tab is left. */
    method UpdateCloseButtonVisibility()
      modifies this`rows
      ensures rows == Revisible(old(rows), |tabs| > 1)
    {
      var pending := rows.Keys;
      while pending != {}
        invariant pending <= rows.Keys && rows.Keys == old(rows).Keys
        invariant forall id | id in rows ::
          rows[id] == if id in pending then old(rows)[id] else old(rows)[id].(closeVisible := |tabs| > 1)
        decreases pending
      {
        var id :| id in pending;
        rows := rows[id := rows[id].(closeVisible := |tabs| > 1)];
        pending := pending - {id};
      }
    }

    /** Clears every tab's selection flag, front to back. */
    method DeselectAll()
      requires Valid()
      modifies this`tabs, this`rows
      ensures Valid()
      ensures tabs == Deselect(old(tabs))
    {
      var i := 0;
      while i < |tabs|
        invariant 0 <= i <= |tabs| && Valid()
        invariant |tabs| == |old(tabs)|
        invariant forall k | 0 <= k < i :: tabs[k] == old(tabs)[k].(isSelected := false)
        invariant forall k | i <= k < |tabs| :: tabs[k] == old(tabs)[k]
      {
        SetSelected(i, false);
        i := i + 1;
      }
    }

    /**
     * OnAddTabClicked: a new tab titled from the counter, every existing tab
     * deselected, the new one selected and appended, and the close buttons
     * recomputed.
     */
    method OnAddTabClicked()
      requires Valid()
      modifies this
      ensures Valid()
      ensures State() == AddSpec(old(State()))
    {
      ghost var s := State();
      AddSpecAppends(s);
      var n := counter;
      counter := Increment(counter);
      var shown := Wrap(counter - 1);
      DecrementUndoesIncrement(n);
      assert shown == s.counter;
      var newTab := Tab(nextId, TabTitle(n), ContentFor(shown), false);
      DeselectAll();
      newTab := newTab.(isSelected := true);
      ghost var before, rowsBefore := tabs, rows;
      nextId := nextId + 1;
      AppendToList(newTab);
      UpdateCloseButtonVisibility();
      AppendConsistent(before, counter, newTab.id, rowsBefore, newTab, counter);
    }

    /** OnTabClicked: every tab deselected, then the clicked one (when still listed) selected. */
    method OnTabClicked(id: TabId)
      requires Valid()
      modifies this
      ensures Valid()
      ensures State() == SelectSpec(old(State()), id)
    {
      DeselectThenFlag(tabs, id);
      DeselectAll();
      var index := IndexOf(tabs, id);
      if index >= 0 {
        SetSelected(index, true);
      }
    }

    /** `Tabs.Add` of a new tab, and the row creation its notification causes. */
    method AppendToList(t: Tab)
      modifies this`tabs, this`rows
      ensures tabs == old(tabs) + [t] && rows == old(rows)[t.id := RowFor(t, |tabs|)]
    {
      tabs := tabs + [t];
      OnTabsCollectionChanged(Added([t]));
      assert [t][..0] == [];
    }

    /** `Tabs.Remove` of the tab at position i, and the row removal its notification causes. */
    method RemoveFromList(i: nat)
      requires i < |tabs|
      modifies this`tabs, this`rows
      ensures tabs == RemoveAt(old(tabs), i) && rows == old(rows) - {old(tabs)[i].id}
    {
      var closed := tabs[i];
      tabs := tabs[..i] + tabs[i + 1..];
      OnTabsCollectionChanged(Removed([closed]));
      assert [closed][..0] == [];
    }

    /**
     * OnTabCloseClicked: refused while at most one tab is left; otherwise the
     * tab before a selected closed tab (or the first tab) is selected, the
     * closed tab is removed with its row, and the close buttons recomputed.
     */
    method OnTabCloseClicked(id: TabId)
      requires Valid()
      modifies this
      ensures Valid()
      ensures State() == CloseSpec(old(State()), id)
    {
      if |tabs| <= 1 {
        return;
      }
      var index := IndexOf(tabs, id);
      if index >= 0 && tabs[index].isSelected {
        var newSelectedIndex := if index > 0 then index - 1 else 0;
        SetSelected(newSelectedIndex, true);
      }
      ghost var before, rowsBefore := tabs, rows;
      if index >= 0 {
        RemoveFromList(index);
      }
      UpdateCloseButtonVisibility();
      if index >= 0 {
        CloseConsistent(before, counter, nextId, rowsBefore, index);
      } else {
        RevisibleMatched(before, rowsBefore);
      }
    }
  }
}
