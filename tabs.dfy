/**
 * The tab list as values: the records the page keeps, the row each tab is
 * rendered as, and the effect of the three user actions (add, select, close)
 * on the ordered list of tabs, the title counter and the identity counter.
 * The page class is proved to follow these functions step for step.
 */
module Tabs {
  import opened Converters
  import opened Counter

  /** The identity of one TabItem object; rows are keyed by it. */
  type TabId = nat

  /** A TabItem: title, body text and selection flag, plus its identity. */
  datatype Tab = Tab(id: TabId, title: string, content: string, isSelected: bool)

  /**
   * The rendered row of one tab, reduced to what the page ever changes:
   * the select button's text and colours and the close button's visibility.
   */
  datatype Row = Row(text: string, background: Color, foreground: Color, closeVisible: bool)

  /** The select button's background colour for a selection flag. */
  function Background(selected: bool): Color {
    if selected then White else Transparent
  }

  /** The select button's text colour for a selection flag. */
  function Foreground(selected: bool): Color {
    if selected then Black else Gray
  }

  /**
   * The row built for `t` while the list holds `count` tabs. Its colours are
   * the ones the selection converters give, and its close button is shown as
   * the count converter says.
   */
  function RowFor(t: Tab, count: int): (r: Row)
    ensures r.text == t.title
    ensures r.background == SelectionBackground(BoolValue(t.isSelected))
    ensures r.foreground == SelectionText(BoolValue(t.isSelected))
    ensures r.closeVisible == ShowCloseButton(IntValue(count))
  {
    Row(t.title, Background(t.isSelected), Foreground(t.isSelected), count > 1)
  }

  // Predicates over the list

  function Ids(tabs: seq<Tab>): set<TabId> {
    set k | 0 <= k < |tabs| :: tabs[k].id
  }

  predicate DistinctIds(tabs: seq<Tab>) {
    forall i, j | 0 <= i < j < |tabs| :: tabs[i].id != tabs[j].id
  }

  predicate AtMostOneSelected(tabs: seq<Tab>) {
    forall i, j | 0 <= i < |tabs| && 0 <= j < |tabs| && tabs[i].isSelected && tabs[j].isSelected :: i == j
  }

  /** The tab at position k is selected and no other is. */
  predicate OnlySelected(tabs: seq<Tab>, k: int) {
    forall i | 0 <= i < |tabs| :: tabs[i].isSelected <==> i == k
  }

  predicate NoneSelected(tabs: seq<Tab>) {
    forall i | 0 <= i < |tabs| :: !tabs[i].isSelected
  }

  /** The tabs agree in everything but their selection flags. */
  predicate SameButFlag(t: Tab, u: Tab) {
    t.id == u.id && t.title == u.title && t.content == u.content
  }

  /** Same tabs in the same order with the same identities, titles and contents. */
  predicate SameUpToSelection(a: seq<Tab>, b: seq<Tab>) {
    |a| == |b| && forall i | 0 <= i < |a| :: SameButFlag(a[i], b[i])
  }

  // List operations

  /** `Tabs.IndexOf`: the first position holding the tab, or -1. */
  function IndexOf(tabs: seq<Tab>, id: TabId): (r: int)
    ensures -1 <= r < |tabs|
    ensures r >= 0 ==> tabs[r].id == id && forall k | 0 <= k < r :: tabs[k].id != id
    ensures r < 0 <==> id !in Ids(tabs)
  {
    if |tabs| == 0 then -1
    else if tabs[0].id == id then 0
    else
      var r := IndexOf(tabs[1..], id);
      assert Ids(tabs) == {tabs[0].id} + Ids(tabs[1..]) by {
        assert tabs == [tabs[0]] + tabs[1..];
      }
      if r < 0 then -1 else r + 1
  }

  /** Every tab with its flag cleared: the deselection loop. */
  function Deselect(tabs: seq<Tab>): (r: seq<Tab>)
    ensures SameUpToSelection(r, tabs)
    ensures NoneSelected(r)
  {
    seq(|tabs|, i requires 0 <= i < |tabs| => tabs[i].(isSelected := false))
  }

  /** Every tab deselected, then the tab with identity `id` selected. */
  function SelectOnly(tabs: seq<Tab>, id: TabId): (r: seq<Tab>)
    ensures SameUpToSelection(r, tabs)
    ensures forall i | 0 <= i < |r| :: r[i].isSelected <==> tabs[i].id == id
  {
    seq(|tabs|, i requires 0 <= i < |tabs| => tabs[i].(isSelected := tabs[i].id == id))
  }

  /** The tab at position i given selection flag b. */
  function SetFlag(tabs: seq<Tab>, i: nat, b: bool): (r: seq<Tab>)
    requires i < |tabs|
    ensures SameUpToSelection(r, tabs)
    ensures r[i].isSelected == b
    ensures forall k | 0 <= k < |tabs| && k != i :: r[k] == tabs[k]
  {
    tabs[i := tabs[i].(isSelected := b)]
  }

  /**
   * Deselecting every tab and then flagging the first tab with identity `id`
   * (if there is one) selects exactly the tabs with that identity.
   */
  lemma DeselectThenFlag(tabs: seq<Tab>, id: TabId)
    requires DistinctIds(tabs)
    ensures var d := Deselect(tabs); var i := IndexOf(d, id);
      (if i >= 0 then SetFlag(d, i, true) else d) == SelectOnly(tabs, id)
  {
    var d := Deselect(tabs);
    var i := IndexOf(d, id);
    var r := if i >= 0 then SetFlag(d, i, true) else d;
    forall k | 0 <= k < |tabs| ensures r[k] == SelectOnly(tabs, id)[k] {
      assert d[k].id == tabs[k].id;
      if i >= 0 && k != i {
        assert tabs[k].id != tabs[i].id by {
          if k < i { assert tabs[k].id != tabs[i].id; } else { assert tabs[i].id != tabs[k].id; }
        }
      }
    }
  }

  /** `Tabs.Remove` of the tab at position i. */
  function RemoveAt(tabs: seq<Tab>, i: nat): (r: seq<Tab>)
    requires i < |tabs|
    ensures |r| == |tabs| - 1
    ensures forall k | 0 <= k < |r| :: r[k] == if k < i then tabs[k] else tabs[k + 1]
  {
    tabs[..i] + tabs[i + 1..]
  }

  lemma RemoveAtIds(tabs: seq<Tab>, i: nat)
    requires i < |tabs| && DistinctIds(tabs)
    ensures DistinctIds(RemoveAt(tabs, i))
    ensures Ids(RemoveAt(tabs, i)) == Ids(tabs) - {tabs[i].id}
  {
    var r := RemoveAt(tabs, i);
    forall x | x in Ids(r) ensures x in Ids(tabs) - {tabs[i].id} {
      var k :| 0 <= k < |r| && r[k].id == x;
    }
    forall x | x in Ids(tabs) - {tabs[i].id} ensures x in Ids(r) {
      var k :| 0 <= k < |tabs| && tabs[k].id == x;
      assert k != i;
      assert r[if k < i then k else k - 1] == tabs[k];
    }
  }

  lemma AppendIds(tabs: seq<Tab>, t: Tab)
    requires DistinctIds(tabs) && t.id !in Ids(tabs)
    ensures DistinctIds(tabs + [t])
    ensures Ids(tabs + [t]) == Ids(tabs) + {t.id}
  {
    var u := tabs + [t];
    assert forall k | 0 <= k < |tabs| :: u[k] == tabs[k];
    assert u[|tabs|] == t;
    forall x | x in Ids(u) ensures x in Ids(tabs) + {t.id} {
      var k :| 0 <= k < |u| && u[k].id == x;
    }
  }

  lemma SameUpToSelectionIds(a: seq<Tab>, b: seq<Tab>)
    requires SameUpToSelection(a, b)
    ensures Ids(a) == Ids(b)
    ensures DistinctIds(a) <==> DistinctIds(b)
  {
    forall x | x in Ids(a) ensures x in Ids(b) {
      var k :| 0 <= k < |a| && a[k].id == x;
      assert SameButFlag(a[k], b[k]);
    }
    forall x | x in Ids(b) ensures x in Ids(a) {
      var k :| 0 <= k < |b| && b[k].id == x;
      assert SameButFlag(a[k], b[k]);
    }
  }

  lemma RemoveAtSame(a: seq<Tab>, b: seq<Tab>, i: nat)
    requires SameUpToSelection(a, b) && i < |a|
    ensures SameUpToSelection(RemoveAt(a, i), RemoveAt(b, i))
  {
    var ra, rb := RemoveAt(a, i), RemoveAt(b, i);
    forall k | 0 <= k < |ra| ensures SameButFlag(ra[k], rb[k]) {
      var m := if k < i then k else k + 1;
      assert ra[k] == a[m] && rb[k] == b[m];
    }
  }

  // The state of the strip and the three actions

  /** The list of tabs, `_tabCounter`, and the identity the next new tab gets. */
  datatype Strip = Strip(tabs: seq<Tab>, counter: int, nextId: TabId)

  // The body texts are left abstract: no operation reads them, and the
  // model does not depend on their wording.
  const OverviewContent: string
  const DetailsContent: string
  const SettingsContent: string

  /** The three tabs the page starts with, the first one selected. */
  function InitialTabs(): seq<Tab> {
    [ Tab(0, "Overview", OverviewContent, true),
      Tab(1, "Details", DetailsContent, false),
      Tab(2, "Settings", SettingsContent, false) ]
  }

  function Initial(): Strip {
    Strip(InitialTabs(), 1, 3)
  }

  /** The default title of the tab created when the counter reads n. */
  function TabTitle(n: int): string {
    "Tab " + IntToString(n)
  }

  /** The number in a default title reads back as the counter value it was made from. */
  lemma TabTitleNumber(n: int)
    ensures |TabTitle(n)| >= 5 && TabTitle(n)[..4] == "Tab "
    ensures ParseInt(TabTitle(n)[4..]) == n
  {
    assert TabTitle(n)[4..] == IntToString(n);
    ParseIntToString(n);
  }

  /** The fixed text around the number in a new tab's placeholder body. */
  const ContentPrefix: string
  const ContentSuffix: string

  /** Placeholder body text of the tab created when the counter reads n: it names the number. */
  function ContentFor(n: int): string {
    ContentPrefix + IntToString(n) + ContentSuffix
  }

  /** The number in a placeholder body reads back as the counter value it was made from. */
  lemma ContentForNumber(n: int)
    ensures |ContentFor(n)| > |ContentPrefix| + |ContentSuffix|
    ensures ContentFor(n)[..|ContentPrefix|] == ContentPrefix
    ensures ContentFor(n)[|ContentFor(n)| - |ContentSuffix|..] == ContentSuffix
    ensures ParseInt(ContentFor(n)[|ContentPrefix|..|ContentFor(n)| - |ContentSuffix|]) == n
  {
    assert ContentFor(n)[|ContentPrefix|..|ContentFor(n)| - |ContentSuffix|] == IntToString(n);
    ParseIntToString(n);
  }

  lemma TabTitleInjective(a: int, b: int)
    ensures TabTitle(a) == TabTitle(b) <==> a == b
  {
    assert TabTitle(a)[4..] == IntToString(a);
    assert TabTitle(b)[4..] == IntToString(b);
    IntToStringInjective(a, b);
  }

  /** Add: deselect every tab, then append a new selected tab titled from the counter. */
  function AddSpec(s: Strip): (r: Strip)
    ensures |r.tabs| == |s.tabs| + 1
    ensures SameUpToSelection(r.tabs[..|s.tabs|], s.tabs)
    ensures OnlySelected(r.tabs, |s.tabs|)
    ensures r.tabs[|s.tabs|].id == s.nextId
    ensures r.tabs[|s.tabs|].title == TabTitle(s.counter)
    ensures r.counter == Increment(s.counter) && r.nextId == s.nextId + 1
  {
    var tabs := Deselect(s.tabs) + [Tab(s.nextId, TabTitle(s.counter), ContentFor(s.counter), true)];
    assert tabs[..|s.tabs|] == Deselect(s.tabs);
    Strip(tabs, Increment(s.counter), s.nextId + 1)
  }

  /** Add appends, after the deselected tabs, a fresh tab with the next identity. */
  lemma AddSpecAppends(s: Strip)
    requires IdsBelow(s.tabs, s.nextId)
    ensures AddSpec(s).tabs == Deselect(s.tabs) + [Tab(s.nextId, TabTitle(s.counter), ContentFor(s.counter), true)]
    ensures s.nextId !in Ids(Deselect(s.tabs))
    ensures IdsBelow(AddSpec(s).tabs, s.nextId + 1)
  {
    var d := Deselect(s.tabs);
    assert forall k | 0 <= k < |d| :: d[k].id == s.tabs[k].id;
    var u := AddSpec(s).tabs;
    assert forall k | 0 <= k < |d| :: u[k] == d[k];
  }

  /** Select: deselect every tab, then select the clicked one. */
  function SelectSpec(s: Strip, id: TabId): (r: Strip)
    ensures SameUpToSelection(r.tabs, s.tabs)
    ensures r.counter == s.counter && r.nextId == s.nextId
  {
    s.(tabs := SelectOnly(s.tabs, id))
  }

  /**
   * Close: refused while at most one tab is left. Otherwise, when the closed
   * tab is selected, the tab before it (or the first tab, when it is itself
   * the first) is flagged selected; then the closed tab is removed.
   */
  function CloseSpec(s: Strip, id: TabId): (r: Strip)
    ensures |s.tabs| <= 1 ==> r == s
    ensures |s.tabs| > 1 && id in Ids(s.tabs) ==> |r.tabs| == |s.tabs| - 1
    ensures id !in Ids(s.tabs) ==> r == s
    ensures r.counter == s.counter && r.nextId == s.nextId
  {
    if |s.tabs| <= 1 then s
    else
      var index := IndexOf(s.tabs, id);
      if index < 0 then s
      else
        var marked := if s.tabs[index].isSelected then SetFlag(s.tabs, if index > 0 then index - 1 else 0, true) else s.tabs;
        s.(tabs := RemoveAt(marked, index))
  }

  // Properties of the three actions

  /** Selecting a tab in the list leaves exactly that tab selected. */
  lemma SelectSelectsOnlyClicked(s: Strip, i: nat)
    requires i < |s.tabs| && DistinctIds(s.tabs)
    ensures OnlySelected(SelectSpec(s, s.tabs[i].id).tabs, i)
  {
  }

  /** Selecting a tab that is no longer in the list leaves no tab selected. */
  lemma SelectAbsentSelectsNone(s: Strip, id: TabId)
    requires id !in Ids(s.tabs)
    ensures NoneSelected(SelectSpec(s, id).tabs)
  {
    var r := SelectSpec(s, id).tabs;
    forall i | 0 <= i < |r| ensures !r[i].isSelected {
      assert s.tabs[i] in s.tabs;
    }
  }

  /**
   * Closing a tab of a list of more than one removes exactly that tab; the
   * others keep their order, titles and contents.
   */
  lemma CloseRemovesTab(s: Strip, i: nat)
    requires 1 < |s.tabs| && i < |s.tabs| && DistinctIds(s.tabs)
    ensures SameUpToSelection(CloseSpec(s, s.tabs[i].id).tabs, RemoveAt(s.tabs, i))
    ensures DistinctIds(CloseSpec(s, s.tabs[i].id).tabs)
    ensures Ids(CloseSpec(s, s.tabs[i].id).tabs) == Ids(s.tabs) - {s.tabs[i].id}
  {
    var id := s.tabs[i].id;
    assert IndexOf(s.tabs, id) == i;
    var marked := if s.tabs[i].isSelected then SetFlag(s.tabs, if i > 0 then i - 1 else 0, true) else s.tabs;
    var r := CloseSpec(s, id).tabs;
    assert r == RemoveAt(marked, i);
    RemoveAtIds(s.tabs, i);
    RemoveAtSame(marked, s.tabs, i);
    SameUpToSelectionIds(r, RemoveAt(s.tabs, i));
  }

  /** Closing an unselected tab touches no selection flag. */
  lemma CloseUnselected(s: Strip, i: nat)
    requires 1 < |s.tabs| && i < |s.tabs| && DistinctIds(s.tabs)
    requires !s.tabs[i].isSelected
    ensures CloseSpec(s, s.tabs[i].id).tabs == RemoveAt(s.tabs, i)
  {
    assert IndexOf(s.tabs, s.tabs[i].id) == i;
  }

  /** Closing the selected tab at a position i > 0 selects the tab that was at i - 1. */
  lemma CloseSelectedSelectsPrevious(s: Strip, i: nat)
    requires 0 < i < |s.tabs| && DistinctIds(s.tabs) && AtMostOneSelected(s.tabs)
    requires s.tabs[i].isSelected
    ensures OnlySelected(CloseSpec(s, s.tabs[i].id).tabs, i - 1)
  {
    assert IndexOf(s.tabs, s.tabs[i].id) == i;
    var marked := SetFlag(s.tabs, i - 1, true);
    var r := CloseSpec(s, s.tabs[i].id).tabs;
    assert r == RemoveAt(marked, i);
    forall k | 0 <= k < |r| ensures r[k].isSelected <==> k == i - 1 {
      if k < i - 1 {
        assert r[k] == s.tabs[k];
      } else if k >= i {
        assert r[k] == s.tabs[k + 1];
      }
    }
  }

  /**
   * Closing the selected first tab flags that same tab again before removing
   * it, so afterwards no tab is selected.
   */
  lemma CloseSelectedFirstSelectsNone(s: Strip)
    requires 1 < |s.tabs| && AtMostOneSelected(s.tabs)
    requires s.tabs[0].isSelected
    ensures NoneSelected(CloseSpec(s, s.tabs[0].id).tabs)
  {
    var r := CloseSpec(s, s.tabs[0].id).tabs;
    assert r == RemoveAt(SetFlag(s.tabs, 0, true), 0);
    forall k | 0 <= k < |r| ensures !r[k].isSelected {
      assert r[k] == s.tabs[k + 1];
    }
  }

  // Sequences of actions from the initial state

  datatype Action = AddTab | SelectTab(id: TabId) | CloseTab(id: TabId)

  function Step(s: Strip, a: Action): Strip {
    match a
    case AddTab => AddSpec(s)
    case SelectTab(id) => SelectSpec(s, id)
    case CloseTab(id) => CloseSpec(s, id)
  }

  function Run(s: Strip, actions: seq<Action>): Strip {
    if actions == [] then s else Step(Run(s, actions[..|actions| - 1]), actions[|actions| - 1])
  }

  predicate IdsBelow(tabs: seq<Tab>, n: nat) {
    forall k | 0 <= k < |tabs| :: tabs[k].id < n
  }

  /** Every added tab (identity at least 3) carries the title `name` gives its identity. */
  predicate TitlesFollow(tabs: seq<Tab>, name: TabId -> string) {
    forall k | 0 <= k < |tabs| && tabs[k].id >= 3 :: tabs[k].title == name(tabs[k].id)
  }

  /**
   * The title of the tab added with identity 3 + k: the counter after k
   * increments from 1 (RunCounter), which is 1 + k wrapped to 32 bits
   * (Counter.CounterAfterIsWrap).
   */
  function AddedTitleOf(id: TabId): string {
    TabTitle(Wrap(id - 2))
  }

  predicate AddedTitles(tabs: seq<Tab>) {
    TitlesFollow(tabs, AddedTitleOf)
  }

  /**
   * What holds of every state the page reaches through the three actions:
   * the list is never empty, identities are distinct and below the next one,
   * at most one tab is selected, and the counter and every added tab's title
   * are determined by how many tabs have been added before.
   */
  ghost predicate Invariant(s: Strip) {
    && |s.tabs| >= 1
    && DistinctIds(s.tabs)
    && IdsBelow(s.tabs, s.nextId)
    && AtMostOneSelected(s.tabs)
    && s.nextId >= 3
    && s.counter == Wrap(s.nextId - 2)
    && AddedTitles(s.tabs)
  }

  lemma SameUpToSelectionKeeps(a: seq<Tab>, b: seq<Tab>, n: nat)
    requires SameUpToSelection(a, b)
    ensures IdsBelow(a, n) <==> IdsBelow(b, n)
    ensures DistinctIds(a) <==> DistinctIds(b)
  {
    forall k | 0 <= k < |a| ensures a[k].id == b[k].id {
      assert SameButFlag(a[k], b[k]);
    }
    SameUpToSelectionIds(a, b);
  }

  lemma SameUpToSelectionTitles(a: seq<Tab>, b: seq<Tab>, name: TabId -> string)
    requires SameUpToSelection(a, b)
    ensures TitlesFollow(a, name) <==> TitlesFollow(b, name)
  {
    forall k | 0 <= k < |a| ensures a[k].id == b[k].id && a[k].title == b[k].title {
      assert SameButFlag(a[k], b[k]);
    }
  }

  lemma RemoveAtKeeps(tabs: seq<Tab>, i: nat, n: nat)
    requires i < |tabs| && IdsBelow(tabs, n)
    ensures IdsBelow(RemoveAt(tabs, i), n)
  {
    var r := RemoveAt(tabs, i);
    forall k | 0 <= k < |r| ensures r[k].id < n {
      assert r[k] == tabs[if k < i then k else k + 1];
    }
  }

  lemma RemoveAtTitles(tabs: seq<Tab>, i: nat, name: TabId -> string)
    requires i < |tabs| && TitlesFollow(tabs, name)
    ensures TitlesFollow(RemoveAt(tabs, i), name)
  {
    var r := RemoveAt(tabs, i);
    forall k | 0 <= k < |r| && r[k].id >= 3 ensures r[k].title == name(r[k].id) {
      assert r[k] == tabs[if k < i then k else k + 1];
    }
  }

  lemma InitialInvariant()
    ensures Invariant(Initial())
  {
  }

  /** Appending a tab with the next identity keeps identities distinct and below the next one. */
  lemma AppendKeeps(front: seq<Tab>, last: Tab, n: nat)
    requires IdsBelow(front, n) && DistinctIds(front) && last.id == n
    ensures IdsBelow(front + [last], n + 1)
    ensures DistinctIds(front + [last])
  {
    var u := front + [last];
    assert forall k | 0 <= k < |front| :: u[k] == front[k];
    assert u[|front|] == last;
  }

  /** Appending a tab titled from the counter value matching its identity keeps the titles in step. */
  lemma AppendTitles(front: seq<Tab>, last: Tab, name: TabId -> string)
    requires TitlesFollow(front, name) && last.title == name(last.id)
    ensures TitlesFollow(front + [last], name)
  {
    var u := front + [last];
    forall k | 0 <= k < |u| && u[k].id >= 3 ensures u[k].title == name(u[k].id) {
      if k < |front| {
        assert u[k] == front[k];
      } else {
        assert u[k] == last;
      }
    }
  }

  lemma AddPreservesInvariant(s: Strip)
    requires Invariant(s)
    ensures Invariant(AddSpec(s))
  {
    var r := AddSpec(s);
    var n := |s.tabs|;
    var front := r.tabs[..n];
    SameUpToSelectionKeeps(front, s.tabs, s.nextId);
    SameUpToSelectionTitles(front, s.tabs, AddedTitleOf);
    assert r.tabs == front + [r.tabs[n]];
    AppendKeeps(front, r.tabs[n], s.nextId);
    assert r.tabs[n].title == AddedTitleOf(s.nextId);
    AppendTitles(front, r.tabs[n], AddedTitleOf);
    IncrementWrap(s.nextId - 2);
  }

  lemma SelectPreservesInvariant(s: Strip, id: TabId)
    requires Invariant(s)
    ensures Invariant(SelectSpec(s, id))
  {
    var r := SelectSpec(s, id);
    SameUpToSelectionKeeps(r.tabs, s.tabs, s.nextId);
    SameUpToSelectionTitles(r.tabs, s.tabs, AddedTitleOf);
  }

  /** After a close, still at most one tab is selected. */
  lemma CloseKeepsSelection(s: Strip, id: TabId)
    requires Invariant(s)
    ensures AtMostOneSelected(CloseSpec(s, id).tabs)
  {
    var r := CloseSpec(s, id);
    if |s.tabs| > 1 && id in Ids(s.tabs) {
      var i := IndexOf(s.tabs, id);
      assert s.tabs[i].id == id;
      if s.tabs[i].isSelected {
        if i > 0 {
          CloseSelectedSelectsPrevious(s, i);
        } else {
          CloseSelectedFirstSelectsNone(s);
        }
      } else {
        CloseUnselected(s, i);
        forall a, b | 0 <= a < |r.tabs| && 0 <= b < |r.tabs| && r.tabs[a].isSelected && r.tabs[b].isSelected
          ensures a == b
        {
          assert r.tabs[a] == s.tabs[if a < i then a else a + 1];
          assert r.tabs[b] == s.tabs[if b < i then b else b + 1];
        }
      }
    }
  }

  lemma ClosePreservesInvariant(s: Strip, id: TabId)
    requires Invariant(s)
    ensures Invariant(CloseSpec(s, id))
  {
    CloseKeepsSelection(s, id);
    if |s.tabs| > 1 && id in Ids(s.tabs) {
      var i := IndexOf(s.tabs, id);
      assert s.tabs[i].id == id;
      CloseRemovesTab(s, i);
      RemoveAtKeeps(s.tabs, i, s.nextId);
      RemoveAtTitles(s.tabs, i, AddedTitleOf);
      SameUpToSelectionKeeps(CloseSpec(s, id).tabs, RemoveAt(s.tabs, i), s.nextId);
      SameUpToSelectionTitles(CloseSpec(s, id).tabs, RemoveAt(s.tabs, i), AddedTitleOf);
    }
  }

  lemma StepPreservesInvariant(s: Strip, a: Action)
    requires Invariant(s)
    ensures Invariant(Step(s, a))
  {
    match a
    case AddTab => AddPreservesInvariant(s);
    case SelectTab(id) => SelectPreservesInvariant(s, id);
    case CloseTab(id) => ClosePreservesInvariant(s, id);
  }

  /**
   * From the three initial tabs, no sequence of add, select and close
   * empties the list or leaves more than one tab selected.
   */
  lemma {:induction false} RunPreservesInvariant(actions: seq<Action>)
    ensures Invariant(Run(Initial(), actions))
    ensures |Run(Initial(), actions).tabs| >= 1
    ensures AtMostOneSelected(Run(Initial(), actions).tabs)
  {
    if actions == [] {
      InitialInvariant();
    } else {
      RunPreservesInvariant(actions[..|actions| - 1]);
      StepPreservesInvariant(Run(Initial(), actions[..|actions| - 1]), actions[|actions| - 1]);
    }
  }

  /** How many of the actions add a tab. */
  function AddCount(actions: seq<Action>): nat {
    if actions == [] then 0
    else AddCount(actions[..|actions| - 1]) + (if actions[|actions| - 1].AddTab? then 1 else 0)
  }

  /** Add increments the counter and the next identity; select and close change neither. */
  lemma StepCounter(s: Strip, a: Action)
    ensures Step(s, a).counter == if a.AddTab? then Increment(s.counter) else s.counter
    ensures Step(s, a).nextId == if a.AddTab? then s.nextId + 1 else s.nextId
  {
  }

  /** From any state, a run moves the next identity on by one per add. */
  lemma {:induction false} RunNextId(s: Strip, actions: seq<Action>)
    ensures Run(s, actions).nextId == s.nextId + AddCount(actions)
  {
    if actions != [] {
      var front, last := actions[..|actions| - 1], actions[|actions| - 1];
      RunNextId(s, front);
      StepCounter(Run(s, front), last);
    }
  }

  /**
   * Along every run, the counter is the initial 1 incremented once per add,
   * so 1 plus the number of adds wrapped to 32 bits, and the next identity is
   * 3 plus the number of adds.
   */
  lemma RunCounter(actions: seq<Action>)
    ensures Run(Initial(), actions).counter == CounterAfter(1, AddCount(actions))
    ensures Run(Initial(), actions).nextId == 3 + AddCount(actions)
    ensures Run(Initial(), actions).counter == Wrap(1 + AddCount(actions))
  {
    var k := AddCount(actions);
    RunNextId(Initial(), actions);
    assert Initial().nextId == 3;
    RunPreservesInvariant(actions);
    CounterAfterIsWrap(1, k);
  }

  /** Along every run, each added tab's title follows the counter. */
  lemma RunAddedTitles(actions: seq<Action>)
    ensures AddedTitles(Run(Initial(), actions).tabs)
  {
    RunPreservesInvariant(actions);
  }

  /**
   * Where added titles follow the counter (in every reachable list, by
   * RunAddedTitles), the tab added k-th (identity 2 + k, counting from 1) is
   * titled "Tab {k}": "Tab 1", "Tab 2", ... for as long as the counter has
   * not wrapped.
   */
  lemma AddedTitle(tabs: seq<Tab>, i: nat)
    requires AddedTitles(tabs)
    requires i < |tabs| && 3 <= tabs[i].id < INT32_MAX + 3
    ensures tabs[i].title == TabTitle(tabs[i].id - 2)
  {
    assert tabs[i].title == AddedTitleOf(tabs[i].id);
  }

  /** The titles given by two counter values fewer than 2^32 increments apart differ. */
  lemma AddedTitlesDiffer(x: int, y: int)
    requires x < y < x + INT32_RANGE
    ensures TabTitle(Wrap(x)) != TabTitle(Wrap(y))
  {
    WrapDistinct(x, y - x);
    TabTitleInjective(Wrap(x), Wrap(y));
  }

  /** In a reachable state, fewer than 2^32 adds apart, two added tabs have different titles. */
  lemma InvariantTitlesDistinct(s: Strip, i: nat, j: nat)
    requires DistinctIds(s.tabs) && IdsBelow(s.tabs, s.nextId) && AddedTitles(s.tabs)
    requires i < |s.tabs| && j < |s.tabs| && i != j
    requires s.tabs[i].id >= 3 && s.tabs[j].id >= 3 && s.nextId <= INT32_RANGE + 3
    ensures s.tabs[i].title != s.tabs[j].title
  {
    var x, y := s.tabs[i].id - 2, s.tabs[j].id - 2;
    assert x != y && x < s.nextId - 2 && y < s.nextId - 2 by {
      if i < j { assert s.tabs[i].id != s.tabs[j].id; } else { assert s.tabs[j].id != s.tabs[i].id; }
    }
    assert s.tabs[i].title == AddedTitleOf(s.tabs[i].id) && s.tabs[j].title == AddedTitleOf(s.tabs[j].id);
    if x < y { AddedTitlesDiffer(x, y); } else { AddedTitlesDiffer(y, x); }
  }

  /**
   * Two added tabs in the list have different titles, as long as fewer than
   * 2^32 tabs have been added in all.
   */
  lemma AddedTitlesDistinct(actions: seq<Action>, i: nat, j: nat)
    requires i < |Run(Initial(), actions).tabs| && j < |Run(Initial(), actions).tabs| && i != j
    requires Run(Initial(), actions).tabs[i].id >= 3 && Run(Initial(), actions).tabs[j].id >= 3
    requires Run(Initial(), actions).nextId <= INT32_RANGE + 3
    ensures Run(Initial(), actions).tabs[i].title != Run(Initial(), actions).tabs[j].title
  {
    RunPreservesInvariant(actions);
    InvariantTitlesDistinct(Run(Initial(), actions), i, j);
  }

  // Two concrete runs from the initial state

  /** Three adds give "Tab 1", "Tab 2", "Tab 3" after the initial tabs, the last one selected. */
  lemma ThreeAdds()
    ensures Run(Initial(), [AddTab, AddTab, AddTab]).tabs ==
      Deselect(InitialTabs()) +
      [ Tab(3, "Tab 1", ContentFor(1), false),
        Tab(4, "Tab 2", ContentFor(2), false),
        Tab(5, "Tab 3", ContentFor(3), true) ]
  {
    var acts := [AddTab, AddTab, AddTab];
    assert acts[..2] == [AddTab, AddTab] && acts[..2][..1] == [AddTab] && acts[..2][..1][..0] == [];
    assert NatToString(1) == "1" && NatToString(2) == "2" && NatToString(3) == "3";
    assert TabTitle(1) == "Tab 1" && TabTitle(2) == "Tab 2" && TabTitle(3) == "Tab 3";
    var d := Deselect(InitialTabs());
    var s1 := AddSpec(Initial());
    assert Run(Initial(), acts[..1]) == s1;
    assert s1.counter == 2 && s1.nextId == 4;
    var s2 := AddSpec(s1);
    assert Run(Initial(), acts[..2]) == s2;
    assert s2.counter == 3 && s2.nextId == 5;
    var s3 := AddSpec(s2);
    assert Run(Initial(), acts) == s3;
    assert s1.tabs == d + [Tab(3, "Tab 1", ContentFor(1), true)];
    assert Deselect(s1.tabs) == d + [Tab(3, "Tab 1", ContentFor(1), false)];
    assert s2.tabs == d + [Tab(3, "Tab 1", ContentFor(1), false), Tab(4, "Tab 2", ContentFor(2), true)];
    assert Deselect(s2.tabs) == d + [Tab(3, "Tab 1", ContentFor(1), false), Tab(4, "Tab 2", ContentFor(2), false)];
  }

  /**
   * Closing the selected first of the initial tabs re-flags that tab and
   * removes it: "Details" and "Settings" remain and neither is selected.
   */
  lemma CloseInitialFirst()
    ensures CloseSpec(Initial(), 0).tabs ==
      [Tab(1, "Details", DetailsContent, false), Tab(2, "Settings", SettingsContent, false)]
  {
    assert IndexOf(InitialTabs(), 0) == 0;
  }
}
