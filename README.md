# Owly tab strip — a Dafny model

Owly's main page shows a row of tabs above a content pane. The page keeps
an ordered list of `TabItem` records (title, content, selection flag), a
counter `_tabCounter` that numbers new tabs, and a side table from each tab
to its rendered row (a select button and a close button). Three click
handlers change this state: add a tab, select a tab and close a tab. Add,
and a close that removes a tab, end by recomputing the close buttons'
visibility; select leaves the tab count, and so the visibility, unchanged.
Three value converters turn a selection flag into a colour and a tab count
into the close button's visibility.

The model has four modules:

- `Converters` (converters.dfy): the three converters as pure functions
  over a boxed `Value` (bool, int or anything else).
- `Counter` (counter.dfy): the counter as a C# `int`. Incrementing it wraps
  from 2147483647 to -2147483648, because C# arithmetic is unchecked by
  default. It also holds the decimal rendering used in tab titles, and its
  inverse, which shows that no two numbers get the same title.
- `Tabs` (tabs.dfy): `Tab` and `Row` values and the `Strip` state (list,
  counter, next identity). `AddSpec`, `SelectSpec` and `CloseSpec` define the
  effect of each handler on that state. The lemmas prove their properties,
  and prove an invariant that holds after any sequence of actions from the
  three initial tabs.
- `Page` (page.dfy): the class `MainPage`. Its fields are `tabs: seq<Tab>`,
  `counter`, `nextId` and `rows: map<TabId, Row>`. Each handler is a method
  with the loops of the source. Each handler's `ensures` ties the new state
  to the matching `Tabs` function. `Valid()` (the value predicate
  `Consistent`) says the row table always matches the list: one row per tab,
  the tab's title as its text, its selection colours, and a close button
  shown exactly when more than one tab is left.

A C# `TabItem` is identified by object reference. The model gives each tab
a `TabId` instead, taken from a `nextId` field that grows by one with
every new tab. Rows are keyed by this id. The property-changed and
collection-changed events become direct, synchronous method calls
(`OnTabPropertyChanged`, `OnTabsCollectionChanged`), made at the point where
the source raises each event.

Two behaviours of the code are worth stating plainly:

- The comment at `Owly.App/MainPage.xaml.cs:248` says closing the selected
  tab selects the previous one. For the first tab the code re-flags index 0,
  which is the closed tab itself, and then removes it. So no tab is selected
  afterwards (`Tabs.CloseSelectedFirstSelectsNone`, `Tabs.CloseInitialFirst`).
- "Exactly one tab selected" is not an invariant. What holds along every
  run is "at most one tab selected" (`Tabs.RunPreservesInvariant`).

## Model

| member | source | states |
|---|---|---|
| `Converters.SelectionBackground` | Owly.App/MainPage.xaml.cs:348-355 | White exactly for the bool true; Transparent for false and for any non-bool value |
| `Converters.SelectionText` | Owly.App/MainPage.xaml.cs:365-372 | Black exactly for the bool true; Gray for false and for any non-bool value |
| `Converters.ShowCloseButton` | Owly.App/MainPage.xaml.cs:382-389 | hidden exactly for an int of at most 1; shown for a larger int and for any non-int value |
| `Counter.Increment` | Owly.App/MainPage.xaml.cs:206 | `_tabCounter++` gives one more, except at the 32-bit maximum, where it gives the minimum |
| `Counter.IncrementWrap` | Owly.App/MainPage.xaml.cs:206 | incrementing a counter that holds x modulo 2^32 gives x + 1 modulo 2^32 |
| `Counter.CounterAfterIsWrap` | Owly.App/MainPage.xaml.cs:206 | k increments add k modulo 2^32 |
| `Counter.CountersDistinct` | Owly.App/MainPage.xaml.cs:206 | two counter values fewer than 2^32 increments apart differ |
| `Counter.CounterFromOne` | Owly.App/MainPage.xaml.cs:56 | from the initial value 1, the k-th increment gives 1 + k until the maximum |
| `Counter.DecrementUndoesIncrement` | Owly.App/MainPage.xaml.cs:206-207 | `_tabCounter - 1` after `_tabCounter++` is the old counter, so the content names the same number as the title |
| `Counter.NatToString` | Owly.App/MainPage.xaml.cs:206 | the decimal text of a non-negative number inside the interpolation; its contract states only that it is non-empty, and `NatToStringDigits` and `NatToStringLeading` carry its properties |
| `Counter.NatToStringLeading` | Owly.App/MainPage.xaml.cs:206 | the decimal text starts with a digit, and that digit is '0' only for zero: no leading zeros |
| `Counter.IntToString` | Owly.App/MainPage.xaml.cs:206 | the decimal text of any int, as the interpolation writes it; its contract states only that it is non-empty, and `IntToStringSign`, `ParseIntToString` and `IntToStringInjective` carry its properties |
| `Counter.IntToStringSign` | Owly.App/MainPage.xaml.cs:206 | the text starts with '-' exactly for a negative number |
| `Counter.NatToStringDigits` | Owly.App/MainPage.xaml.cs:206 | the interpolated non-negative number is written with decimal digits only |
| `Counter.ParseIntToString` | Owly.App/MainPage.xaml.cs:206 | reading the decimal rendering back gives the number |
| `Counter.IntToStringInjective` | Owly.App/MainPage.xaml.cs:206 | two numbers render the same exactly when they are equal |
| `Tabs.InitialTabs` | Owly.App/MainPage.xaml.cs:76-94 | the three initial tabs "Overview", "Details" and "Settings", the first selected; no contract of its own, `Tabs.InitialInvariant` and `Tabs.CloseInitialFirst` carry its properties |
| `Tabs.TabTitle` | Owly.App/MainPage.xaml.cs:206 | "Tab " followed by the counter's decimal text; no contract of its own, `Tabs.TabTitleNumber` and `Tabs.TabTitleInjective` carry its properties |
| `Tabs.TabTitleNumber` | Owly.App/MainPage.xaml.cs:206 | a default title is "Tab " followed by text that reads back as the counter value it was made from |
| `Tabs.ContentFor` | Owly.App/MainPage.xaml.cs:207 | the placeholder body: fixed text, the number's decimal text, fixed text; no contract of its own, `Tabs.ContentForNumber` carries its properties |
| `Tabs.ContentForNumber` | Owly.App/MainPage.xaml.cs:207 | the placeholder body starts and ends with its fixed texts, and the text between them reads back as the number |
| `Tabs.TabTitleInjective` | Owly.App/MainPage.xaml.cs:206 | "Tab N" titles are equal exactly when their numbers are |
| `Tabs.RowFor` | Owly.App/MainPage.xaml.cs:128-153 | a new row's text is the title; its colours are what the two selection converters give for the flag; its close button is shown as the count converter gives for the tab count |
| `Tabs.IndexOf` | Owly.App/MainPage.xaml.cs:251 | the first position holding the tab; -1 exactly when the tab is not in the list |
| `Tabs.Deselect` | Owly.App/MainPage.xaml.cs:211-214 | no tab selected; order, identities, titles and contents unchanged |
| `Tabs.SelectOnly` | Owly.App/MainPage.xaml.cs:229-236 | a tab is selected exactly when it is the clicked one; nothing else changes |
| `Tabs.DeselectThenFlag` | Owly.App/MainPage.xaml.cs:229-236 | deselecting every tab and then flagging the clicked one, when it is listed, is exactly `SelectOnly` |
| `Tabs.SetFlag` | Owly.App/MainPage.xaml.cs:253 | only the flag of the tab at the given position changes |
| `Tabs.RemoveAt` | Owly.App/MainPage.xaml.cs:256 | one tab shorter; tabs before the position stay, tabs after it move up by one |
| `Tabs.RemoveAtIds` | Owly.App/MainPage.xaml.cs:256 | removal takes exactly the removed tab's identity out of the list and keeps identities distinct |
| `Tabs.AppendIds` | Owly.App/MainPage.xaml.cs:219 | appending a tab with a fresh identity keeps identities distinct and adds exactly that identity |
| `Tabs.RemoveAtSame` | Owly.App/MainPage.xaml.cs:256 | removing the same position from two lists that differ only in selection flags gives lists that differ only in selection flags |
| `Tabs.AddSpec` | Owly.App/MainPage.xaml.cs:202-219 | the list grows by one; earlier tabs keep order, titles and contents; the new last tab is the only one selected; it is titled "Tab N" from the old counter; the counter is incremented |
| `Tabs.AddSpecAppends` | Owly.App/MainPage.xaml.cs:202-219 | add appends, after the deselected tabs, one selected tab with the next identity, titled and filled from the old counter; all identities stay below the new next identity |
| `Tabs.SelectSpec` | Owly.App/MainPage.xaml.cs:225-238 | order, identities, titles, contents and counter unchanged |
| `Tabs.CloseSpec` | Owly.App/MainPage.xaml.cs:240-256 | a no-op when at most one tab is left or the tab is not listed; otherwise one tab shorter; the counter is unchanged |
| `Tabs.SelectSelectsOnlyClicked` | Owly.App/MainPage.xaml.cs:229-236 | after selecting a listed tab, exactly that tab is selected |
| `Tabs.SelectAbsentSelectsNone` | Owly.App/MainPage.xaml.cs:229-236 | selecting a tab that is no longer listed leaves none of the listed tabs selected |
| `Tabs.CloseRemovesTab` | Owly.App/MainPage.xaml.cs:256 | close removes exactly the given tab; the rest keep their relative order, titles and contents |
| `Tabs.CloseUnselected` | Owly.App/MainPage.xaml.cs:249-256 | closing an unselected tab changes no selection flag |
| `Tabs.CloseSelectedSelectsPrevious` | Owly.App/MainPage.xaml.cs:249-256 | closing the selected tab at position i > 0 leaves exactly the tab formerly at i - 1 selected |
| `Tabs.CloseSelectedFirstSelectsNone` | Owly.App/MainPage.xaml.cs:249-256 | closing the selected tab at position 0 leaves no tab selected |
| `Tabs.InitialInvariant` | Owly.App/MainPage.xaml.cs:74-94 | the three initial tabs, with the first selected, satisfy the invariant |
| `Tabs.AddPreservesInvariant` | Owly.App/MainPage.xaml.cs:202-219 | add keeps the invariant |
| `Tabs.SelectPreservesInvariant` | Owly.App/MainPage.xaml.cs:225-238 | select keeps the invariant |
| `Tabs.CloseKeepsSelection` | Owly.App/MainPage.xaml.cs:249-256 | close keeps at most one tab selected |
| `Tabs.ClosePreservesInvariant` | Owly.App/MainPage.xaml.cs:240-259 | close keeps the invariant |
| `Tabs.StepPreservesInvariant` | Owly.App/MainPage.xaml.cs:202-259 | every action keeps the invariant |
| `Tabs.RunPreservesInvariant` | Owly.App/MainPage.xaml.cs:245-246 | from the initial tabs, no sequence of add, select and close empties the list or selects two tabs |
| `Tabs.StepCounter` | Owly.App/MainPage.xaml.cs:202-219 | add increments the counter and the next identity; select and close change neither |
| `Tabs.RunNextId` | Owly.App/MainPage.xaml.cs:202-219 | from any state, a run moves the next identity on by one per add |
| `Tabs.RunCounter` | Owly.App/MainPage.xaml.cs:202-207 | along every run the counter is 1 incremented once per add, i.e. 1 plus the number of adds wrapped to 32 bits, and the next identity is 3 plus the number of adds |
| `Tabs.RunAddedTitles` | Owly.App/MainPage.xaml.cs:206 | after any run from the initial tabs, every added tab is titled from the counter value it was created with |
| `Tabs.AddedTitle` | Owly.App/MainPage.xaml.cs:206 | in a list whose added titles follow the counter, the tab added k-th (identity 2 + k) is titled "Tab {k}", counting from 1, while the counter has not wrapped |
| `Tabs.AddedTitlesDistinct` | Owly.App/MainPage.xaml.cs:206 | two added tabs in the list have different titles while fewer than 2^32 tabs have been added |
| `Tabs.ThreeAdds` | Owly.App/MainPage.xaml.cs:202-219 | three adds from the start give "Tab 1", "Tab 2", "Tab 3" after the deselected initial tabs, only the last one selected |
| `Tabs.CloseInitialFirst` | Owly.App/MainPage.xaml.cs:249-256 | closing the selected "Overview" tab at the start leaves "Details" and "Settings", neither selected |
| `Page.WithRowsKeys` | Owly.App/MainPage.xaml.cs:110-113 | creating rows for a list of tabs adds exactly their identities to the table's keys |
| `Page.WithRowsLookup` | Owly.App/MainPage.xaml.cs:110-113 | creating rows for distinct tabs adds exactly their rows, built from each tab, and keeps every other row |
| `Page.WithoutRowsLookup` | Owly.App/MainPage.xaml.cs:117-120 | removing rows takes exactly those tabs' keys out and keeps every other row |
| `Page.MatchedRowsShowClose` | Owly.App/MainPage.xaml.cs:261-271 | when rows match the list, every close button is shown exactly when more than one tab is left; each row shows its tab's title, in White/Black when selected and Transparent/Gray when not |
| `Page.RevisibleMatched` | Owly.App/MainPage.xaml.cs:261-271 | recomputing visibility on rows that already match changes nothing |
| `Page.RowsMatchSetFlag` | Owly.App/MainPage.xaml.cs:182-190 | recolouring the row of a tab whose flag changed keeps the rows matching the list |
| `Page.RowsMatchSetTitle` | Owly.App/MainPage.xaml.cs:191-198 | relabelling the row of a renamed tab keeps the rows matching the list |
| `Page.RowsMatchAppend` | Owly.App/MainPage.xaml.cs:219-222 | appending a fresh tab, creating its row and recomputing visibility gives rows matching the longer list |
| `Page.RowsMatchRemove` | Owly.App/MainPage.xaml.cs:256-257 | removing a tab with its row and recomputing visibility gives rows matching the shorter list |
| `Page.InitialConsistent` | Owly.App/MainPage.xaml.cs:74-104 | the three initial tabs, counter 1 and one row created per tab form a consistent page |
| `Page.SetFlagConsistent` | Owly.App/MainPage.xaml.cs:182-190 | changing one tab's flag and recolouring its row keeps the page consistent |
| `Page.SetTitleConsistent` | Owly.App/MainPage.xaml.cs:191-198 | renaming one tab and relabelling its row keeps the page consistent |
| `Page.AppendConsistent` | Owly.App/MainPage.xaml.cs:202-222 | appending a tab with the next identity, creating its row and recomputing visibility keeps the page consistent |
| `Page.CloseConsistent` | Owly.App/MainPage.xaml.cs:245-257 | closing one of several tabs with its row and recomputing visibility keeps the page consistent |
| `Page.MainPage.constructor` | Owly.App/MainPage.xaml.cs:74-104 | the page starts as the three initial tabs, the first selected, counter 1, with one matching row each |
| `Page.MainPage.CreateTabControl` | Owly.App/MainPage.xaml.cs:124-166 | enters the tab's row under its identity: title as text, colours from the flag, close button shown exactly when the list holds more than one tab |
| `Page.MainPage.RemoveTabControl` | Owly.App/MainPage.xaml.cs:168-176 | the tab's row, if any, leaves the table; nothing else changes |
| `Page.MainPage.OnTabsCollectionChanged` | Owly.App/MainPage.xaml.cs:106-122 | an Add notification creates a row for each new tab; a Remove notification removes each old tab's row; others do nothing |
| `Page.MainPage.OnTabPropertyChanged` | Owly.App/MainPage.xaml.cs:178-200 | a flag change recolours the tab's row, a title change relabels it, a content change or a tab without a row changes nothing |
| `Page.MainPage.SetSelected` | Owly.App/MainPage.xaml.cs:35-43 | only that tab's flag changes, and its row follows |
| `Page.MainPage.SetTitle` | Owly.App/MainPage.xaml.cs:15-23 | only that tab's title changes, and its row text follows |
| `Page.MainPage.SetContent` | Owly.App/MainPage.xaml.cs:25-33 | only that tab's content changes; no row changes |
| `Page.MainPage.UpdateCloseButtonVisibility` | Owly.App/MainPage.xaml.cs:261-271 | every row's close button becomes shown exactly when more than one tab is listed; nothing else in any row changes |
| `Page.MainPage.DeselectAll` | Owly.App/MainPage.xaml.cs:211-214 | the deselection loop leaves the list equal to `Deselect` of the old list, with the rows following |
| `Page.MainPage.AppendToList` | Owly.App/MainPage.xaml.cs:219 | the tab joins the end of the list and its row is created |
| `Page.MainPage.RemoveFromList` | Owly.App/MainPage.xaml.cs:256 | the tab leaves the list and its row leaves the table |
| `Page.MainPage.OnAddTabClicked` | Owly.App/MainPage.xaml.cs:202-223 | the new state is `AddSpec` of the old one, and the rows still match |
| `Page.MainPage.OnTabClicked` | Owly.App/MainPage.xaml.cs:225-238 | the new state is `SelectSpec` of the old one, and the rows still match |
| `Page.MainPage.OnTabCloseClicked` | Owly.App/MainPage.xaml.cs:240-259 | the new state is `CloseSpec` of the old one, and the rows still match |

## Left out

- Scrolling (`OnScrollLeftClicked`, `OnScrollRightClicked`, `UpdateArrowButtonStates`, `OnAppearing`, lines 273-342): floating-point offsets, asynchronous animated scrolls posted to the main thread, and swallowed exceptions.
- Widget construction: grids, buttons, padding, fonts, the close button's fixed "×" text and colours, and adding or removing children of the container. A row is reduced to its text, two colours and close-button visibility.
- Event subscription and unsubscription (`PropertyChanged`, `CollectionChanged`, `Clicked`): a notification is a direct call made where the source raises it.
- `ConvertBack` of the three converters: it always throws, so no inverse is modelled.
- `Page.MainPage.OnTabCloseClicked`: when given a tab that is no longer listed, the model changes nothing. The source would read that detached tab's own flag and could flag the first tab. A closed tab's button leaves the container with its row, so such a click cannot arrive.
- `Page.MainPage.OnTabClicked`: a click on a tab that is no longer listed sets that detached tab's own flag. The model keeps no state for detached tabs; it only deselects the listed ones.
- The body texts of the three initial tabs, and the fixed text around the number in a new tab's content, are abstract constants: no operation reads a tab's content, so no property depends on their wording.
- Culture-specific number formatting: titles render negative numbers with a leading '-', as the invariant culture does.
- `Tabs.AddedTitlesDistinct`: distinct titles are proved only while fewer than 2^32 tabs have been added in all. After that, the 32-bit counter repeats.
