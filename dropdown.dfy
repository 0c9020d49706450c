/**
 * The select-field controller `FilterableSelect` (make_filterable.js:72-326).
 * The popup's list is a sequence of items, each the text and hidden value of an
 * option plus whether it is shown; the `li.selected` marker is an optional index.
 * The first half of the module holds the functions that specify the controller,
 * the second half the class whose methods update its state in place.
 */
module Dropdown {
  import opened Wrappers
  import opened Matching
  import opened Keys
  import opened Debounce

  /** An `<option>` of the bound select field: its text and its `val()`. */
  datatype SelectOption = SelectOption(text: string, value: string)

  /** A rendered `<li>`: the option's text, the hidden input's value, shown or hidden. */
  datatype Item = Item(text: string, value: string, visible: bool)

  function ItemOf(o: SelectOption): Item {
    Item(o.text, o.value, true)
  }

  // ---------------------------------------------------------------------------
  // Populating the list
  // ---------------------------------------------------------------------------

  /** The items `populateDropdown` appends: one shown item per option whose trimmed
      value is not empty, in the options' order. */
  function Listed(options: seq<SelectOption>): (r: seq<Item>)
    ensures |r| <= |options|
    ensures forall k :: 0 <= k < |r| ==> r[k].visible && !Blank(r[k].value)
    ensures forall k :: 0 <= k < |r| ==> exists i :: 0 <= i < |options| && r[k] == ItemOf(options[i])
    ensures forall i :: 0 <= i < |options| && !Blank(options[i].value) ==> ItemOf(options[i]) in r
  {
    if options == [] then []
    else
      var init, o := options[..|options| - 1], options[|options| - 1];
      assert forall i :: 0 <= i < |init| ==> init[i] == options[i];
      Listed(init) + (if |Trim(o.value)| > 0 then [ItemOf(o)] else [])
  }

  /** The positions of the options whose trimmed value is not empty, ascending. */
  function KeptIndices(options: seq<SelectOption>): (idx: seq<nat>)
    ensures forall k :: 0 <= k < |idx| ==> idx[k] < |options|
    ensures forall k, l :: 0 <= k < l < |idx| ==> idx[k] < idx[l]
    ensures forall i :: 0 <= i < |options| ==> (i in idx <==> !Blank(options[i].value))
  {
    if options == [] then []
    else
      var n := |options| - 1;
      var init := options[..n];
      assert forall i :: 0 <= i < n ==> init[i] == options[i];
      KeptIndices(init) + (if |Trim(options[n].value)| > 0 then [n] else [])
  }

  /** `items` are the options at positions `idx`, one for one. */
  predicate PicksAt(items: seq<Item>, idx: seq<nat>, options: seq<SelectOption>) {
    |items| == |idx|
    && forall k :: 0 <= k < |idx| ==> idx[k] < |options| && items[k] == ItemOf(options[idx[k]])
  }

  /** Picking from a prefix of the options is picking from the options, and one
      more pick may be appended. */
  lemma PicksAtExtend(items: seq<Item>, idx: seq<nat>, options: seq<SelectOption>, n: nat, keep: bool)
    requires n < |options| && PicksAt(items, idx, options[..n])
    ensures PicksAt(items + (if keep then [ItemOf(options[n])] else []), idx + (if keep then [n] else []), options)
  {
    forall k | 0 <= k < |idx| ensures idx[k] < |options| && items[k] == ItemOf(options[idx[k]]) {
      assert options[..n][idx[k]] == options[idx[k]];
    }
  }

  /** `populateDropdown` lists exactly one item per option with a non-blank value,
      in the options' order: the k-th item is the option at the k-th kept position. */
  lemma {:induction false} ListedSelectsInOrder(options: seq<SelectOption>)
    ensures PicksAt(Listed(options), KeptIndices(options), options)
  {
    if options != [] {
      var n := |options| - 1;
      ListedSelectsInOrder(options[..n]);
      var keep := |Trim(options[n].value)| > 0;
      PicksAtExtend(Listed(options[..n]), KeptIndices(options[..n]), options, n, keep);
    }
  }

  /** Listing keeps the options' order: the list of a concatenation is the
      concatenation of the lists. */
  lemma {:induction false} ListedAppend(a: seq<SelectOption>, b: seq<SelectOption>)
    ensures Listed(a + b) == Listed(a) + Listed(b)
    decreases |b|
  {
    if b == [] {
      assert a + b == a;
    } else {
      var b', o := b[..|b| - 1], b[|b| - 1];
      var tail := if |Trim(o.value)| > 0 then [ItemOf(o)] else [];
      assert (a + b)[..|a + b| - 1] == a + b';
      assert (a + b)[|a + b| - 1] == o;
      calc {
        Listed(a + b);
        Listed(a + b') + tail;
        { ListedAppend(a, b'); }
        (Listed(a) + Listed(b')) + tail;
        Listed(a) + (Listed(b') + tail);
        Listed(a) + Listed(b);
      }
    }
  }

  /** Listing one more option appends at most that option's item. */
  lemma ListedExtend(options: seq<SelectOption>, i: nat)
    requires i < |options|
    ensures Listed(options[..i + 1])
         == Listed(options[..i]) + (if |Trim(options[i].value)| > 0 then [ItemOf(options[i])] else [])
  {
    assert options[..i + 1][..i] == options[..i];
  }

  /** Options with blank values are skipped; the others appear as they are. */
  lemma ListedExample()
    ensures Listed([SelectOption("Pick one", " "), SelectOption("Red", "r"), SelectOption("Blue", "b")])
         == [Item("Red", "r", true), Item("Blue", "b", true)]
  {
    assert IsWhitespace(' ') && !IsWhitespace('r') && !IsWhitespace('b');
    var os := [SelectOption("Pick one", " "), SelectOption("Red", "r"), SelectOption("Blue", "b")];
    assert os[..2] == [SelectOption("Pick one", " "), SelectOption("Red", "r")];
    assert os[..2][..1] == [SelectOption("Pick one", " ")];
    assert os[..2][..1][..0] == [];
  }

  // ---------------------------------------------------------------------------
  // Cursor movement
  // ---------------------------------------------------------------------------

  /** `find('li:visible').first()`. */
  function FirstVisible(items: seq<Item>): (r: Option<nat>)
    ensures r.Some? <==> exists i :: 0 <= i < |items| && items[i].visible
    ensures r.Some? ==> (r.value < |items| && items[r.value].visible
                         && forall j :: 0 <= j < r.value ==> !items[j].visible)
  {
    if items == [] then None
    else if items[0].visible then Some(0)
    else
      match FirstVisible(items[1..])
      case Some(j) => Some(j + 1)
      case None => None
  }

  /** `find('li:visible').last()`. */
  function LastVisible(items: seq<Item>): (r: Option<nat>)
    ensures r.Some? <==> exists i :: 0 <= i < |items| && items[i].visible
    ensures r.Some? ==> (r.value < |items| && items[r.value].visible
                         && forall j :: r.value < j < |items| ==> !items[j].visible)
  {
    if items == [] then None
    else if items[|items| - 1].visible then Some(|items| - 1)
    else LastVisible(items[..|items| - 1])
  }

  /** `selected.next(':visible')`: the immediately following sibling, if it is shown. */
  function NextSibling(items: seq<Item>, sel: Option<nat>): (r: Option<nat>)
    ensures r.Some? ==> sel.Some? && r.value == sel.value + 1 && r.value < |items| && items[r.value].visible
    ensures r.None? && sel.Some? && sel.value + 1 < |items| ==> !items[sel.value + 1].visible
  {
    if sel.Some? && sel.value + 1 < |items| && items[sel.value + 1].visible then Some(sel.value + 1) else None
  }

  /** `selected.prev(':visible')`: the immediately preceding sibling, if it is shown. */
  function PrevSibling(items: seq<Item>, sel: Option<nat>): (r: Option<nat>)
    ensures r.Some? ==> sel.Some? && r.value + 1 == sel.value && r.value < |items| && items[r.value].visible
    ensures r.None? && sel.Some? && 0 < sel.value <= |items| ==> !items[sel.value - 1].visible
  {
    if sel.Some? && 0 < sel.value <= |items| && items[sel.value - 1].visible then Some(sel.value - 1) else None
  }

  /** The cursor after Down: the adjacent next item if it is shown, otherwise the
      first shown item; nothing only when no item is shown. */
  function Down(items: seq<Item>, sel: Option<nat>): (r: Option<nat>)
    ensures r.Some? ==> r.value < |items| && items[r.value].visible
    ensures r.None? <==> forall i :: 0 <= i < |items| ==> !items[i].visible
  {
    if sel.None? || NextSibling(items, sel).None? then FirstVisible(items) else NextSibling(items, sel)
  }

  /** The cursor after Up: the adjacent previous item if it is shown, otherwise the
      last shown item; nothing only when no item is shown. */
  function Up(items: seq<Item>, sel: Option<nat>): (r: Option<nat>)
    ensures r.Some? ==> r.value < |items| && items[r.value].visible
    ensures r.None? <==> forall i :: 0 <= i < |items| ==> !items[i].visible
  {
    if sel.None? || PrevSibling(items, sel).None? then LastVisible(items) else PrevSibling(items, sel)
  }

  /** Down from no selection, and Down from the last shown item, land on the first
      shown item. */
  lemma DownWraps(items: seq<Item>, i: nat)
    requires i < |items| && items[i].visible
    requires forall j :: i < j < |items| ==> !items[j].visible
    ensures Down(items, Some(i)) == Down(items, None) == FirstVisible(items)
    ensures FirstVisible(items).Some?
  {
  }

  /** Up from no selection, and Up from the first shown item, land on the last
      shown item. */
  lemma UpWraps(items: seq<Item>, i: nat)
    requires i < |items| && items[i].visible
    requires forall j :: 0 <= j < i ==> !items[j].visible
    ensures Up(items, Some(i)) == Up(items, None) == LastVisible(items)
    ensures LastVisible(items).Some?
  {
  }

  /** The shown items form one block, as they do after an empty query. */
  predicate ShownContiguous(items: seq<Item>) {
    forall a, b, c :: 0 <= a < b < c < |items| && items[a].visible && items[c].visible ==> items[b].visible
  }

  /** When the shown items form one block, Up undoes Down. */
  lemma UpUndoesDown(items: seq<Item>, i: nat)
    requires ShownContiguous(items)
    requires i < |items| && items[i].visible
    ensures Up(items, Down(items, Some(i))) == Some(i)
  {
    if NextSibling(items, Some(i)).None? {
      var f, l := FirstVisible(items).value, LastVisible(items).value;
      assert l == i;
      assert PrevSibling(items, Some(f)).None?;
    }
  }

  /** When the shown items form one block, Down undoes Up. */
  lemma DownUndoesUp(items: seq<Item>, i: nat)
    requires ShownContiguous(items)
    requires i < |items| && items[i].visible
    ensures Down(items, Up(items, Some(i))) == Some(i)
  {
    if PrevSibling(items, Some(i)).None? {
      var f, l := FirstVisible(items).value, LastVisible(items).value;
      assert f == i;
      assert NextSibling(items, Some(l)).None?;
    }
  }

  /** Down looks only at the adjacent sibling: with a hidden item between two shown
      ones, Down from the first goes back to the first, so the second shown item is
      never reached by Down, and Up no longer undoes Down. */
  lemma DownStopsAtHiddenSibling(a: Item, h: Item, b: Item)
    requires a.visible && !h.visible && b.visible
    ensures Down([a, h, b], None) == Some(0)
    ensures Down([a, h, b], Some(0)) == Some(0)
    ensures Up([a, h, b], Down([a, h, b], Some(0))) == Some(2)
  {
  }

  // ---------------------------------------------------------------------------
  // A filter pass
  // ---------------------------------------------------------------------------

  /** An item as a pass leaves it: shown when the trimmed query is empty or matches. */
  function Reveal(item: Item, query: string): Item {
    item.(visible := Blank(query) || Matches(query, item.text))
  }

  /** Every item as the pass leaves it. */
  function Refiltered(items: seq<Item>, query: string): (r: seq<Item>)
    ensures |r| == |items|
    ensures forall i :: 0 <= i < |items| ==> r[i] == Reveal(items[i], query)
  {
    if items == [] then [] else [Reveal(items[0], query)] + Refiltered(items[1..], query)
  }

  /** What `filterResults` leaves: the items, the cursor and the no-match message. */
  datatype PassResult = PassResult(items: seq<Item>, selected: Option<nat>, noMatch: bool)

  /** One pass of `filterResults`: an empty trimmed query shows every item and
      selects nothing; otherwise exactly the matching items are shown, the first of
      them is selected, and the no-match message is shown when there is none. */
  function FilterPass(items: seq<Item>, query: string): (r: PassResult)
    ensures |r.items| == |items|
    ensures forall i :: 0 <= i < |items| ==>
      r.items[i].text == items[i].text && r.items[i].value == items[i].value
    ensures Blank(query) ==> (r.selected.None? && !r.noMatch
                              && forall i :: 0 <= i < |items| ==> r.items[i].visible)
    ensures !Blank(query) ==>
      forall i :: 0 <= i < |items| ==> (r.items[i].visible <==> Matches(query, items[i].text))
    ensures r.selected.Some? <==> !Blank(query) && exists i :: 0 <= i < |items| && Matches(query, items[i].text)
    ensures r.selected.Some? ==> (r.selected.value < |items| && r.items[r.selected.value].visible
                                  && Matches(query, items[r.selected.value].text)
                                  && forall j :: 0 <= j < r.selected.value ==> !Matches(query, items[j].text))
    ensures r.noMatch <==> !Blank(query) && forall i :: 0 <= i < |items| ==> !Matches(query, items[i].text)
  {
    var shown := Refiltered(items, query);
    if Blank(query) then PassResult(shown, None, false)
    else
      var first := FirstVisible(shown);
      assert forall i :: 0 <= i < |items| ==> (shown[i].visible <==> Matches(query, items[i].text));
      PassResult(shown, first, first.None?)
  }

  /** A pass does not depend on what the previous pass showed: running it again
      with the same query changes nothing. */
  lemma FilterPassIdempotent(items: seq<Item>, query: string)
    ensures FilterPass(FilterPass(items, query).items, query) == FilterPass(items, query)
  {
    var once := FilterPass(items, query);
    var twice := FilterPass(once.items, query);
    assert twice.items == once.items;
  }

  /** The example list of five fruit. */
  function Fruit(): seq<Item> {
    [Item("Apple", "1", true), Item("Banana", "2", true), Item("Cherry", "3", true),
     Item("Date", "4", true), Item("Elderberry", "5", true)]
  }

  /** Of the five fruit, exactly Apple, Banana and Date contain an "a" in either case. */
  lemma FruitMatchingA(query: string)
    requires query == "a"
    ensures var f := Fruit();
      Matches(query, f[0].text) && Matches(query, f[1].text) && !Matches(query, f[2].text)
      && Matches(query, f[3].text) && !Matches(query, f[4].text)
  {
    var f := Fruit();
    TrimOfTrimmed(query);
    MatchesSingleChar(query, f[0].text);
    assert Fold(f[0].text[0]) == Fold('a');
    MatchesSingleChar(query, f[1].text);
    assert Fold(f[1].text[1]) == Fold('a');
    MatchesSingleChar(query, f[2].text);
    MatchesSingleChar(query, f[3].text);
    assert Fold(f[3].text[1]) == Fold('a');
    MatchesSingleChar(query, f[4].text);
  }

  /** Query "a" shows Apple, Banana and Date and selects Apple. */
  lemma FruitQueryA(query: string)
    requires query == "a"
    ensures var p := FilterPass(Fruit(), query);
      [p.items[0].visible, p.items[1].visible, p.items[2].visible, p.items[3].visible, p.items[4].visible]
        == [true, true, false, true, false]
      && p.selected == Some(0) && !p.noMatch
  {
    FruitMatchingA(query);
    assert !Blank(query) by { assert !IsWhitespace(query[0]); }
  }

  /** Query "xyz" shows nothing, selects nothing and shows the no-match message. */
  lemma FruitQueryXyz(query: string)
    requires query == "xyz"
    ensures var p := FilterPass(Fruit(), query);
      (forall i :: 0 <= i < 5 ==> !p.items[i].visible) && p.selected.None? && p.noMatch
  {
    var f := Fruit();
    TrimOfTrimmed(query);
    forall i | 0 <= i < 5 ensures !Matches(query, f[i].text) {
      FirstCharAbsent(query, f[i].text);
    }
  }

  // ---------------------------------------------------------------------------
  // Scrolling
  // ---------------------------------------------------------------------------

  /**
   * The new `scrollTop` of the list for a selected item. `scrollOffset` is the
   * current scrollTop, `listTop` the list's page offset, `listHeight` its height;
   * `itemOffsetTop` and `itemHeight` place the item on the page. In the list's
   * content coordinates the item spans [itemTop, itemTop + itemHeight] and the
   * visible window [scrollOffset, scrollOffset + listHeight].
   */
  function ScrollTarget(scrollOffset: int, listTop: int, listHeight: int, itemOffsetTop: int, itemHeight: int): (r: int)
    ensures var itemTop := itemOffsetTop - listTop + scrollOffset;
      // an item below the window is brought up so that its bottom is the window's bottom
      (itemTop + itemHeight > scrollOffset + listHeight ==> r + listHeight == itemTop + itemHeight)
      // an item above the window is brought down so that its top is the window's top
      && (itemTop + itemHeight <= scrollOffset + listHeight && itemTop < scrollOffset ==> r == itemTop)
      // an item already inside the window does not scroll the list
      && (scrollOffset <= itemTop && itemTop + itemHeight <= scrollOffset + listHeight ==> r == scrollOffset)
      // an item no taller than the list is wholly inside the window afterwards
      && (0 <= itemHeight <= listHeight ==> r <= itemTop && itemTop + itemHeight <= r + listHeight)
  {
    var listBottom := listHeight + scrollOffset;
    var itemTop := itemOffsetTop - listTop + scrollOffset;
    var itemBottom := itemTop + itemHeight;
    if itemBottom > listBottom then itemBottom - listBottom + scrollOffset
    else if itemTop < scrollOffset then itemTop
    else scrollOffset
  }

  /** Scrolling settles: once the list has scrolled to an item no taller than the
      list, the item's page offset moves by the scrolled distance and a second call
      leaves scrollTop where it is. */
  lemma ScrollSettles(scrollOffset: int, listTop: int, listHeight: int, itemOffsetTop: int, itemHeight: int)
    requires 0 <= itemHeight <= listHeight
    ensures var r := ScrollTarget(scrollOffset, listTop, listHeight, itemOffsetTop, itemHeight);
      ScrollTarget(r, listTop, listHeight, itemOffsetTop - (r - scrollOffset), itemHeight) == r
  {
  }

  /** What the browser reports about the list and its items when asked. */
  datatype Layout = Layout(listOffsetTop: int, listHeight: int, itemOffsetTop: nat -> int, itemHeight: nat -> int)

  /** `scrollToSelectedResult`: scroll to the selected item, if there is one. */
  function ScrolledTo(layout: Layout, sel: Option<nat>, scrollOffset: int): (r: int)
    ensures sel.None? ==> r == scrollOffset
    ensures sel.Some? && 0 <= layout.itemHeight(sel.value) <= layout.listHeight ==>
      var itemTop := layout.itemOffsetTop(sel.value) - layout.listOffsetTop + scrollOffset;
      r <= itemTop && itemTop + layout.itemHeight(sel.value) <= r + layout.listHeight
  {
    match sel
    case None => scrollOffset
    case Some(i) =>
      ScrollTarget(scrollOffset, layout.listOffsetTop, layout.listHeight, layout.itemOffsetTop(i), layout.itemHeight(i))
  }

  // ---------------------------------------------------------------------------
  // The controller
  // ---------------------------------------------------------------------------

  /**
   * One `FilterableSelect`: the bound field (its options, value and the change
   * notifications it has received), the popup (open or not, its items, the
   * selected item, the search text, the no-match message, the list's scrollTop)
   * and the debounce timer of the search field.
   */
  class FilterableSelect {
    var options: seq<SelectOption>
    var fieldValue: string
    var changeEvents: nat
    var open: bool
    var items: seq<Item>
    var selected: Option<nat>
    var searchText: string
    var noMatchShown: bool
    var scrollTop: int
    var filterTimer: Option<nat>
    var pendingFilters: set<nat>
    var nextTimerId: nat
    const hasAfterFilter: bool
    var afterFilterRuns: nat

    /** The selected item is a shown item of the list, a closed popup has no items,
        and at most the latest scheduled filter pass is pending. */
    ghost predicate Valid()
      reads this
    {
      (selected.Some? ==> selected.value < |items| && items[selected.value].visible)
      && (!open ==> items == [])
      && OnlyLatestPending(filterTimer, pendingFilters, nextTimerId)
    }

    /** A closed popup over the field, with an empty search field. */
    constructor (options: seq<SelectOption>, fieldValue: string, hasAfterFilter: bool)
      ensures Valid()
      ensures this.options == options && this.fieldValue == fieldValue && this.hasAfterFilter == hasAfterFilter
      ensures !open && items == [] && selected.None? && searchText == [] && !noMatchShown
      ensures filterTimer.None? && pendingFilters == {} && changeEvents == 0 && afterFilterRuns == 0
    {
      this.options := options;
      this.fieldValue := fieldValue;
      this.hasAfterFilter := hasAfterFilter;
      changeEvents := 0;
      open := false;
      items := [];
      selected := None;
      searchText := [];
      noMatchShown := false;
      scrollTop := 0;
      filterTimer := None;
      pendingFilters := {};
      nextTimerId := 0;
      afterFilterRuns := 0;
    }

    /** The user edits the text of the search field. */
    method EditSearch(text: string)
      modifies this`searchText
      ensures searchText == text
    {
      searchText := text;
    }

    /** `toggleDropdown`: both directions hide the no-match message and clear the
        search text; closing removes every item, opening lists the field's options. */
    method ToggleDropdown()
      requires Valid()
      modifies this`open, this`items, this`selected, this`searchText, this`noMatchShown
      ensures Valid()
      ensures open == !old(open)
      ensures items == (if old(open) then [] else Listed(options))
      ensures selected.None? && searchText == [] && !noMatchShown
    {
      noMatchShown := false;
      searchText := [];
      if open {
        open := false;
        items := [];
        selected := None;
      } else {
        PopulateDropdown();
        open := true;
      }
    }

    /** `populateDropdown`: append an item for every option whose trimmed value is
        not empty, in order. */
    method PopulateDropdown()
      modifies this`items
      ensures items == old(items) + Listed(options)
    {
      var i := 0;
      while i < |options|
        invariant 0 <= i <= |options|
        invariant items == old(items) + Listed(options[..i])
      {
        var o := options[i];
        ListedExtend(options, i);
        if |Trim(o.value)| > 0 {
          items := items + [Item(o.text, o.value, true)];
        }
        i := i + 1;
      }
      assert options[..i] == options;
    }

    /** `filterDropdown`: Escape toggles the popup, navigation and modifier keys do
        nothing, any other key cancels the pending filter pass and schedules a new one. */
    method FilterDropdown(key: int)
      requires Valid()
      modifies this`open, this`items, this`selected, this`searchText, this`noMatchShown
      modifies this`filterTimer, this`pendingFilters, this`nextTimerId
      ensures Valid()
      ensures DropdownKeyAction(key) == Toggle ==>
        open == !old(open) && items == (if old(open) then [] else Listed(options))
        && selected.None? && searchText == [] && !noMatchShown
      ensures DropdownKeyAction(key) != Toggle ==>
        open == old(open) && items == old(items) && selected == old(selected)
        && searchText == old(searchText) && noMatchShown == old(noMatchShown)
      ensures DropdownKeyAction(key) == Reschedule ==>
        filterTimer == Some(old(nextTimerId)) && pendingFilters == {old(nextTimerId)}
        && old(nextTimerId) !in old(pendingFilters) && nextTimerId == old(nextTimerId) + 1
      ensures DropdownKeyAction(key) != Reschedule ==>
        filterTimer == old(filterTimer) && pendingFilters == old(pendingFilters) && nextTimerId == old(nextTimerId)
    {
      match DropdownKeyAction(key)
      case Toggle =>
        ToggleDropdown();
      case Ignore =>
      case Reschedule =>
        if filterTimer.Some? {
          pendingFilters := pendingFilters - {filterTimer.value};
        }
        filterTimer := Some(nextTimerId);
        pendingFilters := pendingFilters + {nextTimerId};
        nextTimerId := nextTimerId + 1;
    }

    /** The event loop runs the pending filter pass. */
    method FilterTimerFired(id: nat)
      requires Valid() && id in pendingFilters
      modifies this`pendingFilters, this`items, this`selected, this`noMatchShown, this`afterFilterRuns
      ensures Valid()
      ensures pendingFilters == {}
      ensures var pass := FilterPass(old(items), searchText);
        items == pass.items && selected == pass.selected && noMatchShown == pass.noMatch
      ensures afterFilterRuns == old(afterFilterRuns) + (if hasAfterFilter then 1 else 0)
    {
      AtMostOnePending(filterTimer, pendingFilters, nextTimerId);
      assert pendingFilters == {id};
      pendingFilters := pendingFilters - {id};
      FilterResults();
    }

    /** `filterResults`: clear the selection and the no-match message, then show
        every item (blank query) or exactly the matching ones, selecting the first;
        then run the afterFilter callback if there is one. */
    method FilterResults()
      requires Valid()
      modifies this`items, this`selected, this`noMatchShown, this`afterFilterRuns
      ensures Valid()
      ensures var pass := FilterPass(old(items), searchText);
        items == pass.items && selected == pass.selected && noMatchShown == pass.noMatch
      ensures afterFilterRuns == old(afterFilterRuns) + (if hasAfterFilter then 1 else 0)
    {
      ghost var before := items;
      selected := None;
      noMatchShown := false;
      var query := Trim(searchText);
      if |query| == 0 {
        var current := items;
        items := seq(|current|, i requires 0 <= i < |current| => current[i].(visible := true));
        assert items == Refiltered(before, searchText);
      } else {
        var found := ShowMatching();
        if found {
          SelectFirstItem();
        } else {
          noMatchShown := true;
        }
      }
      if hasAfterFilter {
        afterFilterRuns := afterFilterRuns + 1;
      }
    }

    /** The `each` loop of `filterResults` for a non-blank query: show every item
        whose text matches, hide the others, and report whether any matched. */
    method ShowMatching() returns (found: bool)
      requires !Blank(searchText)
      modifies this`items
      ensures items == Refiltered(old(items), searchText)
      ensures found <==> exists j :: 0 <= j < |items| && Matches(searchText, old(items)[j].text)
      ensures found <==> FirstVisible(items).Some?
    {
      ghost var before := items;
      var matches := 0;
      var i := 0;
      while i < |items|
        invariant 0 <= i <= |items| == |before|
        invariant forall j :: 0 <= j < i ==> items[j] == Reveal(before[j], searchText)
        invariant forall j :: i <= j < |items| ==> items[j] == before[j]
        invariant matches > 0 <==> exists j :: 0 <= j < i && Matches(searchText, before[j].text)
      {
        if Matches(searchText, items[i].text) {
          items := items[i := items[i].(visible := true)];
          matches := matches + 1;
        } else {
          items := items[i := items[i].(visible := false)];
        }
        i := i + 1;
      }
      found := matches > 0;
      assert items == Refiltered(before, searchText);
    }

    /** `applySelection`: with an item selected, write its value to the field, fire
        change and close the popup; with none, do nothing. */
    method ApplySelection()
      requires Valid()
      modifies this`fieldValue, this`changeEvents
      modifies this`open, this`items, this`selected, this`searchText, this`noMatchShown
      ensures Valid()
      ensures old(selected).None? ==>
        fieldValue == old(fieldValue) && changeEvents == old(changeEvents) && open == old(open)
        && items == old(items) && selected.None? && searchText == old(searchText) && noMatchShown == old(noMatchShown)
      ensures old(selected).Some? ==>
        fieldValue == old(items[selected.value].value) && changeEvents == old(changeEvents) + 1
        && !open && items == [] && selected.None? && searchText == [] && !noMatchShown
    {
      if selected.Some? {
        fieldValue := items[selected.value].value;
        changeEvents := changeEvents + 1;
        ToggleDropdown();
      }
    }

    /** `selectItem`: the given item, or none, becomes the only selected one. */
    method SelectItem(target: Option<nat>)
      requires target.Some? ==> target.value < |items|
      modifies this`selected
      ensures selected == target
    {
      selected := target;
    }

    /** `selectFirstItem`. */
    method SelectFirstItem()
      modifies this`selected
      ensures selected == FirstVisible(items)
    {
      SelectItem(FirstVisible(items));
    }

    /** `selectLastItem`. */
    method SelectLastItem()
      modifies this`selected
      ensures selected == LastVisible(items)
    {
      SelectItem(LastVisible(items));
    }

    /** `selectNextItem`: the adjacent next item if shown, otherwise none. */
    method SelectNextItem()
      modifies this`selected
      ensures selected == NextSibling(items, old(selected))
    {
      SelectItem(NextSibling(items, selected));
    }

    /** `selectPreviousItem`: the adjacent previous item if shown, otherwise none. */
    method SelectPreviousItem()
      modifies this`selected
      ensures selected == PrevSibling(items, old(selected))
    {
      SelectItem(PrevSibling(items, selected));
    }

    /** `navigateDropdown`: Enter applies the selection; Up and Down move the
        selection and scroll it into view; other keys do nothing. */
    method NavigateDropdown(key: int, layout: Layout)
      requires Valid()
      modifies this`fieldValue, this`changeEvents, this`scrollTop
      modifies this`open, this`items, this`selected, this`searchText, this`noMatchShown
      ensures Valid()
      ensures key == Enter ==> scrollTop == old(scrollTop)
      ensures key == Enter && old(selected).None? ==>
        fieldValue == old(fieldValue) && changeEvents == old(changeEvents) && open == old(open)
        && items == old(items) && selected.None? && searchText == old(searchText) && noMatchShown == old(noMatchShown)
      ensures key == Enter && old(selected).Some? ==>
        fieldValue == old(items[selected.value].value) && changeEvents == old(changeEvents) + 1
        && !open && items == [] && selected.None? && searchText == [] && !noMatchShown
      ensures key != Enter ==>
        fieldValue == old(fieldValue) && changeEvents == old(changeEvents) && open == old(open)
        && items == old(items) && searchText == old(searchText) && noMatchShown == old(noMatchShown)
      ensures key == ArrowUp ==>
        selected == Up(items, old(selected)) && scrollTop == ScrolledTo(layout, selected, old(scrollTop))
      ensures key == ArrowDown ==>
        selected == Down(items, old(selected)) && scrollTop == ScrolledTo(layout, selected, old(scrollTop))
      ensures key != Enter && key != ArrowUp && key != ArrowDown ==>
        selected == old(selected) && scrollTop == old(scrollTop)
    {
      if key == Enter {
        ApplySelection();
      } else if key == ArrowUp {
        if selected.None? || PrevSibling(items, selected).None? {
          SelectLastItem();
        } else {
          SelectPreviousItem();
        }
        ScrollToSelectedResult(layout);
      } else if key == ArrowDown {
        if selected.None? || NextSibling(items, selected).None? {
          SelectFirstItem();
        } else {
          SelectNextItem();
        }
        ScrollToSelectedResult(layout);
      }
    }

    /** `scrollToSelectedResult`: scroll the list so the selected item is in view. */
    method ScrollToSelectedResult(layout: Layout)
      modifies this`scrollTop
      ensures scrollTop == ScrolledTo(layout, selected, old(scrollTop))
    {
      if selected.Some? {
        var i := selected.value;
        scrollTop := ScrollTarget(scrollTop, layout.listOffsetTop, layout.listHeight,
                                  layout.itemOffsetTop(i), layout.itemHeight(i));
      }
    }

    /** `itemClicked`: select the clicked item and apply it. A hidden item cannot
        be clicked. */
    method ItemClicked(i: nat)
      requires Valid() && i < |items| && items[i].visible
      modifies this`fieldValue, this`changeEvents
      modifies this`open, this`items, this`selected, this`searchText, this`noMatchShown
      ensures Valid()
      ensures fieldValue == old(items[i].value) && changeEvents == old(changeEvents) + 1
      ensures !open && items == [] && selected.None? && searchText == [] && !noMatchShown
    {
      SelectItem(Some(i));
      ApplySelection();
    }

    /** `documentClicked`: while the popup is open its document listener closes it
        on any click outside it. */
    method DocumentClicked(insidePopup: bool)
      requires Valid()
      modifies this`open, this`items, this`selected, this`searchText, this`noMatchShown
      ensures Valid()
      ensures old(open) && !insidePopup ==>
        !open && items == [] && selected.None? && searchText == [] && !noMatchShown
      ensures !(old(open) && !insidePopup) ==>
        open == old(open) && items == old(items) && selected == old(selected)
        && searchText == old(searchText) && noMatchShown == old(noMatchShown)
    {
      if open && !insidePopup {
        ToggleDropdown();
      }
    }
  }
}
