/**
 * The table controller `FilterableTable` (make_filterable.js:328-384). The body
 * rows of the table are a sequence of rows; each row is a sequence of cells, each
 * cell carrying its text and whether the controller's `valueSelector` picks it.
 */
module Table {
  import opened Wrappers
  import opened Matching
  import opened Keys
  import opened Debounce

  /** A cell of a body row: its text and whether `valueSelector` selects it. */
  datatype Cell = Cell(text: string, inSelector: bool)

  /** A body row (`tbody tr`): its cells and whether it is shown. */
  datatype Row = Row(cells: seq<Cell>, visible: bool)

  /** Some selected cell of the row matches the query. */
  function RowMatches(query: string, row: Row): (r: bool)
    ensures r ==> exists c :: 0 <= c < |row.cells| && row.cells[c].inSelector
    ensures Blank(query) ==> (r <==> exists c :: 0 <= c < |row.cells| && row.cells[c].inSelector)
  {
    exists c :: 0 <= c < |row.cells| && row.cells[c].inSelector && Matches(query, row.cells[c].text)
  }

  /** The rows as one filter pass leaves them: all shown for a blank query,
      otherwise shown exactly when a selected cell matches. */
  function TablePass(rows: seq<Row>, query: string): (r: seq<Row>)
    ensures |r| == |rows|
    ensures forall i :: 0 <= i < |rows| ==> r[i].cells == rows[i].cells
    ensures Blank(query) ==> forall i :: 0 <= i < |rows| ==> r[i].visible
    ensures !Blank(query) ==> forall i :: 0 <= i < |rows| ==> (r[i].visible <==> RowMatches(query, rows[i]))
  {
    seq(|rows|, i requires 0 <= i < |rows| => rows[i].(visible := Blank(query) || RowMatches(query, rows[i])))
  }

  /** A pass does not depend on which rows were shown before it. */
  lemma TablePassIdempotent(rows: seq<Row>, query: string)
    ensures TablePass(TablePass(rows, query), query) == TablePass(rows, query)
  {
    var once := TablePass(rows, query);
    var twice := TablePass(once, query);
    forall i | 0 <= i < |rows| ensures twice[i] == once[i] {
      assert RowMatches(query, once[i]) == RowMatches(query, rows[i]);
    }
  }

  /** Text in cells outside the selector never decides a row: two rows that agree
      on which cells are selected and on the selected cells' text are shown alike. */
  lemma ExcludedCellsIgnored(query: string, row: Row, row': Row)
    requires |row.cells| == |row'.cells|
    requires forall c :: 0 <= c < |row.cells| ==> row.cells[c].inSelector == row'.cells[c].inSelector
    requires forall c :: 0 <= c < |row.cells| && row.cells[c].inSelector ==> row.cells[c].text == row'.cells[c].text
    ensures TablePass([row], query)[0].visible == TablePass([row'], query)[0].visible
  {
    if RowMatches(query, row) {
      var c :| 0 <= c < |row.cells| && row.cells[c].inSelector && Matches(query, row.cells[c].text);
      assert row'.cells[c].inSelector && Matches(query, row'.cells[c].text);
    }
    if RowMatches(query, row') {
      var c :| 0 <= c < |row'.cells| && row'.cells[c].inSelector && Matches(query, row'.cells[c].text);
      assert row.cells[c].inSelector && Matches(query, row.cells[c].text);
    }
  }

  /** A row whose only match is in a cell outside the selector is hidden. */
  lemma MatchOutsideSelectorHides(query: string, row: Row, c: nat)
    requires !Blank(query)
    requires c < |row.cells| && !row.cells[c].inSelector && Matches(query, row.cells[c].text)
    requires forall k :: 0 <= k < |row.cells| && row.cells[k].inSelector ==> !Matches(query, row.cells[k].text)
    ensures !TablePass([row], query)[0].visible
  {
  }

  /** The default selector `td` picks every cell: a row is then shown exactly when
      one of its cells matches. */
  lemma DefaultSelectorUsesEveryCell(query: string, rows: seq<Row>, i: nat)
    requires !Blank(query) && i < |rows|
    requires forall c :: 0 <= c < |rows[i].cells| ==> rows[i].cells[c].inSelector
    ensures TablePass(rows, query)[i].visible
        <==> exists c :: 0 <= c < |rows[i].cells| && Matches(query, rows[i].cells[c].text)
  {
  }

  /** One `FilterableTable`: the table's body rows, the search field's text, the
      debounce timer and the afterFilter callback. */
  class FilterableTable {
    var rows: seq<Row>
    var searchText: string
    var filterTimer: Option<nat>
    var pendingFilters: set<nat>
    var nextTimerId: nat
    const hasAfterFilter: bool
    var afterFilterRuns: nat

    /** At most the latest scheduled filter pass is pending. */
    ghost predicate Valid()
      reads this
    {
      OnlyLatestPending(filterTimer, pendingFilters, nextTimerId)
    }

    /** The controller over a table, listening to a search field holding `searchText`. */
    constructor (rows: seq<Row>, searchText: string, hasAfterFilter: bool)
      ensures Valid()
      ensures this.rows == rows && this.searchText == searchText && this.hasAfterFilter == hasAfterFilter
      ensures filterTimer.None? && pendingFilters == {} && afterFilterRuns == 0
    {
      this.rows := rows;
      this.searchText := searchText;
      this.hasAfterFilter := hasAfterFilter;
      filterTimer := None;
      pendingFilters := {};
      nextTimerId := 0;
      afterFilterRuns := 0;
    }

    /** The user edits the text of the search field. */
    method EditSearch(text: string)
      modifies this`searchText
      ensures searchText == text
    {
      searchText := text;
    }

    /** `filterTable`: navigation and modifier keys and Escape do nothing, any other
        key cancels the pending filter pass and schedules a new one. */
    method FilterTable(key: int)
      requires Valid()
      modifies this`filterTimer, this`pendingFilters, this`nextTimerId
      ensures Valid()
      ensures TableKeyAction(key) == Reschedule ==>
        filterTimer == Some(old(nextTimerId)) && pendingFilters == {old(nextTimerId)}
        && old(nextTimerId) !in old(pendingFilters) && nextTimerId == old(nextTimerId) + 1
      ensures TableKeyAction(key) == Ignore ==>
        filterTimer == old(filterTimer) && pendingFilters == old(pendingFilters) && nextTimerId == old(nextTimerId)
    {
      if TableKeyAction(key) == Reschedule {
        if filterTimer.Some? {
          pendingFilters := pendingFilters - {filterTimer.value};
        }
        filterTimer := Some(nextTimerId);
        pendingFilters := pendingFilters + {nextTimerId};
        nextTimerId := nextTimerId + 1;
      }
    }

    /** The event loop runs the pending filter pass. */
    method FilterTimerFired(id: nat)
      requires Valid() && id in pendingFilters
      modifies this`pendingFilters, this`rows, this`afterFilterRuns
      ensures Valid()
      ensures pendingFilters == {}
      ensures rows == TablePass(old(rows), searchText)
      ensures afterFilterRuns == old(afterFilterRuns) + (if hasAfterFilter then 1 else 0)
    {
      AtMostOnePending(filterTimer, pendingFilters, nextTimerId);
      assert pendingFilters == {id};
      pendingFilters := pendingFilters - {id};
      FilterResults();
    }

    /** `filterResults`: show every row for a blank query; otherwise hide each row
        and show it again when one of its selected cells matches; then run the
        afterFilter callback if there is one. */
    method FilterResults()
      modifies this`rows, this`afterFilterRuns
      ensures rows == TablePass(old(rows), searchText)
      ensures afterFilterRuns == old(afterFilterRuns) + (if hasAfterFilter then 1 else 0)
    {
      ghost var before := rows;
      var query := Trim(searchText);
      if |query| == 0 {
        var current := rows;
        rows := seq(|current|, i requires 0 <= i < |current| => current[i].(visible := true));
      } else {
        var i := 0;
        while i < |rows|
          invariant 0 <= i <= |rows| == |before|
          invariant forall j :: 0 <= j < i ==> rows[j] == before[j].(visible := RowMatches(searchText, before[j]))
          invariant forall j :: i <= j < |rows| ==> rows[j] == before[j]
          invariant afterFilterRuns == old(afterFilterRuns)
        {
          rows := rows[i := rows[i].(visible := false)];
          ghost var outer := rows;
          var c := 0;
          while c < |rows[i].cells|
            invariant i < |rows| == |outer| && rows == outer[i := rows[i]]
            invariant 0 <= c <= |rows[i].cells|
            invariant rows[i].cells == before[i].cells
            invariant rows[i].visible <==> exists k :: 0 <= k < c && before[i].cells[k].inSelector
                                                  && Matches(searchText, before[i].cells[k].text)
            invariant afterFilterRuns == old(afterFilterRuns)
          {
            var cell := rows[i].cells[c];
            if cell.inSelector && Matches(searchText, cell.text) {
              rows := rows[i := rows[i].(visible := true)];
            }
            c := c + 1;
          }
          i := i + 1;
        }
      }
      assert rows == TablePass(before, searchText);
      if hasAfterFilter {
        afterFilterRuns := afterFilterRuns + 1;
      }
    }
  }
}
