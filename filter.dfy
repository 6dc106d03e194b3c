/**
 * The row filter of the result viewer (frontend/filter.js). The user edits filter
 * rows (column, operator, value); the active ones become a single search predicate
 * installed on the table: every active filter must hold of a row, comparing the
 * lower-cased cell with the lower-cased value.
 *
 * The DOM is replaced by plain records: a filter row is what its three inputs hold,
 * a table row is the item object it shows, and the table's search hooks are the
 * field `search` of `SearchHooks`. `toLowerCase` is the parameter `lower`.
 */
module RowFilter {
  import opened Wrappers
  import opened Strings
  import opened Objects

  /**
   * What one filter row's column select, operator select and value input hold.
   * A select with no option selected reads as `null`, here `None`.
   */
  datatype FilterRow = FilterRow(column: Option<string>, operator: Option<string>, input: string)

  /** A filter as `getCurrentFilters` reports it, its value trimmed; also the form it is saved in. */
  datatype Filter = Filter(column: Option<string>, operator: Option<string>, value: string)

  // ---------------------------------------------------------------- getCurrentFilters

  function ReadRow(row: FilterRow): (f: Filter)
    ensures f.column == row.column && f.operator == row.operator
    ensures f.value == Trim(row.input) && Trim(f.value) == f.value
  {
    TrimIdempotent(row.input, IsJsSpace);
    Filter(row.column, row.operator, Trim(row.input))
  }

  /** `filter.operator === 'empty' || filter.value`. */
  predicate IsActive(f: Filter) {
    f.operator == Some("empty") || f.value != ""
  }

  /** The filters of the first `|rows|` rows that are active, in row order. */
  function ActiveFilters(rows: seq<FilterRow>): seq<Filter>
  {
    if rows == [] then []
    else
      var f := ReadRow(rows[|rows| - 1]);
      ActiveFilters(rows[..|rows| - 1]) + if IsActive(f) then [f] else []
  }

  /** `getCurrentFilters()`: the loop over the filter rows pushing the active ones. */
  method GetCurrentFilters(rows: seq<FilterRow>) returns (filters: seq<Filter>)
    ensures filters == ActiveFilters(rows)
  {
    filters := [];
    var i := 0;
    while i < |rows|
      invariant 0 <= i <= |rows|
      invariant filters == ActiveFilters(rows[..i])
    {
      assert rows[..i + 1][..i] == rows[..i];
      var filter := Filter(rows[i].column, rows[i].operator, Trim(rows[i].input));
      if filter.operator == Some("empty") || filter.value != "" {
        filters := filters + [filter];
      }
      i := i + 1;
    }
    assert rows[..i] == rows;
  }

  /** Rows are read independently: the active filters of two runs of rows concatenate. */
  lemma {:induction false} ActiveFiltersAppend(a: seq<FilterRow>, b: seq<FilterRow>)
    ensures ActiveFilters(a + b) == ActiveFilters(a) + ActiveFilters(b)
    decreases |b|
  {
    if b == [] {
      assert a + b == a;
    } else {
      assert (a + b)[..|a + b| - 1] == a + b[..|b| - 1];
      assert (a + b)[|a + b| - 1] == b[|b| - 1];
      ActiveFiltersAppend(a, b[..|b| - 1]);
    }
  }

  /** A row is kept iff its operator is `empty` or its trimmed value is non-empty. */
  lemma RowKeptIff(row: FilterRow)
    ensures ActiveFilters([row]) == (if row.operator == Some("empty") || Trim(row.input) != "" then [ReadRow(row)] else [])
  {
    assert [row][..0] == [];
  }

  /** Every reported filter comes from some row, in trimmed form, and is active. */
  lemma {:induction false} ActiveFiltersFromRows(rows: seq<FilterRow>, f: Filter)
    requires f in ActiveFilters(rows)
    ensures IsActive(f) && Trim(f.value) == f.value
    ensures exists i :: 0 <= i < |rows| && ReadRow(rows[i]) == f
  {
    var init := rows[..|rows| - 1];
    if f in ActiveFilters(init) {
      ActiveFiltersFromRows(init, f);
      var i :| 0 <= i < |init| && ReadRow(init[i]) == f;
      assert rows[i] == init[i];
    } else {
      assert ReadRow(rows[|rows| - 1]) == f;
    }
  }

  // ---------------------------------------------------------------- the predicate

  /** `{ ...row, ...(row.details || {}) }`: the row's fields, then the details' fields over them. */
  function Spread(base: Fields, over: Fields): Fields
    decreases |over|
  {
    if over == [] then base else Spread(Put(base, over[0].0, over[0].1), over[1..])
  }

  /** Spreading entries that do not mention `k` leaves its value alone. */
  lemma {:induction false} SpreadMisses(base: Fields, over: Fields, k: string)
    requires Get(over, k).None?
    ensures Get(Spread(base, over), k) == Get(base, k)
    decreases |over|
  {
    if over != [] {
      SpreadMisses(Put(base, over[0].0, over[0].1), over[1..], k);
    }
  }

  /** A key of `over` takes its value from `over`; any other key keeps the value of `base`. */
  lemma {:induction false} SpreadGet(base: Fields, over: Fields, k: string)
    requires DistinctKeys(over)
    ensures Get(Spread(base, over), k) == if Get(over, k).Some? then Get(over, k) else Get(base, k)
    decreases |over|
  {
    if over != [] {
      var rest := over[1..];
      assert DistinctKeys(rest);
      if over[0].0 == k {
        GetKeys(rest, k);
        assert k !in Keys(rest);
        SpreadMisses(Put(base, k, over[0].1), rest, k);
      } else {
        SpreadGet(Put(base, over[0].0, over[0].1), rest, k);
      }
    }
  }

  /** `mergedData` of a table row. */
  function Merged(row: Fields): Fields
  {
    Spread(row, DetailsFields(row))
  }

  /** `String(value || '')`: falsy values read as `''`, objects as `[object Object]`. */
  function CellText(v: Option<Json>): (t: string)
    ensures v.None? || v == Some(Null) ==> t == ""
    ensures v.Some? && v.value.Str? ==> t == v.value.s
  {
    if v.None? then ""
    else match v.value
      case Null => ""
      case Str(s) => s
      case Obj(_) => "[object Object]"
  }

  /** The `switch` on the operator, on the lower-cased cell and value; `null` takes the default. */
  predicate OperatorHolds(operator: Option<string>, cell: string, value: string) {
    if operator == Some("contains") then Contains(cell, value)
    else if operator == Some("equals") then cell == value
    else if operator == Some("starts") then IsPrefix(value, cell)
    else if operator == Some("ends") then IsSuffix(value, cell)
    else if operator == Some("empty") then cell == ""
    else true
  }

  /** The property `mergedData[column]` reads: a `null` column is the property `"null"`. */
  function ColumnKey(column: Option<string>): string
  {
    if column.Some? then column.value else "null"
  }

  /** The lower-cased cell of `column` in the merged row. */
  function Cell(row: Fields, column: Option<string>, lower: char -> char): string
  {
    MapChars(CellText(Get(Merged(row), ColumnKey(column))), lower)
  }

  predicate FilterHolds(row: Fields, f: Filter, lower: char -> char) {
    OperatorHolds(f.operator, Cell(row, f.column, lower), MapChars(f.value, lower))
  }

  /** `filters.every(...)`. */
  predicate RowPasses(row: Fields, filters: seq<Filter>, lower: char -> char)
  {
    filters == [] || (FilterHolds(row, filters[0], lower) && RowPasses(row, filters[1..], lower))
  }

  /** `every` holds exactly when each filter holds. */
  lemma {:induction false} RowPassesAll(row: Fields, filters: seq<Filter>, lower: char -> char)
    ensures RowPasses(row, filters, lower) <==> forall i :: 0 <= i < |filters| ==> FilterHolds(row, filters[i], lower)
  {
    if filters != [] {
      RowPassesAll(row, filters[1..], lower);
      assert forall i :: 1 <= i < |filters| ==> filters[1..][i - 1] == filters[i];
    }
  }

  /** The cell a filter sees: a `details` key overrides the row's key of the same name. */
  lemma DetailsOverride(row: Fields, column: string)
    requires DistinctKeys(DetailsFields(row))
    ensures Get(DetailsFields(row), column).Some? ==> Get(Merged(row), column) == Get(DetailsFields(row), column)
    ensures Get(DetailsFields(row), column).None? ==> Get(Merged(row), column) == Get(row, column)
  {
    SpreadGet(row, DetailsFields(row), column);
  }

  /** Operator meanings, stated on their own. */
  lemma OperatorMeaning(operator: Option<string>, cell: string, value: string)
    ensures operator == Some("contains") ==>
              (OperatorHolds(operator, cell, value) <==> exists i :: 0 <= i <= |cell| && IsPrefix(value, cell[i..]))
    ensures operator == Some("starts") ==> (OperatorHolds(operator, cell, value) <==> |value| <= |cell| && cell[..|value|] == value)
    ensures operator == Some("ends") ==> (OperatorHolds(operator, cell, value) <==> |value| <= |cell| && cell[|cell| - |value|..] == value)
    ensures operator == Some("empty") ==> (OperatorHolds(operator, cell, value) <==> cell == "")
    ensures operator.None? || operator.value !in Operators ==> OperatorHolds(operator, cell, value)
  {
    ContainsAt(cell, value);
  }

  /** An `equals` match is also a `starts`, `ends` and `contains` match. */
  lemma EqualsIsStrongest(cell: string, value: string)
    requires OperatorHolds(Some("equals"), cell, value)
    ensures OperatorHolds(Some("starts"), cell, value) && OperatorHolds(Some("ends"), cell, value)
    ensures OperatorHolds(Some("contains"), cell, value)
  {
    PrefixSuffixContained(value, cell);
  }

  /** A missing, `null` or empty cell is compared as `''`: it matches `empty` and every `contains ''`. */
  lemma MissingCellIsEmpty(row: Fields, f: Filter, lower: char -> char)
    requires Get(Merged(row), ColumnKey(f.column)).None? || Get(Merged(row), ColumnKey(f.column)) == Some(Null)
    ensures Cell(row, f.column, lower) == ""
    ensures f.operator == Some("empty") ==> FilterHolds(row, f, lower)
    ensures f.operator == Some("equals") ==> (FilterHolds(row, f, lower) <==> f.value == "")
  {
  }

  /** Cell and value are lower-cased on both sides: values that lower-case alike filter alike. */
  lemma CaseInsensitive(row: Fields, f: Filter, g: Filter, lower: char -> char)
    requires f.column == g.column && f.operator == g.operator
    requires MapChars(f.value, lower) == MapChars(g.value, lower)
    ensures FilterHolds(row, f, lower) <==> FilterHolds(row, g, lower)
  {
  }

  // ---------------------------------------------------------------- applyFilters

  /** The predicates `applyFilters` leaves installed: one over the active filters, or none. */
  function InstalledSearch(rows: seq<FilterRow>): (search: seq<seq<Filter>>)
    ensures |search| <= 1
    ensures search == [] <==> ActiveFilters(rows) == []
  {
    var filters := ActiveFilters(rows);
    if |filters| > 0 then [filters] else []
  }

  /** DataTables shows a row when every installed search predicate accepts it. */
  predicate Shown(search: seq<seq<Filter>>, row: Fields, lower: char -> char) {
    forall i :: 0 <= i < |search| ==> RowPasses(row, search[i], lower)
  }

  /** After `applyFilters` a row is shown iff every active filter holds of it; with none, every row. */
  lemma ShownAfterApply(rows: seq<FilterRow>, row: Fields, lower: char -> char)
    ensures Shown(InstalledSearch(rows), row, lower) <==> RowPasses(row, ActiveFilters(rows), lower)
    ensures ActiveFilters(rows) == [] ==> Shown(InstalledSearch(rows), row, lower)
  {
    var fs := ActiveFilters(rows);
    var search := InstalledSearch(rows);
    if fs != [] {
      assert search == [fs];
      if RowPasses(row, fs, lower) {
        assert forall i :: 0 <= i < |search| ==> search[i] == fs;
      }
      if Shown(search, row, lower) {
        assert RowPasses(row, search[0], lower);
      }
    }
  }

  /** `$.fn.dataTable.ext.search`, the table's global list of search predicates. */
  class SearchHooks {
    var search: seq<seq<Filter>>

    constructor ()
      ensures search == []
    {
      search := [];
    }

    /** `applyFilters()`: clear the hooks, then install one predicate over the active filters. */
    method ApplyFilters(rows: seq<FilterRow>)
      modifies this
      ensures search == InstalledSearch(rows)
    {
      search := [];
      var filters := GetCurrentFilters(rows);
      if |filters| > 0 {
        search := search + [filters];
      }
    }
  }

  // ---------------------------------------------------------------- addFilterRow and saveCurrentState

  /** The column choices of `addFilterRow`: lower-cased headers other than `image` and `url`. */
  function FilterableColumns(headers: seq<string>, lower: char -> char): seq<string>
  {
    if headers == [] then []
    else
      var h := MapChars(headers[|headers| - 1], lower);
      FilterableColumns(headers[..|headers| - 1], lower) + if h == "image" || h == "url" then [] else [h]
  }

  /** The header loop of `addFilterRow`, pushing each choice. */
  method ColumnChoices(headers: seq<string>, lower: char -> char) returns (columns: seq<string>)
    ensures columns == FilterableColumns(headers, lower)
  {
    columns := [];
    var i := 0;
    while i < |headers|
      invariant 0 <= i <= |headers|
      invariant columns == FilterableColumns(headers[..i], lower)
    {
      assert headers[..i + 1][..i] == headers[..i];
      var colHeader := MapChars(headers[i], lower);
      if colHeader != "image" && colHeader != "url" {
        columns := columns + [colHeader];
      }
      i := i + 1;
    }
    assert headers[..i] == headers;
  }

  /** A column is offered iff some header lower-cases to it and it is neither `image` nor `url`. */
  lemma {:induction false} FilterableColumnsIff(headers: seq<string>, lower: char -> char, c: string)
    ensures c in FilterableColumns(headers, lower) <==>
            c != "image" && c != "url" && exists i :: 0 <= i < |headers| && MapChars(headers[i], lower) == c
  {
    if headers != [] {
      var init := headers[..|headers| - 1];
      FilterableColumnsIff(init, lower, c);
      if exists i :: 0 <= i < |init| && MapChars(init[i], lower) == c {
        var i :| 0 <= i < |init| && MapChars(init[i], lower) == c;
        assert headers[i] == init[i];
      }
      if exists i :: 0 <= i < |headers| && MapChars(headers[i], lower) == c {
        var i :| 0 <= i < |headers| && MapChars(headers[i], lower) == c;
        if i < |init| {
          assert init[i] == headers[i];
        }
      }
    }
  }

  /** Choices keep header order: the headers of two parts of the table concatenate. */
  lemma {:induction false} FilterableColumnsAppend(a: seq<string>, b: seq<string>, lower: char -> char)
    ensures FilterableColumns(a + b, lower) == FilterableColumns(a, lower) + FilterableColumns(b, lower)
    decreases |b|
  {
    if b == [] {
      assert a + b == a;
    } else {
      assert (a + b)[..|a + b| - 1] == a + b[..|b| - 1];
      assert (a + b)[|a + b| - 1] == b[|b| - 1];
      FilterableColumnsAppend(a, b[..|b| - 1], lower);
    }
  }

  /** One entry of `dataTable.order()`: a column index and a direction. */
  datatype Order = Order(column: int, direction: string)

  /** The state `saveCurrentState` stores. */
  datatype SavedState = SavedState(filters: seq<Filter>, sorting: Order)

  /** `dataTable.order()[0] || [0, 'asc']`. */
  function SavedSorting(order: seq<Order>): Order
  {
    if |order| > 0 then order[0] else Order(0, "asc")
  }

  /** `saveCurrentState()`: the active filters and the saved sorting. */
  function CurrentState(rows: seq<FilterRow>, order: seq<Order>): SavedState
  {
    SavedState(ActiveFilters(rows), SavedSorting(order))
  }

  // ---------------------------------------------------------------- restoring a saved state

  /** The values of the operator select, in option order. */
  const Operators: seq<string> := ["contains", "equals", "starts", "ends", "empty"]

  /** `$select.val(v)` in jQuery: the option with value `v`, or no option at all when there is none. */
  function SelectValue(options: seq<string>, v: string): Option<string>
  {
    if v in options then Some(v) else None
  }

  /** A fresh select shows its first option, and nothing when it has none. */
  function FirstOption(options: seq<string>): Option<string>
  {
    if options == [] then None else Some(options[0])
  }

  /** JavaScript truthiness of a saved string that may be `null`. */
  predicate Truthy(v: Option<string>) {
    v.Some? && v.value != ""
  }

  /**
   * `addFilterRow(savedFilter)` where the column select offers `columns`: a truthy
   * saved column is lower-cased and selected if offered, a truthy saved operator is
   * selected if offered, and a falsy one leaves the select at its first option.
   */
  function RestoreRow(saved: Filter, columns: seq<string>, lower: char -> char): FilterRow
  {
    FilterRow(
      if Truthy(saved.column) then SelectValue(columns, MapChars(saved.column.value, lower)) else FirstOption(columns),
      if Truthy(saved.operator) then SelectValue(Operators, saved.operator.value) else FirstOption(Operators),
      saved.value)
  }

  /** The filter rows after loading: `#filterRows` starts empty and gets one row per saved filter. */
  function RestoreRows(saved: seq<Filter>, columns: seq<string>, lower: char -> char): seq<FilterRow>
  {
    if saved == [] then []
    else RestoreRows(saved[..|saved| - 1], columns, lower) + [RestoreRow(saved[|saved| - 1], columns, lower)]
  }

  /** `dataTable.order(sorting)` with the saved `[column, direction]` pair: one sort key. */
  function RestoredOrder(sorting: Order): seq<Order>
  {
    [sorting]
  }

  /**
   * A saved filter the restore gives back unchanged: its column is an offered,
   * non-empty, already lower-case name and its operator one the select offers.
   */
  predicate Restorable(f: Filter, columns: seq<string>, lower: char -> char) {
    Truthy(f.column) && f.column.value in columns && MapChars(f.column.value, lower) == f.column.value &&
    f.operator.Some? && f.operator.value in Operators
  }

  /** Restoring a restorable filter with a trimmed value and reading the row back gives the filter again. */
  lemma RestoreRoundTrip(f: Filter, columns: seq<string>, lower: char -> char)
    requires Restorable(f, columns, lower) && Trim(f.value) == f.value
    ensures ReadRow(RestoreRow(f, columns, lower)) == f
  {
  }

  /**
   * A saved column is lower-cased before it is selected: when that lower-cased
   * name is offered, the restored row filters on it.
   */
  lemma SavedColumnLowerCased(f: Filter, columns: seq<string>, lower: char -> char)
    requires Truthy(f.column) && MapChars(f.column.value, lower) in columns
    ensures ReadRow(RestoreRow(f, columns, lower)).column == Some(MapChars(f.column.value, lower))
  {
  }

  /**
   * A saved column that is no longer offered selects nothing: the row filters on
   * the property `"null"`, is saved with a `null` column, and the next restore puts
   * it on the first offered column.
   */
  lemma UnofferedColumnFallsBack(f: Filter, columns: seq<string>, lower: char -> char)
    requires Truthy(f.column) && MapChars(f.column.value, lower) !in columns
    ensures ReadRow(RestoreRow(f, columns, lower)).column == None
    ensures RestoreRow(ReadRow(RestoreRow(f, columns, lower)), columns, lower).column == FirstOption(columns)
  {
  }

  /** The restored rows of restorable, active, trimmed filters report exactly those filters again. */
  lemma {:induction false} RestoreAll(fs: seq<Filter>, columns: seq<string>, lower: char -> char)
    requires forall i :: 0 <= i < |fs| ==> Restorable(fs[i], columns, lower) && IsActive(fs[i]) && Trim(fs[i].value) == fs[i].value
    ensures ActiveFilters(RestoreRows(fs, columns, lower)) == fs
    decreases |fs|
  {
    if fs != [] {
      var init := fs[..|fs| - 1];
      var last := fs[|fs| - 1];
      RestoreAll(init, columns, lower);
      RestoreRoundTrip(last, columns, lower);
      var rows := RestoreRows(fs, columns, lower);
      assert rows[..|rows| - 1] == RestoreRows(init, columns, lower);
      assert fs == init + [last];
    }
  }

  /**
   * Saving and then loading the state gives back the same active filters, as long
   * as every saved filter is restorable; the table's order comes back as the saved
   * first sort key alone, `[0, 'asc']` when there was none, and saving it again
   * saves the same sorting.
   */
  lemma StateRoundTrip(rows: seq<FilterRow>, order: seq<Order>, headers: seq<string>, lower: char -> char)
    requires forall f :: f in ActiveFilters(rows) ==> Restorable(f, FilterableColumns(headers, lower), lower)
    ensures var st := CurrentState(rows, order);
            ActiveFilters(RestoreRows(st.filters, FilterableColumns(headers, lower), lower)) == st.filters
    ensures var st := CurrentState(rows, order);
            RestoredOrder(st.sorting) == (if order == [] then [Order(0, "asc")] else order[..1]) &&
            CurrentState(rows, RestoredOrder(st.sorting)) == st
  {
    var fs := ActiveFilters(rows);
    forall i | 0 <= i < |fs|
      ensures Restorable(fs[i], FilterableColumns(headers, lower), lower) && IsActive(fs[i]) && Trim(fs[i].value) == fs[i].value
    {
      assert fs[i] in fs;
      ActiveFiltersFromRows(rows, fs[i]);
    }
    RestoreAll(fs, FilterableColumns(headers, lower), lower);
  }
}
