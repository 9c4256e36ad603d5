/** The render waiter and the row extractor of the scraper. */
module Extraction {
  import opened Wrappers
  import opened Text
  import opened Browser

  /** `_wait_for_table_load`: the table appeared, and the primary row
      selector, or failing that the alternate one, finds a row. */
  function TableReady(page: PageSnapshot): (ready: bool)
    ensures ready ==> page.tableAppears
    ensures page.tableAppears && page.tbodyRows > 0 ==> ready
  {
    if !page.tableAppears then false
    else
      var rows := if page.tbodyRows > 0 then page.tbodyRows else page.allRows;
      rows > 0
  }

  /** Every `table tbody tr` is also a `table tr`; on such a page readiness
      depends only on the wider selector. */
  lemma ReadyOnConsistentCounts(page: PageSnapshot)
    requires page.tbodyRows <= page.allRows
    ensures TableReady(page) <==> page.tableAppears && page.allRows > 0
  {
  }

  /** The selectors tried, in order, to locate the table. */
  const TableSelectors: seq<string> := ["table", "table.table", "[role='table']", ".table-responsive table"]

  /** The first selector, in order, that finds a table, with its answer. */
  function FirstTable(tables: map<string, Lookup<Row>>, selectors: seq<string>): (r: Option<Lookup<Row>>)
    ensures r.None? <==> forall i :: 0 <= i < |selectors| ==> selectors[i] !in tables
    ensures r.Some? ==> exists i :: (0 <= i < |selectors| && selectors[i] in tables
                                     && r.value == tables[selectors[i]]
                                     && forall j :: 0 <= j < i ==> selectors[j] !in tables)
  {
    if selectors == [] then None
    else if selectors[0] in tables then
      assert 0 < |selectors| && selectors[0] in tables;
      Some(tables[selectors[0]])
    else
      var r := FirstTable(tables, selectors[1..]);
      if r.Some? then
        var i :| 0 <= i < |selectors[1..]| && selectors[1..][i] in tables
          && r.value == tables[selectors[1..][i]]
          && forall j :: 0 <= j < i ==> selectors[1..][j] !in tables;
        assert selectors[i + 1] in tables && r.value == tables[selectors[i + 1]];
        assert forall j :: 0 <= j < i + 1 ==> selectors[j] !in tables by {
          forall j | 0 <= j < i + 1
            ensures selectors[j] !in tables
          {
            if j > 0 {
              assert selectors[j] == selectors[1..][j - 1];
            }
          }
        }
        r
      else
        r
  }

  /** The label of the code column, which a header row without `th`
      markers would carry in its first cell. */
  const CodeHeaderLabel: string := "Código"

  /** The record a row with the given cells yields: at least five cells,
      trimmed and taken positionally (code, company, type, theoretical
      quantity, participation); extra cells are ignored; the row is dropped
      when the code or company is empty or the code is the header label. */
  function RecordFromCells(cells: seq<string>, page: int, url: string, readAt: string): (r: Option<Record>)
    ensures r.Some? ==> |cells| >= 5 && ValidRecord(r.value)
    ensures r.Some? ==> r.value.pagina == page && r.value.urlFonte == url && r.value.dataColeta == readAt
    ensures r.Some? ==> (r.value.codigo == Strip(cells[0]) && r.value.empresa == Strip(cells[1])
                         && r.value.tipo == Strip(cells[2]) && r.value.quantidadeTeorica == Strip(cells[3])
                         && r.value.participacaoPct == Strip(cells[4]))
    ensures (|cells| >= 5 && Strip(cells[0]) != "" && Strip(cells[1]) != ""
             && Strip(cells[0]) != CodeHeaderLabel) ==> r.Some?
  {
    if |cells| >= 5 then
      var codigo := Strip(cells[0]);
      var empresa := Strip(cells[1]);
      if codigo != "" && empresa != "" && codigo != CodeHeaderLabel then
        Some(Record(codigo, empresa, Strip(cells[2]), Strip(cells[3]), Strip(cells[4]), page, readAt, url))
      else
        None
    else
      None
  }

  /** Cells beyond the fifth never influence the record. */
  lemma ExtraCellsIgnored(cells: seq<string>, extra: seq<string>, page: int, url: string, readAt: string)
    requires |cells| >= 5
    ensures RecordFromCells(cells + extra, page, url, readAt) == RecordFromCells(cells, page, url, readAt)
  {
    var all := cells + extra;
    assert all[0] == cells[0] && all[1] == cells[1] && all[2] == cells[2];
    assert all[3] == cells[3] && all[4] == cells[4];
  }

  /** A row has no `td` cells but does have `th` cells. */
  predicate HeaderShaped(row: Row) {
    row.tds == [] && row.ths != []
  }

  /** The cells a row is read through: its `td` cells, or its `th` cells
      when it has none. */
  function CellsOf(row: Row): seq<string> {
    if row.tds != [] then row.tds else row.ths
  }

  /** The loop of `_extract_table_data` over the rows of the table, with the
      "header seen" flag: the first readable header-shaped row is skipped;
      every other readable row goes through the cell filters; a row whose
      reading raises is skipped without touching the flag. */
  function ExtractRows(rows: seq<Row>, headerSeen: bool, page: int, url: string): seq<Record> {
    if rows == [] then []
    else
      var row := rows[0];
      if !row.readable then ExtractRows(rows[1..], headerSeen, page, url)
      else if HeaderShaped(row) && !headerSeen then ExtractRows(rows[1..], true, page, url)
      else
        match RecordFromCells(CellsOf(row), page, url, row.readAt)
        case Some(rec) => [rec] + ExtractRows(rows[1..], headerSeen, page, url)
        case None => ExtractRows(rows[1..], headerSeen, page, url)
  }

  /** At most one record per row, each one valid and stamped with the page
      number and URL. */
  lemma {:induction false} ExtractRowsValid(rows: seq<Row>, headerSeen: bool, page: int, url: string)
    ensures |ExtractRows(rows, headerSeen, page, url)| <= |rows|
    ensures forall k :: 0 <= k < |ExtractRows(rows, headerSeen, page, url)| ==>
      var rec := ExtractRows(rows, headerSeen, page, url)[k];
      ValidRecord(rec) && rec.pagina == page && rec.urlFonte == url
  {
    if rows != [] {
      var row := rows[0];
      var seen := headerSeen || (row.readable && HeaderShaped(row));
      ExtractRowsValid(rows[1..], seen, page, url);
      ExtractRowsValid(rows[1..], headerSeen, page, url);
    }
  }

  /** What one row contributes when it is treated as data. */
  function RowYield(row: Row, page: int, url: string): seq<Record> {
    if !row.readable then []
    else
      match RecordFromCells(CellsOf(row), page, url, row.readAt)
      case Some(rec) => [rec]
      case None => []
  }

  /** The rows' contributions, all treated as data, concatenated in order. */
  function AllYields(rows: seq<Row>, page: int, url: string): seq<Record> {
    if rows == [] then [] else RowYield(rows[0], page, url) + AllYields(rows[1..], page, url)
  }

  /** The index of the first readable header-shaped row. */
  function HeaderIndex(rows: seq<Row>): (r: Option<nat>)
    ensures r.Some? ==> r.value < |rows| && rows[r.value].readable && HeaderShaped(rows[r.value])
    ensures r.Some? ==> forall j :: 0 <= j < r.value ==> !(rows[j].readable && HeaderShaped(rows[j]))
    ensures r.None? ==> forall j :: 0 <= j < |rows| ==> !(rows[j].readable && HeaderShaped(rows[j]))
  {
    if rows == [] then None
    else if rows[0].readable && HeaderShaped(rows[0]) then Some(0)
    else
      match HeaderIndex(rows[1..])
      case Some(i) => Some(i + 1)
      case None => None
  }

  /** Once a header has been seen, every row is treated as data: later
      header-shaped rows are not skipped, they meet the same filters. */
  lemma {:induction false} AfterHeaderAllRowsAreData(rows: seq<Row>, page: int, url: string)
    ensures ExtractRows(rows, true, page, url) == AllYields(rows, page, url)
  {
    if rows != [] {
      AfterHeaderAllRowsAreData(rows[1..], page, url);
    }
  }

  /** A row that is not skipped as the header contributes what it yields as data. */
  lemma ExtractDataStep(rows: seq<Row>, headerSeen: bool, page: int, url: string)
    requires rows != [] && !(rows[0].readable && HeaderShaped(rows[0]) && !headerSeen)
    ensures ExtractRows(rows, headerSeen, page, url)
         == RowYield(rows[0], page, url) + ExtractRows(rows[1..], headerSeen, page, url)
  {
  }

  /** Peeling the first row off a non-empty prefix. */
  lemma AllYieldsPrefixStep(rows: seq<Row>, h: nat, page: int, url: string)
    requires h + 1 <= |rows|
    ensures AllYields(rows[..h + 1], page, url) == RowYield(rows[0], page, url) + AllYields(rows[1..][..h], page, url)
  {
    assert rows[..h + 1][0] == rows[0];
    assert rows[..h + 1][1..] == rows[1..][..h];
  }

  /** An independent description of the extractor: every row is treated
      as data except the first readable header-shaped row, which is
      skipped. */
  function SkipFirstHeader(rows: seq<Row>, page: int, url: string): seq<Record> {
    match HeaderIndex(rows)
    case None => AllYields(rows, page, url)
    case Some(h) => AllYields(rows[..h], page, url) + AllYields(rows[h + 1..], page, url)
  }

  /** Before the header is reached, the description peels off one data row. */
  lemma SkipFirstHeaderStep(rows: seq<Row>, page: int, url: string)
    requires rows != [] && !(rows[0].readable && HeaderShaped(rows[0]))
    ensures SkipFirstHeader(rows, page, url)
         == RowYield(rows[0], page, url) + SkipFirstHeader(rows[1..], page, url)
  {
    var rest := rows[1..];
    var y := RowYield(rows[0], page, url);
    match HeaderIndex(rest)
    case None =>
      assert HeaderIndex(rows) == None;
    case Some(h) =>
      assert HeaderIndex(rows) == Some(h + 1);
      AllYieldsPrefixStep(rows, h, page, url);
      assert rows[h + 2..] == rest[h + 1..];
      var front := AllYields(rest[..h], page, url);
      var back := AllYields(rest[h + 1..], page, url);
      AppendAssociates(y, front, back);
  }

  lemma AppendAssociates(a: seq<Record>, b: seq<Record>, c: seq<Record>)
    ensures a + (b + c) == (a + b) + c
  {
  }

  /** On a readable header-shaped first row, the description skips exactly
      that row. */
  lemma SkipFirstHeaderAtHeader(rows: seq<Row>, page: int, url: string)
    requires rows != [] && rows[0].readable && HeaderShaped(rows[0])
    ensures SkipFirstHeader(rows, page, url) == AllYields(rows[1..], page, url)
  {
    assert HeaderIndex(rows) == Some(0);
    assert rows[..0] == [] && rows[0 + 1..] == rows[1..];
    assert AllYields(rows[..0], page, url) == [];
  }

  /** The extractor equals the independent description. */
  lemma {:induction false} ExtractSkipsOnlyFirstHeader(rows: seq<Row>, page: int, url: string)
    ensures ExtractRows(rows, false, page, url) == SkipFirstHeader(rows, page, url)
  {
    if rows == [] {
      assert HeaderIndex(rows) == None;
    } else if rows[0].readable && HeaderShaped(rows[0]) {
      AfterHeaderAllRowsAreData(rows[1..], page, url);
      SkipFirstHeaderAtHeader(rows, page, url);
    } else {
      ExtractSkipsOnlyFirstHeader(rows[1..], page, url);
      ExtractDataStep(rows, false, page, url);
      SkipFirstHeaderStep(rows, page, url);
    }
  }

  /** A row whose first cell reads "Código" never yields a record, so header
      rows repeated in the body are dropped by the cell filter. */
  lemma RepeatedHeaderYieldsNothing(row: Row, page: int, url: string)
    requires |CellsOf(row)| > 0 && Strip(CellsOf(row)[0]) == CodeHeaderLabel
    ensures RowYield(row, page, url) == []
  {
  }

  /** `_extract_table_data`: locate the table with the first selector that
      finds one and extract its rows; no table, or a failing row listing,
      yields nothing. */
  function ExtractTableData(page: PageSnapshot, pageNumber: int): (r: seq<Record>)
    ensures forall k :: 0 <= k < |r| ==> ValidRecord(r[k]) && r[k].pagina == pageNumber
    ensures FirstTable(page.tables, TableSelectors).None? ==> r == []
    ensures FirstTable(page.tables, TableSelectors) == Some(Broken) ==> r == []
    ensures FirstTable(page.tables, TableSelectors).Some? && FirstTable(page.tables, TableSelectors).value.Found? ==>
      r == SkipFirstHeader(FirstTable(page.tables, TableSelectors).value.items, pageNumber, page.url)
  {
    match FirstTable(page.tables, TableSelectors)
    case None => []
    case Some(Broken) => []
    case Some(Found(rows)) =>
      ExtractRowsValid(rows, false, pageNumber, page.url);
      ExtractSkipsOnlyFirstHeader(rows, pageNumber, page.url);
      ExtractRows(rows, false, pageNumber, page.url)
  }
}
