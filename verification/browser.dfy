/** The browser as the scraper sees it: an immutable snapshot of the
    rendered page, in which every driver lookup the scraper makes has a
    fixed answer. Driver calls that raise are part of the answer. */
module Browser {
  import opened Wrappers

  /** The answer to one element lookup: the elements found (possibly none),
      or `Broken` when the driver call raised. */
  datatype Lookup<T> = Found(items: seq<T>) | Broken

  /** How elements are looked up: by CSS selector or by XPath expression. */
  datatype Locator = Css(selector: string) | XPath(expr: string)

  /** A clickable element: whether it is displayed and enabled, the
      `disabled`, `aria-disabled` and `class` attributes (`None` when
      absent), its text content, and whether a direct click and a
      script-driven click go through. */
  datatype Control = Control(
    displayed: bool,
    enabled: bool,
    disabledAttr: Option<string>,
    ariaDisabled: Option<string>,
    classAttr: Option<string>,
    text: string,
    clickWorks: bool,
    scriptClickWorks: bool)

  /** One `<tr>` of the table: the raw text content of its `td` cells and of
      its `th` cells, the clock reading taken when it is read, and whether
      reading its cells succeeds. */
  datatype Row = Row(readable: bool, tds: seq<string>, ths: seq<string>, readAt: string)

  /** The `selectPage` drop-down: its option values and the values that
      selecting by value, and by visible text, accept. */
  datatype SizeSelect = SizeSelect(values: seq<string>, byValue: set<string>, byText: set<string>)

  /** One rendered page:
      - `tableAppears`: a `<table>` appears before the wait times out;
      - `tbodyRows`, `allRows`: how many rows `table tbody tr` and `table tr` find;
      - `tables`: the rows of the first element each table selector finds
        (a selector that finds nothing is absent);
      - `url`: the current URL;
      - `queries`: the answer to every other lookup (an absent locator finds nothing);
      - `source`: the page source, `None` when reading it raises;
      - `sizeSelect`: the page-size control, `None` when it never becomes clickable. */
  datatype PageSnapshot = PageSnapshot(
    tableAppears: bool,
    tbodyRows: nat,
    allRows: nat,
    tables: map<string, Lookup<Row>>,
    url: string,
    queries: map<Locator, Lookup<Control>>,
    source: Option<string>,
    sizeSelect: Option<SizeSelect>)

  /** `driver.find_elements(locator)` on a snapshot. */
  function Query(page: PageSnapshot, locator: Locator): Lookup<Control> {
    if locator in page.queries then page.queries[locator] else Found([])
  }

  /** One scraped constituent. */
  datatype Record = Record(
    codigo: string,
    empresa: string,
    tipo: string,
    quantidadeTeorica: string,
    participacaoPct: string,
    pagina: int,
    dataColeta: string,
    urlFonte: string)

  /** A record that can be emitted: a code and a company name, and a code
      that is not the header label. */
  predicate ValidRecord(r: Record) {
    r.codigo != "" && r.empresa != "" && r.codigo != "Código"
  }
}
