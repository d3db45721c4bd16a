/** The row normaliser of `parse_excel`, starting from the already decoded
    sheet: rename the four source columns, select them, default absent
    cells per field and emit one record per sheet row, in order.
 */
module Extractor {
  import opened Values

  /** A decoded sheet below the skipped header rows: the column labels and
      the data rows. A row shorter than the header has absent trailing cells. */
  datatype Table = Table(header: seq<string>, rows: seq<seq<Option<Value>>>)

  /** The four selected columns, in the order of the emitted record. */
  datatype Field = Description | Quantity | Uom | Price

  /** The canonical column name each field is selected by. */
  function ColumnName(f: Field): string {
    match f
    case Description => "product_description"
    case Quantity => "quantity"
    case Uom => "UOM"
    case Price => "price"
  }

  /** Why the sheet does not have the expected layout. */
  datatype FormatError =
    | MissingColumn(field: Field)    // the selection raises KeyError
    | DuplicateColumn(field: Field)  // two columns end up under one name

  /** The column rename: the four sheet headings map to the canonical names
      and every other heading is kept. */
  function Rename(heading: string): (r: string)
    ensures forall f :: r == ColumnName(f) <==> Feeds(heading, f)
    ensures (forall f :: !Feeds(heading, f)) ==> r == heading
  {
    if heading == "PRODUCT DESCRIPTION" then ColumnName(Description)
    else if heading == "Quantity" then ColumnName(Quantity)
    else if heading == "UOM" then ColumnName(Uom)
    else if heading == "PRICE" then ColumnName(Price)
    else heading
  }

  /** The sheet headings that end up under a field's canonical name: the
      sheet heading renamed to it, or a heading that already is that name. */
  predicate Feeds(heading: string, f: Field) {
    match f
    case Description => heading == "PRODUCT DESCRIPTION" || heading == "product_description"
    case Quantity => heading == "Quantity" || heading == "quantity"
    case Uom => heading == "UOM"
    case Price => heading == "PRICE" || heading == "price"
  }

  /** The positions, in increasing order, of the columns named `name` after
      the rename. */
  function Positions(header: seq<string>, name: string): (ps: seq<nat>)
    ensures forall k :: 0 <= k < |ps| ==> ps[k] < |header| && Rename(header[ps[k]]) == name
    ensures forall k, l :: 0 <= k < l < |ps| ==> ps[k] < ps[l]
    decreases |header|
  {
    if header == [] then []
    else
      var n := |header| - 1;
      Positions(header[..n], name) + (if Rename(header[n]) == name then [n] else [])
  }

  /** The cell of `row` in column `j`; cells past the end of a short row are absent. */
  function Cell(row: seq<Option<Value>>, j: nat): Option<Value> {
    if j < |row| then row[j] else None
  }

  /** One record from one sheet row, given the four selected column
      positions; each absent cell takes its field's default on its own. */
  function MakeRecord(row: seq<Option<Value>>, c: Columns): Record {
    Record(Cell(row, c.description).GetOr(EmptyText), Cell(row, c.quantity).GetOr(EmptyText),
           Cell(row, c.uom).GetOr(EmptyText), Cell(row, c.price).GetOr(ZeroPrice))
  }

  /** Where the four selected columns sit in the sheet. */
  datatype Columns = Columns(description: nat, quantity: nat, uom: nat, price: nat)

  /** The column selection: each selected name must be fed by exactly one
      column. A name with no column fails, as the selection raises `KeyError`
      for it; one with two columns fails too (see `DuplicateColumn`). */
  function Layout(header: seq<string>): (c: Result<Columns, FormatError>)
    ensures c.Success? ==>
      && c.value.description < |header| && Rename(header[c.value.description]) == ColumnName(Description)
      && c.value.quantity < |header| && Rename(header[c.value.quantity]) == ColumnName(Quantity)
      && c.value.uom < |header| && Rename(header[c.value.uom]) == ColumnName(Uom)
      && c.value.price < |header| && Rename(header[c.value.price]) == ColumnName(Price)
  {
    var pd := Positions(header, ColumnName(Description));
    var pq := Positions(header, ColumnName(Quantity));
    var pu := Positions(header, ColumnName(Uom));
    var pp := Positions(header, ColumnName(Price));
    if |pd| == 0 then Failure(MissingColumn(Description))
    else if |pq| == 0 then Failure(MissingColumn(Quantity))
    else if |pu| == 0 then Failure(MissingColumn(Uom))
    else if |pp| == 0 then Failure(MissingColumn(Price))
    else if |pd| > 1 then Failure(DuplicateColumn(Description))
    else if |pq| > 1 then Failure(DuplicateColumn(Quantity))
    else if |pu| > 1 then Failure(DuplicateColumn(Uom))
    else if |pp| > 1 then Failure(DuplicateColumn(Price))
    else Success(Columns(pd[0], pq[0], pu[0], pp[0]))
  }

  /** The whole of `parse_excel` after decoding: select the columns, then
      emit one record per sheet row, in order. A duplicated column only
      breaks the four-way unpacking of each row, so a sheet without data
      rows still yields its (empty) batch. */
  function Normalise(t: Table): (r: Result<seq<Record>, FormatError>)
    ensures r.Success? ==> |r.value| == |t.rows|
    ensures r.Failure? ==> Layout(t.header).Failure? && r.error == Layout(t.header).error
    ensures r.Success? && Layout(t.header).Failure? ==> t.rows == [] && Layout(t.header).error.DuplicateColumn?
  {
    match Layout(t.header)
    case Failure(e) =>
      if e.DuplicateColumn? && t.rows == [] then Success([]) else Failure(e)
    case Success(c) =>
      Success(seq(|t.rows|, i requires 0 <= i < |t.rows| => MakeRecord(t.rows[i], c)))
  }
}
