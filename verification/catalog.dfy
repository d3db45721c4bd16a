/** The RoofingMaterials table and the upsert-by-description reconciler of
    `update_or_insert_sql`. The SQLite table is an in-memory sequence of
    rows in scan (rowid) order together with the AUTOINCREMENT high-water
    mark; the loop over the parsed rows is a left fold of `Step`.
 */
module Catalog {
  import opened Values

  /** One row of the table: the identity column and the four data columns. */
  datatype Entry = Entry(id: int, description: Value, quantity: Value, uom: Value, price: Value)

  /** The table's rows in scan order, and the largest id AUTOINCREMENT has
      ever handed out (the table's `sqlite_sequence` value, 0 for a new table). */
  datatype Store = Store(entries: seq<Entry>, highWater: int)

  /** What the loop body did with one row: the branches that print
      "Inserting new product", "Updating price ... from ... to ...", or nothing. */
  datatype Action = Inserted | Updated(before: Value, after: Value) | Unchanged

  /** The table as `CREATE TABLE IF NOT EXISTS` leaves it on first use. */
  const EmptyStore: Store := Store([], 0)

  function Max(a: int, b: int): int {
    if a < b then b else a
  }

  /** The largest id in `es`, and 0 for an empty table. */
  function MaxId(es: seq<Entry>): (m: int)
    ensures 0 <= m
    ensures forall i :: 0 <= i < |es| ==> es[i].id <= m
  {
    if es == [] then 0 else Max(es[0].id, MaxId(es[1..]))
  }

  /** The id AUTOINCREMENT assigns to the next insert: one more than the
      largest id the table has ever held. */
  function NextId(s: Store): (id: int)
    ensures s.highWater < id
    ensures forall i :: 0 <= i < |s.entries| ==> s.entries[i].id < id
  {
    Max(s.highWater, MaxId(s.entries)) + 1
  }

  /** `SELECT ... WHERE product_description = ?` followed by `fetchone()`:
      the position of the first row, in scan order, with description `d`. */
  function Find(es: seq<Entry>, d: Value): (r: Option<nat>)
    ensures r.Some? ==> r.value < |es| && es[r.value].description == d
    ensures r.Some? ==> forall j :: 0 <= j < r.value ==> es[j].description != d
    ensures r.None? <==> forall j :: 0 <= j < |es| ==> es[j].description != d
  {
    if es == [] then None
    else if es[0].description == d then Some(0)
    else match Find(es[1..], d)
      case None => None
      case Some(k) => Some(k + 1)
  }

  /** The row a lookup by description returns, if any. */
  function Lookup(s: Store, d: Value): (r: Option<Entry>)
    ensures r.Some? ==> r.value.description == d
    ensures r.None? <==> forall i :: 0 <= i < |s.entries| ==> s.entries[i].description != d
  {
    match Find(s.entries, d)
    case None => None
    case Some(i) => Some(s.entries[i])
  }

  /** `UPDATE ... SET price = ? WHERE product_description = ?`. */
  function SetPrice(es: seq<Entry>, d: Value, p: Value): (r: seq<Entry>)
    ensures |r| == |es|
    ensures forall i :: 0 <= i < |es| && es[i].description == d ==> r[i] == es[i].(price := p)
    ensures forall i :: 0 <= i < |es| && es[i].description != d ==> r[i] == es[i]
  {
    seq(|es|, i requires 0 <= i < |es| => if es[i].description == d then es[i].(price := p) else es[i])
  }

  /** Two versions of one row that agree on everything except the price. */
  predicate SameButPrice(a: Entry, b: Entry) {
    a.id == b.id && a.description == b.description && a.quantity == b.quantity && a.uom == b.uom
  }

  /** `t` is `s` with possibly some prices rewritten and rows appended:
      nothing deleted, no id, description, quantity or unit changed, and
      the AUTOINCREMENT counter never moving backwards. */
  predicate Extends(s: Store, t: Store) {
    && |s.entries| <= |t.entries|
    && (forall i :: 0 <= i < |s.entries| ==> SameButPrice(s.entries[i], t.entries[i]))
    && s.highWater <= t.highWater
  }

  /** At most one row per description: the catalog's business-key invariant. */
  predicate Unique(es: seq<Entry>) {
    forall i, j :: 0 <= i < j < |es| ==> es[i].description != es[j].description
  }

  /** Ids strictly increase in scan order, so scan order is rowid order. */
  predicate IdsAscending(es: seq<Entry>) {
    forall i, j :: 0 <= i < j < |es| ==> es[i].id < es[j].id
  }

  /** The descriptions a batch mentions. */
  function Keys(rows: seq<Record>): set<Value> {
    set r | r in rows :: r.description
  }

  /** The branch the loop body takes for `row` against the current table
      (price-sheet-updater.py:48-61). */
  function Decide(s: Store, row: Record): (a: Action)
    ensures a.Inserted? <==> Lookup(s, row.description).None?
    ensures a.Updated? ==> a.before != a.after && a.after == row.price
    ensures a.Updated? ==> Lookup(s, row.description).Some? && Lookup(s, row.description).value.price == a.before
    ensures a.Unchanged? ==> Lookup(s, row.description).Some? && Lookup(s, row.description).value.price == row.price
  {
    match Find(s.entries, row.description)
    case None => Inserted
    case Some(i) =>
      if s.entries[i].price != row.price then Updated(s.entries[i].price, row.price) else Unchanged
  }

  /** One iteration of the loop: carry out the branch `Decide` picked. */
  function Step(s: Store, row: Record): (t: Store)
    ensures Extends(s, t)
    ensures forall i :: 0 <= i < |s.entries| && s.entries[i].description != row.description ==> t.entries[i] == s.entries[i]
    ensures forall i :: |s.entries| <= i < |t.entries| ==> t.entries[i].description == row.description
    ensures Decide(s, row).Updated? ==> forall i :: 0 <= i < |s.entries| && s.entries[i].description == row.description ==> t.entries[i] == s.entries[i].(price := row.price)
    ensures Decide(s, row).Unchanged? ==> t == s
  {
    match Decide(s, row)
    case Inserted =>
      var id := NextId(s);
      Store(s.entries + [Entry(id, row.description, row.quantity, row.uom, row.price)], id)
    case Updated(_, p) =>
      Store(SetPrice(s.entries, row.description, p), s.highWater)
    case Unchanged =>
      s
  }

  /** The whole loop of `update_or_insert_sql`: the rows are processed in
      order, so the table after a batch is one step on the last row from
      the table after all earlier rows. */
  function Reconcile(s: Store, rows: seq<Record>): (t: Store)
    ensures Extends(s, t)
    ensures forall i :: 0 <= i < |s.entries| && s.entries[i].description !in Keys(rows) ==> t.entries[i] == s.entries[i]
    ensures forall i :: |s.entries| <= i < |t.entries| ==> t.entries[i].description in Keys(rows)
    decreases |rows|
  {
    if rows == [] then s
    else
      var n := |rows| - 1;
      assert forall r :: r in rows[..n] ==> r in rows;
      Step(Reconcile(s, rows[..n]), rows[n])
  }

  /** The per-row log the loop prints, one `(description, action)` pair per
      input row, in input order. */
  function Report(s: Store, rows: seq<Record>): (log: seq<(Value, Action)>)
    ensures |log| == |rows|
    ensures forall k :: 0 <= k < |rows| ==> log[k].0 == rows[k].description
    decreases |rows|
  {
    if rows == [] then []
    else
      var n := |rows| - 1;
      Report(s, rows[..n]) + [(rows[n].description, Decide(Reconcile(s, rows[..n]), rows[n]))]
  }

  /** How many insert actions a log holds. */
  function CountInserted(log: seq<(Value, Action)>): nat {
    if log == [] then 0
    else CountInserted(log[..|log| - 1]) + (if log[|log| - 1].1.Inserted? then 1 else 0)
  }
}
