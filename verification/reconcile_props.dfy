/** Properties of the reconciler in `Catalog`: what one loop iteration does,
    and what a whole batch guarantees (key uniqueness, last-wins prices,
    first-wins quantity and unit, fresh ids, nothing deleted, idempotence).
 */
module ReconcileProps {
  import opened Values
  import opened Catalog

  /** The price of the last row of `rows` with description `d`. */
  function LastPrice(rows: seq<Record>, d: Value): Value
    requires d in Keys(rows)
    decreases |rows|
  {
    var n := |rows| - 1;
    if rows[n].description == d then rows[n].price
    else
      assert d in Keys(rows[..n]) by {
        var r :| r in rows && r.description == d;
        var k :| 0 <= k < |rows| && rows[k] == r;
        assert k < n && rows[..n][k] == r;
      }
      LastPrice(rows[..n], d)
  }

  // ---------------------------------------------------------------------
  // Small facts about lookups and batches
  // ---------------------------------------------------------------------

  /** A table that extends another finds the same first row for every
      description the other already holds. */
  lemma FindStable(s: Store, t: Store, d: Value)
    requires Extends(s, t)
    requires Find(s.entries, d).Some?
    ensures Find(t.entries, d) == Find(s.entries, d)
  {
    var i := Find(s.entries, d).value;
    assert t.entries[i].description == d;
  }

  lemma KeysPrefix(rows: seq<Record>, n: nat)
    requires n <= |rows|
    ensures Keys(rows[..n]) <= Keys(rows)
  {
    forall d | d in Keys(rows[..n]) ensures d in Keys(rows) {
      var r :| r in rows[..n] && r.description == d;
    }
  }

  lemma KeysSnoc(rows: seq<Record>)
    requires rows != []
    ensures Keys(rows) == Keys(rows[..|rows| - 1]) + {rows[|rows| - 1].description}
  {
    var n := |rows| - 1;
    assert rows == rows[..n] + [rows[n]];
    KeysPrefix(rows, n);
    forall d | d in Keys(rows) ensures d in Keys(rows[..n]) + {rows[n].description} {
      var r :| r in rows && r.description == d;
      var k :| 0 <= k < |rows| && rows[k] == r;
      if k < n {
        assert rows[..n][k] == r;
      }
    }
  }

  // ---------------------------------------------------------------------
  // One iteration of the loop
  // ---------------------------------------------------------------------

  /** After processing a row, a lookup by its description finds a row
      whose price is the row's price. */
  lemma StepSetsPrice(s: Store, row: Record)
    ensures Lookup(Step(s, row), row.description).Some?
    ensures Lookup(Step(s, row), row.description).value.price == row.price
  {
    var t := Step(s, row);
    match Find(s.entries, row.description)
    case None =>
      assert t.entries[|s.entries|].description == row.description;
      assert Find(t.entries, row.description) == Some(|s.entries|);
    case Some(i) =>
      FindStable(s, t, row.description);
  }

  /** A row whose description is new appends exactly one row carrying all
      four fields of the input row, with an id above every id the table has
      held; nothing else changes. */
  lemma InsertFresh(s: Store, row: Record)
    requires Lookup(s, row.description).None?
    ensures var t := Step(s, row);
      && |t.entries| == |s.entries| + 1
      && t.entries[..|s.entries|] == s.entries
      && var e := t.entries[|s.entries|];
      && e.description == row.description && e.quantity == row.quantity
      && e.uom == row.uom && e.price == row.price
      && s.highWater < e.id == t.highWater
      && (forall i :: 0 <= i < |s.entries| ==> s.entries[i].id < e.id)
      && Find(t.entries, row.description) == Some(|s.entries|)
  {
    var t := Step(s, row);
    assert t.entries[|s.entries|].description == row.description;
  }

  /** Change detection is exact: a row whose description exists changes the
      table if and only if the stored price differs from the row's price,
      and then every row with that description, and only those, takes the
      row's price (the UPDATE is keyed on the description, not the id). */
  lemma ChangeDetection(s: Store, row: Record)
    requires Lookup(s, row.description).Some?
    ensures Step(s, row) == s <==> Lookup(s, row.description).value.price == row.price
    ensures Decide(s, row).Updated? <==> Lookup(s, row.description).value.price != row.price
    ensures var t := Step(s, row);
      |t.entries| == |s.entries| && t.highWater == s.highWater
    ensures Decide(s, row).Updated? ==> forall i :: 0 <= i < |s.entries| && s.entries[i].description == row.description ==>
      Step(s, row).entries[i] == s.entries[i].(price := row.price)
    ensures !Decide(s, row).Updated? ==> Step(s, row) == s
  {
    var i := Find(s.entries, row.description).value;
    var t := Step(s, row);
    if Lookup(s, row.description).value.price != row.price {
      assert t.entries[i].price == row.price != s.entries[i].price;
    }
  }

  /** A step keeps the catalog at most one row per description. */
  lemma StepKeepsUnique(s: Store, row: Record)
    requires Unique(s.entries)
    ensures Unique(Step(s, row).entries)
  {
  }

  /** A step keeps ids ascending in scan order. */
  lemma StepKeepsIdsAscending(s: Store, row: Record)
    requires IdsAscending(s.entries)
    ensures IdsAscending(Step(s, row).entries)
  {
  }

  // ---------------------------------------------------------------------
  // A whole batch
  // ---------------------------------------------------------------------

  /** Key uniqueness: a catalog with at most one row per description still
      has at most one after any batch. */
  lemma {:induction false} UniquePreserved(s: Store, rows: seq<Record>)
    requires Unique(s.entries)
    ensures Unique(Reconcile(s, rows).entries)
    decreases |rows|
  {
    if rows != [] {
      var n := |rows| - 1;
      UniquePreserved(s, rows[..n]);
      StepKeepsUnique(Reconcile(s, rows[..n]), rows[n]);
    }
  }

  /** Ids stay distinct and ascending in scan order after any batch. */
  lemma {:induction false} IdsAscendingPreserved(s: Store, rows: seq<Record>)
    requires IdsAscending(s.entries)
    ensures IdsAscending(Reconcile(s, rows).entries)
    decreases |rows|
  {
    if rows != [] {
      var n := |rows| - 1;
      IdsAscendingPreserved(s, rows[..n]);
      StepKeepsIdsAscending(Reconcile(s, rows[..n]), rows[n]);
    }
  }

  /** Every description of the batch has a row afterwards, and a lookup by
      it finds the price of the last batch row with that description. */
  lemma {:induction false} LastPriceWins(s: Store, rows: seq<Record>, d: Value)
    requires d in Keys(rows)
    ensures Lookup(Reconcile(s, rows), d).Some?
    ensures Lookup(Reconcile(s, rows), d).value.price == LastPrice(rows, d)
    decreases |rows|
  {
    var n := |rows| - 1;
    var u := Reconcile(s, rows[..n]);
    if rows[n].description == d {
      StepSetsPrice(u, rows[n]);
    } else {
      KeysSnoc(rows);
      LastPriceWins(s, rows[..n], d);
      FindStable(u, Step(u, rows[n]), d);
    }
  }

  /** Every description of the batch has a row afterwards. */
  lemma Covers(s: Store, rows: seq<Record>)
    ensures forall d :: d in Keys(rows) ==> Lookup(Reconcile(s, rows), d).Some?
    ensures forall d :: d in Keys(rows) ==> Lookup(Reconcile(s, rows), d).value.price == LastPrice(rows, d)
  {
    forall d | d in Keys(rows)
      ensures Lookup(Reconcile(s, rows), d).Some? && Lookup(Reconcile(s, rows), d).value.price == LastPrice(rows, d)
    {
      LastPriceWins(s, rows, d);
    }
  }

  /** `LastPrice` is the price of the last occurrence of a description. */
  lemma {:induction false} LastPriceOfLastRow(rows: seq<Record>, k: nat)
    requires k < |rows|
    requires forall j :: k < j < |rows| ==> rows[j].description != rows[k].description
    ensures rows[k].description in Keys(rows)
    ensures LastPrice(rows, rows[k].description) == rows[k].price
    decreases |rows|
  {
    assert rows[k] in rows;
    var n := |rows| - 1;
    if k < n {
      assert rows[..n][k] == rows[k];
      assert rows[k] in rows[..n];
      LastPriceOfLastRow(rows[..n], k);
    }
  }

  /** Last-wins pricing stated on row positions: if row `k` is the last row
      with its description, the catalog afterwards holds a row for that
      description and a lookup finds row `k`'s price. */
  lemma LastWins(s: Store, rows: seq<Record>, k: nat)
    requires k < |rows|
    requires forall j :: k < j < |rows| ==> rows[j].description != rows[k].description
    ensures Lookup(Reconcile(s, rows), rows[k].description).Some?
    ensures Lookup(Reconcile(s, rows), rows[k].description).value.price == rows[k].price
  {
    LastPriceOfLastRow(rows, k);
    LastPriceWins(s, rows, rows[k].description);
  }

  /** The rows `t` holds beyond `s` are fresh: each has a description `s`
      lacked, no two share a description, and each id is above the counter
      and every id of `s`. */
  predicate FreshTail(s: Store, t: Store)
    requires |s.entries| <= |t.entries|
  {
    && (forall i :: |s.entries| <= i < |t.entries| ==> Lookup(s, t.entries[i].description).None?)
    && (forall i, j :: |s.entries| <= i < j < |t.entries| ==> t.entries[i].description != t.entries[j].description)
    && (forall i :: |s.entries| <= i < |t.entries| ==> s.highWater < t.entries[i].id)
    && (forall i, j :: 0 <= j < |s.entries| <= i < |t.entries| ==> s.entries[j].id < t.entries[i].id)
  }

  lemma StepKeepsFreshTail(s: Store, u: Store, row: Record)
    requires Extends(s, u) && FreshTail(s, u)
    ensures Extends(s, Step(u, row)) && FreshTail(s, Step(u, row))
  {
    var t := Step(u, row);
    var d := row.description;
    if |t.entries| > |u.entries| {
      assert Find(u.entries, d).None?;
      if Find(s.entries, d).Some? {
        FindStable(s, u, d);
      }
      InsertFresh(u, row);
      forall i | 0 <= i < |u.entries| ensures t.entries[i] == u.entries[i] {
        assert t.entries[..|u.entries|][i] == t.entries[i];
      }
      forall i | |s.entries| <= i < |u.entries| ensures t.entries[i].description != d {
        assert u.entries[i].description != d;
      }
      forall j | 0 <= j < |s.entries| ensures s.entries[j].id < t.entries[|u.entries|].id {
        assert SameButPrice(s.entries[j], u.entries[j]);
      }
    } else {
      forall i | |s.entries| <= i < |u.entries| ensures SameButPrice(u.entries[i], t.entries[i]) {
      }
    }
  }

  /** No duplicate inserts: every row a batch appends has a description the
      original table lacked, no two appended rows share a description, and
      every appended id is above every id the original table held or
      AUTOINCREMENT had handed out. */
  lemma {:induction false} NoDuplicateInserts(s: Store, rows: seq<Record>)
    ensures FreshTail(s, Reconcile(s, rows))
    decreases |rows|
  {
    if rows != [] {
      var n := |rows| - 1;
      NoDuplicateInserts(s, rows[..n]);
      StepKeepsFreshTail(s, Reconcile(s, rows[..n]), rows[n]);
    }
  }

  /** A description neither the table nor the batch holds is still absent
      afterwards. */
  lemma AbsentStaysAbsent(s: Store, rows: seq<Record>, d: Value)
    requires Lookup(s, d).None? && d !in Keys(rows)
    ensures Lookup(Reconcile(s, rows), d).None?
  {
    var t := Reconcile(s, rows);
    forall i | 0 <= i < |t.entries| ensures t.entries[i].description != d {
      if i < |s.entries| {
        assert SameButPrice(s.entries[i], t.entries[i]);
      }
    }
  }

  /** First-wins quantity and unit: when a description is new to the table,
      its first row in the batch creates the catalog row, whose quantity and
      unit later rows never touch. */
  lemma {:induction false} FirstRowFieldsKept(s: Store, rows: seq<Record>, k: nat)
    requires k < |rows|
    requires Lookup(s, rows[k].description).None?
    requires forall j :: 0 <= j < k ==> rows[j].description != rows[k].description
    ensures var t := Reconcile(s, rows);
      && Find(t.entries, rows[k].description).Some?
      && var i := Find(t.entries, rows[k].description).value;
      && |s.entries| <= i
      && t.entries[i].quantity == rows[k].quantity
      && t.entries[i].uom == rows[k].uom
    decreases |rows|
  {
    var n := |rows| - 1;
    if k == n {
      FirstRowInserts(s, rows);
    } else {
      var pre := rows[..n];
      var d := rows[k].description;
      assert pre[k] == rows[k];
      assert forall j :: 0 <= j < k ==> pre[j] == rows[j];
      FirstRowFieldsKept(s, pre, k);
      var u := Reconcile(s, pre);
      assert Reconcile(s, rows) == Step(u, rows[n]);
      LaterRowKeepsFields(u, rows[n], d);
    }
  }

  /** The last row of a batch, when no earlier row or table row shares its
      description, is inserted with its own quantity and unit. */
  lemma FirstRowInserts(s: Store, rows: seq<Record>)
    requires rows != []
    requires Lookup(s, rows[|rows| - 1].description).None?
    requires forall j :: 0 <= j < |rows| - 1 ==> rows[j].description != rows[|rows| - 1].description
    ensures var t := Reconcile(s, rows);
      && Find(t.entries, rows[|rows| - 1].description).Some?
      && var i := Find(t.entries, rows[|rows| - 1].description).value;
      && |s.entries| <= i
      && t.entries[i].quantity == rows[|rows| - 1].quantity
      && t.entries[i].uom == rows[|rows| - 1].uom
  {
    var n := |rows| - 1;
    var d := rows[n].description;
    assert d !in Keys(rows[..n]);
    var u := Reconcile(s, rows[..n]);
    AbsentStaysAbsent(s, rows[..n], d);
    InsertFresh(u, rows[n]);
  }

  /** A step keeps the position and the non-price fields of the row a
      lookup by `d` finds. */
  lemma LaterRowKeepsFields(u: Store, row: Record, d: Value)
    requires Find(u.entries, d).Some?
    ensures var t := Step(u, row);
      && Find(t.entries, d) == Find(u.entries, d)
      && SameButPrice(u.entries[Find(u.entries, d).value], t.entries[Find(u.entries, d).value])
  {
    FindStable(u, Step(u, row), d);
  }

  /** The number of insert actions in the log equals the number of rows the
      batch added to the table. */
  lemma {:induction false} InsertedCount(s: Store, rows: seq<Record>)
    ensures |Reconcile(s, rows).entries| == |s.entries| + CountInserted(Report(s, rows))
    decreases |rows|
  {
    if rows != [] {
      var n := |rows| - 1;
      InsertedCount(s, rows[..n]);
      var log := Report(s, rows);
      assert log[..n] == Report(s, rows[..n]);
    }
  }

  /** The log of a batch extends the log of its prefix by the last row's entry. */
  lemma ReportSnoc(s: Store, rows: seq<Record>)
    requires rows != []
    ensures var n := |rows| - 1;
      Report(s, rows) == Report(s, rows[..n]) + [(rows[n].description, Decide(Reconcile(s, rows[..n]), rows[n]))]
  {
  }

  /** Prefixes of a prefix are prefixes. */
  lemma PrefixOfPrefix(rows: seq<Record>, n: nat, k: nat)
    requires k < n <= |rows|
    ensures rows[..n][..k] == rows[..k] && rows[..n][k] == rows[k]
  {
  }

  /** Entry k of the log is the branch the loop took for row k against the
      table the earlier rows left: inserted, updated from the stored to the
      row's price, or unchanged, as `Decide` pins down. */
  lemma {:induction false} ReportActions(s: Store, rows: seq<Record>)
    ensures forall k :: 0 <= k < |rows| ==> Report(s, rows)[k].1 == Decide(Reconcile(s, rows[..k]), rows[k])
    decreases |rows|
  {
    if rows != [] {
      var n := |rows| - 1;
      var pre := rows[..n];
      ReportActions(s, pre);
      ReportSnoc(s, rows);
      var log := Report(s, rows);
      assert log[..n] == Report(s, pre);
      forall k | 0 <= k < |rows|
        ensures log[k].1 == Decide(Reconcile(s, rows[..k]), rows[k])
      {
        if k < n {
          PrefixOfPrefix(rows, n, k);
          assert log[k] == Report(s, pre)[k];
        } else {
          assert rows[..k] == pre;
        }
      }
    }
  }

  /** A batch whose every description is already in the table inserts
      nothing: the table keeps its length, counter and log holds no insert. */
  lemma {:induction false} NoInsertWhenCovered(t: Store, rows: seq<Record>)
    requires forall d :: d in Keys(rows) ==> Lookup(t, d).Some?
    ensures |Reconcile(t, rows).entries| == |t.entries|
    ensures Reconcile(t, rows).highWater == t.highWater
    ensures CountInserted(Report(t, rows)) == 0
    decreases |rows|
  {
    if rows != [] {
      var n := |rows| - 1;
      KeysSnoc(rows);
      NoInsertWhenCovered(t, rows[..n]);
      var u := Reconcile(t, rows[..n]);
      FindStable(t, u, rows[n].description);
      var log := Report(t, rows);
      assert log[..n] == Report(t, rows[..n]);
    }
  }

  /** Re-running a batch on its own result inserts nothing, whether or not
      the original table had duplicate descriptions. */
  lemma RerunInsertsNothing(s: Store, rows: seq<Record>)
    ensures var t := Reconcile(s, rows);
      && |Reconcile(t, rows).entries| == |t.entries|
      && Reconcile(t, rows).highWater == t.highWater
      && CountInserted(Report(t, rows)) == 0
  {
    forall d | d in Keys(rows) ensures Lookup(Reconcile(s, rows), d).Some? {
      LastPriceWins(s, rows, d);
    }
    NoInsertWhenCovered(Reconcile(s, rows), rows);
  }

  /** An entry with the batch's last price for its description, when the
      batch mentions it. */
  function Repriced(e: Entry, rows: seq<Record>): Entry {
    if e.description in Keys(rows) then e.(price := LastPrice(rows, e.description)) else e
  }

  /** On a unique table that already holds every description of the batch,
      reconciling only moves each mentioned row's price to the batch's last
      price for it. */
  lemma {:induction false} SettledReconcile(t: Store, rows: seq<Record>)
    requires Unique(t.entries)
    requires forall d :: d in Keys(rows) ==> Lookup(t, d).Some?
    ensures var r := Reconcile(t, rows);
      && r.highWater == t.highWater
      && |r.entries| == |t.entries|
      && forall i :: 0 <= i < |t.entries| ==> r.entries[i] == Repriced(t.entries[i], rows)
    decreases |rows|
  {
    if rows != [] {
      var n := |rows| - 1;
      var row := rows[n];
      var d := row.description;
      KeysSnoc(rows);
      SettledReconcile(t, rows[..n]);
      NoInsertWhenCovered(t, rows[..n]);
      var u := Reconcile(t, rows[..n]);
      FindStable(t, u, d);
      var i := Find(t.entries, d).value;
      var r := Step(u, row);
      forall j | 0 <= j < |t.entries| ensures r.entries[j] == Repriced(t.entries[j], rows) {
        if t.entries[j].description == d {
          assert j == i;
          assert r.entries[j].price == row.price;
          assert SameButPrice(t.entries[j], u.entries[j]);
          assert SameButPrice(u.entries[j], r.entries[j]);
        } else {
          assert r.entries[j] == u.entries[j];
          if t.entries[j].description in Keys(rows) {
            assert t.entries[j].description in Keys(rows[..n]);
          }
        }
      }
    }
  }

  /** Idempotence: on a catalog with at most one row per description,
      reconciling the same batch again leaves the table exactly as the
      first run left it. */
  lemma Idempotent(s: Store, rows: seq<Record>)
    requires Unique(s.entries)
    ensures Reconcile(Reconcile(s, rows), rows) == Reconcile(s, rows)
  {
    var t := Reconcile(s, rows);
    UniquePreserved(s, rows);
    forall d | d in Keys(rows) ensures Lookup(t, d).Some? && Lookup(t, d).value.price == LastPrice(rows, d) {
      LastPriceWins(s, rows, d);
    }
    SettledReconcile(t, rows);
    var r := Reconcile(t, rows);
    forall j | 0 <= j < |t.entries| ensures r.entries[j] == t.entries[j] {
      var d := t.entries[j].description;
      if d in Keys(rows) {
        assert Find(t.entries, d).value == j;
      }
    }
    assert r.entries == t.entries;
  }

  // ---------------------------------------------------------------------
  // What the loop does not promise
  // ---------------------------------------------------------------------

  /** A step against a one-row table that holds the row's description
      sets the price and logs the change, if any. */
  lemma StepOnSingle(e: Entry, hw: int, row: Record)
    requires e.description == row.description
    ensures Decide(Store([e], hw), row) == if e.price != row.price then Updated(e.price, row.price) else Unchanged
    ensures Step(Store([e], hw), row) == Store([e.(price := row.price)], hw)
  {
    assert Find([e], row.description) == Some(0);
    if e.price != row.price {
      assert SetPrice([e], row.description, row.price) == [e.(price := row.price)];
    }
  }

  /** Reconciling the two-row batch `[x, y]` into an empty table, spelled out. */
  lemma TwoRowsIntoEmpty(x: Record, y: Record)
    requires x.description == y.description && x.price != y.price
    ensures Reconcile(EmptyStore, [x, y]) ==
      Store([Entry(1, x.description, x.quantity, x.uom, y.price)], 1)
  {
    assert [x, y][..1] == [x];
    assert [x][..0] == [];
    assert Reconcile(EmptyStore, [x]) == Step(EmptyStore, x);
    assert NextId(EmptyStore) == 1;
    var e := Entry(1, x.description, x.quantity, x.uom, x.price);
    assert Step(EmptyStore, x) == Store([e], 1);
    StepOnSingle(e, 1, y);
  }

  /** Reconciling `[x, y]` again into the table it produced: each row
      finds the other's price, so the table comes back unchanged while the
      log reports two updates. */
  lemma TwoRowsRerun(x: Record, y: Record)
    requires x.description == y.description && x.price != y.price
    ensures var t := Store([Entry(1, x.description, x.quantity, x.uom, y.price)], 1);
      && Reconcile(t, [x, y]) == t
      && Report(t, [x, y]) == [(x.description, Updated(y.price, x.price)), (x.description, Updated(x.price, y.price))]
  {
    var e := Entry(1, x.description, x.quantity, x.uom, y.price);
    var t := Store([e], 1);
    assert [x, y][..1] == [x];
    assert [x][..0] == [];
    StepOnSingle(e, 1, x);
    var u := Store([e.(price := x.price)], 1);
    assert Reconcile(t, [x]) == u;
    StepOnSingle(e.(price := x.price), 1, y);
    assert e.(price := x.price).(price := y.price) == e;
    assert Report(t, [x]) == [(x.description, Updated(y.price, x.price))];
  }

  /** Row order matters: with one description twice in a batch, the
      quantity and unit come from the first row and the price from the
      last, so swapping the two rows gives a different table. */
  lemma OrderMatters()
    ensures var a := Record(Text("Widget A"), Text("10"), Text("EA"), Number(5.5));
            var b := Record(Text("Widget A"), Text("12"), Text("CS"), Number(6.0));
      && Reconcile(EmptyStore, [a, b]).entries == [Entry(1, Text("Widget A"), Text("10"), Text("EA"), Number(6.0))]
      && Reconcile(EmptyStore, [b, a]).entries == [Entry(1, Text("Widget A"), Text("12"), Text("CS"), Number(5.5))]
  {
    var a := Record(Text("Widget A"), Text("10"), Text("EA"), Number(5.5));
    var b := Record(Text("Widget A"), Text("12"), Text("CS"), Number(6.0));
    TwoRowsIntoEmpty(a, b);
    TwoRowsIntoEmpty(b, a);
  }

  /** A re-run of such a batch leaves the table as it was but logs two
      price updates, since the first row meets the last row's price. */
  lemma RerunMayReportUpdates()
    ensures var a := Record(Text("Widget A"), Text("10"), Text("EA"), Number(5.5));
            var b := Record(Text("Widget A"), Text("12"), Text("CS"), Number(6.0));
            var t := Reconcile(EmptyStore, [a, b]);
      && Reconcile(t, [a, b]) == t
      && Report(t, [a, b]) == [(Text("Widget A"), Updated(Number(6.0), Number(5.5))),
                               (Text("Widget A"), Updated(Number(5.5), Number(6.0)))]
  {
    var a := Record(Text("Widget A"), Text("10"), Text("EA"), Number(5.5));
    var b := Record(Text("Widget A"), Text("12"), Text("CS"), Number(6.0));
    TwoRowsIntoEmpty(a, b);
    TwoRowsRerun(a, b);
  }
}
