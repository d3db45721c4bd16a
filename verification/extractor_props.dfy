/** Properties of the normaliser in `Extractor`, stated in terms of the
    sheet's own column headings: when it fails, and what each emitted field
    holds.
 */
module ExtractorProps {
  import opened Values
  import opened Extractor

  /** Some column of the sheet ends up under field `f`. */
  predicate HasColumn(header: seq<string>, f: Field) {
    exists j :: 0 <= j < |header| && Feeds(header[j], f)
  }

  /** Exactly one column of the sheet ends up under field `f`, at `j`. */
  predicate OnlyColumn(header: seq<string>, f: Field, j: nat) {
    && j < |header| && Feeds(header[j], f)
    && forall j' :: 0 <= j' < |header| && Feeds(header[j'], f) ==> j' == j
  }

  /** Exactly one column of the sheet ends up under field `f`. */
  predicate Unambiguous(header: seq<string>, f: Field) {
    exists j :: 0 <= j < |header| && OnlyColumn(header, f, j)
  }

  /** The rename sends a heading to a field's canonical name exactly when
      that heading feeds the field. */
  lemma RenameFeeds(heading: string, f: Field)
    ensures Rename(heading) == ColumnName(f) <==> Feeds(heading, f)
  {
  }

  /** Every column renamed to `name` is listed by `Positions`. */
  lemma {:induction false} PositionsComplete(header: seq<string>, name: string, j: nat)
    requires j < |header| && Rename(header[j]) == name
    ensures j in Positions(header, name)
    decreases |header|
  {
    var n := |header| - 1;
    var pre := Positions(header[..n], name);
    var last: seq<nat> := if Rename(header[n]) == name then [n] else [];
    assert Positions(header, name) == pre + last;
    if j < n {
      assert header[..n][j] == header[j];
      PositionsComplete(header[..n], name, j);
      assert j in pre;
    } else {
      assert last == [n];
    }
  }

  /** A column feeding `f` is listed among the positions of its name. */
  lemma FeedsListed(header: seq<string>, f: Field, j: nat)
    requires j < |header| && Feeds(header[j], f)
    ensures j in Positions(header, ColumnName(f))
  {
    RenameFeeds(header[j], f);
    PositionsComplete(header, ColumnName(f), j);
  }

  /** Every listed position is a column feeding `f`. */
  lemma ListedFeeds(header: seq<string>, f: Field, k: nat)
    requires k < |Positions(header, ColumnName(f))|
    ensures Positions(header, ColumnName(f))[k] < |header|
    ensures Feeds(header[Positions(header, ColumnName(f))[k]], f)
  {
    RenameFeeds(header[Positions(header, ColumnName(f))[k]], f);
  }

  /** No position is listed exactly when no column feeds `f`. */
  lemma NoneListed(header: seq<string>, f: Field)
    ensures |Positions(header, ColumnName(f))| == 0 <==> !HasColumn(header, f)
  {
    if HasColumn(header, f) {
      var j :| 0 <= j < |header| && Feeds(header[j], f);
      FeedsListed(header, f, j);
    }
    if |Positions(header, ColumnName(f))| > 0 {
      ListedFeeds(header, f, 0);
    }
  }

  /** A single listed position is the only column feeding `f`. */
  lemma OneListed(header: seq<string>, f: Field)
    requires |Positions(header, ColumnName(f))| == 1
    ensures OnlyColumn(header, f, Positions(header, ColumnName(f))[0])
  {
    var ps := Positions(header, ColumnName(f));
    ListedFeeds(header, f, 0);
    forall j' | 0 <= j' < |header| && Feeds(header[j'], f) ensures j' == ps[0] {
      FeedsListed(header, f, j');
    }
  }

  /** Two listed positions are two columns feeding `f`. */
  lemma ManyListed(header: seq<string>, f: Field)
    requires |Positions(header, ColumnName(f))| > 1
    ensures !Unambiguous(header, f)
  {
    var ps := Positions(header, ColumnName(f));
    ListedFeeds(header, f, 0);
    ListedFeeds(header, f, 1);
    assert ps[0] < ps[1];
  }

  /** Reading the count of `Positions` in terms of the sheet's headings. */
  lemma PositionsMeaning(header: seq<string>, f: Field)
    ensures |Positions(header, ColumnName(f))| == 0 <==> !HasColumn(header, f)
    ensures |Positions(header, ColumnName(f))| == 1 ==> OnlyColumn(header, f, Positions(header, ColumnName(f))[0])
    ensures |Positions(header, ColumnName(f))| > 1 ==> !Unambiguous(header, f)
  {
    NoneListed(header, f);
    if |Positions(header, ColumnName(f))| == 1 {
      OneListed(header, f);
    } else if |Positions(header, ColumnName(f))| > 1 {
      ManyListed(header, f);
    }
  }

  /** What the column selection does, per field. */
  lemma LayoutMeaning(header: seq<string>)
    ensures Layout(header).Success? <==>
      && Unambiguous(header, Description) && Unambiguous(header, Quantity)
      && Unambiguous(header, Uom) && Unambiguous(header, Price)
    ensures (Layout(header).Failure? && Layout(header).error.MissingColumn?) <==>
      || !HasColumn(header, Description) || !HasColumn(header, Quantity)
      || !HasColumn(header, Uom) || !HasColumn(header, Price)
    ensures Layout(header).Failure? && Layout(header).error.MissingColumn? ==>
      !HasColumn(header, Layout(header).error.field)
    ensures Layout(header).Success? ==>
      var c := Layout(header).value;
      && OnlyColumn(header, Description, c.description) && OnlyColumn(header, Quantity, c.quantity)
      && OnlyColumn(header, Uom, c.uom) && OnlyColumn(header, Price, c.price)
  {
    PositionsMeaning(header, Description);
    PositionsMeaning(header, Quantity);
    PositionsMeaning(header, Uom);
    PositionsMeaning(header, Price);
  }

  /** The normaliser succeeds exactly when every field has a column feeding
      it and, if the sheet has data rows, exactly one. */
  lemma NormaliseSucceedsIff(t: Table)
    ensures Normalise(t).Success? <==>
      && HasColumn(t.header, Description) && HasColumn(t.header, Quantity)
      && HasColumn(t.header, Uom) && HasColumn(t.header, Price)
      && (t.rows == [] || AllUnambiguous(t.header))
  {
    LayoutMeaning(t.header);
    UnambiguousHasColumn(t.header, Description);
    UnambiguousHasColumn(t.header, Quantity);
    UnambiguousHasColumn(t.header, Uom);
    UnambiguousHasColumn(t.header, Price);
  }

  /** Each of the four fields is fed by exactly one column. */
  predicate AllUnambiguous(header: seq<string>) {
    && Unambiguous(header, Description) && Unambiguous(header, Quantity)
    && Unambiguous(header, Uom) && Unambiguous(header, Price)
  }

  /** A field fed by exactly one column is fed by some column. */
  lemma UnambiguousHasColumn(header: seq<string>, f: Field)
    ensures Unambiguous(header, f) ==> HasColumn(header, f)
  {
  }

  /** It fails with a missing column exactly when some field has no column
      feeding it, and the field it reports is one of those. */
  lemma MissingColumnIff(t: Table)
    ensures (Normalise(t).Failure? && Normalise(t).error.MissingColumn?) <==>
      || !HasColumn(t.header, Description) || !HasColumn(t.header, Quantity)
      || !HasColumn(t.header, Uom) || !HasColumn(t.header, Price)
    ensures Normalise(t).Failure? && Normalise(t).error.MissingColumn? ==>
      !HasColumn(t.header, Normalise(t).error.field)
  {
    LayoutMeaning(t.header);
  }

  /** Each emitted record comes from the sheet row at the same position, and
      each of its fields is that row's cell in the column feeding it, or the
      field's default (empty text, or a zero price) when the cell is absent. */
  lemma NormaliseCells(t: Table, i: nat, jd: nat, jq: nat, ju: nat, jp: nat)
    requires i < |t.rows|
    requires OnlyColumn(t.header, Description, jd) && OnlyColumn(t.header, Quantity, jq)
    requires OnlyColumn(t.header, Uom, ju) && OnlyColumn(t.header, Price, jp)
    ensures Normalise(t).Success? && |Normalise(t).value| == |t.rows|
    ensures var rec := Normalise(t).value[i]; var row := t.rows[i];
      && (if jd < |row| && row[jd].Some? then rec.description == row[jd].value else rec.description == Text(""))
      && (if jq < |row| && row[jq].Some? then rec.quantity == row[jq].value else rec.quantity == Text(""))
      && (if ju < |row| && row[ju].Some? then rec.uom == row[ju].value else rec.uom == Text(""))
      && (if jp < |row| && row[jp].Some? then rec.price == row[jp].value else rec.price == Number(0.0))
  {
    LayoutMeaning(t.header);
    var c := Layout(t.header).value;
    assert c == Columns(jd, jq, ju, jp);
    assert Normalise(t).value[i] == MakeRecord(t.rows[i], c);
  }
}
