/** The drop handler `on_drop` as one pure step: from the dropped text, a
    file-system oracle and a sheet decoder to the table afterwards and the
    message the user sees.
 */
module Driver {
  import opened Values
  import opened Extractor
  import opened Catalog
  import opened DropPath
  import ReconcileProps

  /** Why a drop of an accepted path raised instead of saving. */
  datatype Failure =
    | Unreadable                 // `pd.read_excel` raised on the file
    | BadLayout(error: FormatError)

  /** What the user sees: the "File Processed" box with the loop's log, the
      "Unsupported File" box, or an exception escaping the handler. */
  datatype Verdict = Saved(log: seq<(Value, Action)>) | Unsupported | Raised(failure: Failure)

  datatype Outcome = Outcome(store: Store, verdict: Verdict)

  /** Parse a decoded sheet and reconcile its rows into the table, as the
      success branch of `on_drop` does. A save is the batch reconciliation of
      the normalised rows, so every batch lemma applies to it. */
  function Save(s: Store, t: Table): (o: Outcome)
    ensures !o.verdict.Saved? ==> o.store == s
    ensures o.verdict.Saved? <==> Normalise(t).Success?
    ensures o.verdict.Saved? ==>
      && o.store == Reconcile(s, Normalise(t).value)
      && o.verdict.log == Report(s, Normalise(t).value)
      && |o.verdict.log| == |t.rows|
      && Extends(s, o.store)
    ensures o.verdict.Saved? ==>
      forall i :: 0 <= i < |s.entries| && s.entries[i].description !in Keys(Normalise(t).value) ==>
        o.store.entries[i] == s.entries[i]
    ensures o.verdict.Saved? ==>
      forall d :: d in Keys(Normalise(t).value) ==>
        && Lookup(o.store, d).Some?
        && Lookup(o.store, d).value.price == ReconcileProps.LastPrice(Normalise(t).value, d)
    ensures !o.verdict.Saved? ==> Normalise(t).Failure? && o.verdict == Raised(BadLayout(Normalise(t).error))
  {
    match Normalise(t)
    case Failure(e) => Outcome(s, Raised(BadLayout(e)))
    case Success(rows) =>
      ReconcileProps.Covers(s, rows);
      Outcome(Reconcile(s, rows), Saved(Report(s, rows)))
  }

  /** `onDisk` answers `Path.exists()`; `read` stands for `pd.read_excel`
      with its five skipped rows, `None` when it raises. */
  function OnDrop(raw: string, onDisk: string -> bool, read: string -> Option<Table>, s: Store): (o: Outcome)
    ensures o.verdict.Unsupported? <==> Resolve(raw, onDisk).None?
    ensures Resolve(raw, onDisk).None? ==> o.store == s
    ensures !o.verdict.Saved? ==> o.store == s
    ensures Resolve(raw, onDisk).Some? && read(Resolve(raw, onDisk).value).None? ==>
      o.verdict == Raised(Unreadable)
    ensures Resolve(raw, onDisk).Some? && read(Resolve(raw, onDisk).value).Some? ==>
      o == Save(s, read(Resolve(raw, onDisk).value).value)
    ensures o.verdict.Saved? ==>
      && Resolve(raw, onDisk).Some?
      && read(Resolve(raw, onDisk).value).Some?
      && o == Save(s, read(Resolve(raw, onDisk).value).value)
  {
    match Resolve(raw, onDisk)
    case None => Outcome(s, Unsupported)
    case Some(path) =>
      match read(path)
      case None => Outcome(s, Raised(Unreadable))
      case Some(t) => Save(s, t)
  }
}
