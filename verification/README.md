# Price sheet updater — Dafny model

This project models the reconciliation core of `price-sheet-updater.py`.
The script takes a vendor price sheet dropped onto a window and upserts it,
by product description, into the SQLite table `RoofingMaterials`.
The model has three pure parts and a driver that connects them:

- **Row normaliser** (`Extractor`, `parse_excel`). It starts from an
  already decoded sheet: a header of column labels plus rows of optional
  cells. It renames `PRODUCT DESCRIPTION`, `Quantity`, `UOM` and `PRICE` to
  the canonical names and selects those four columns. It fails when one of
  them is missing. Otherwise it emits one record per sheet row, in order.
  An absent cell is defaulted on its own: `""` for the three text fields
  and `0.0` for the price.
- **Reconciler** (`Catalog`, `update_or_insert_sql`). The table is a
  sequence of rows in scan (rowid) order plus the AUTOINCREMENT
  high-water mark. The loop is a left fold of `Step`:
  - look up the first row with the record's description;
  - if there is none, insert the record under a fresh id;
  - if the stored price differs from the record's price (exact
    comparison), rewrite the price of every row with that description;
  - otherwise do nothing.
  `Report` is the per-row action log: one entry per input row. The loop
  prints a line for an insert or an update; an `Unchanged` entry has no
  printed line.
- **Dropped-path cleanup** (`DropPath`, `on_drop`). It strips the dropped
  text and deletes `{` and `}`. If that path does not exist, it falls back
  to `" ".join(s.split())`. It accepts only an existing path whose suffix
  lower-cases to `.xlsx`. File existence is an oracle parameter.
- **Driver** (`Driver`, `on_drop`). It chains the three parts. The sheet
  decoder is a second oracle.

`ReconcileProps`, `ExtractorProps` and `DropPathProps` hold the lemmas.

Behaviour of the code that an upsert's reader might not expect, and that
the model follows:

- Row order matters. When a batch mentions a description twice, the last
  row's price wins. For a description new to the table, the quantity and
  unit come from the first row that inserts it, because later rows only
  touch the price (`ReconcileProps.FirstRowFieldsKept`,
  `ReconcileProps.OrderMatters`). For a description already in the table,
  the quantity and unit stay those of the stored row.
- Re-running a batch leaves the table unchanged
  (`ReconcileProps.Idempotent`). But the log of the re-run can still hold
  updates (`ReconcileProps.RerunMayReportUpdates`).
- The lookup compares only the first matching row's price, but the
  `UPDATE` is keyed on the description. On a table that already holds
  duplicates, one update therefore rewrites them all (`Catalog.Step`,
  `ReconcileProps.ChangeDetection`).
- The script commits once, after the loop. An exception escaping the loop
  leaves that transaction uncommitted, so SQLite rolls it back when the
  connection is dropped. The model has no failures inside the loop, so it
  needs no transactions (see "Left out").
- A sheet column already labelled with a canonical name (for example
  `product_description`) is selected just like the sheet label that is
  renamed to it (`ExtractorProps.RenameFeeds`).

## Model

| member | source | states |
|---|---|---|
| Catalog.MaxId | price-sheet-updater.py:38 | The largest id present bounds every id in the table from above, and is 0 or more. |
| Catalog.Find | price-sheet-updater.py:48-49 | The lookup returns the first row in scan order whose description matches. It returns nothing exactly when no row has that description. |
| Catalog.NextId | price-sheet-updater.py:38 | An AUTOINCREMENT id is above the high-water mark and above every id present. |
| Catalog.Lookup | price-sheet-updater.py:48-49 | A lookup by description returns an entry with that description (the first such row, as `Catalog.Find` states), and nothing exactly when no row has it. |
| Catalog.SetPrice | price-sheet-updater.py:56 | The UPDATE gives the new price to every row with the description and leaves every other row alone. |
| Catalog.Decide | price-sheet-updater.py:47-61 | Inserts exactly when the lookup misses. An update carries the stored price as old and the row's price as new, and they differ. "Unchanged" only when the stored price equals the row's. |
| Catalog.Step | price-sheet-updater.py:44-61 | One iteration deletes nothing. It changes no id, description, quantity or unit. Rows with another description are unchanged, and any appended row carries this row's description. On an update every row with the description, not only the one the lookup found, takes the row's price; when nothing changes the table stays as it was. |
| Catalog.Reconcile | price-sheet-updater.py:44-61 | After the batch, rows are only ever added and only prices change. Rows whose description the batch does not mention are untouched. Every appended row's description comes from the batch. |
| Catalog.Report | price-sheet-updater.py:44-61 | The log has one entry per input row, in input order, each naming that row's description. |
| ReconcileProps.ReportActions | price-sheet-updater.py:47-61 | Log entry k is the branch taken for row k against the table the earlier rows left: inserted when the lookup misses, updated from the stored to the row's price when they differ, unchanged otherwise. |
| ReconcileProps.StepSetsPrice | price-sheet-updater.py:51-61 | After a row is processed, a lookup by its description finds a row with that row's price. |
| ReconcileProps.InsertFresh | price-sheet-updater.py:57-61 | A row with an unseen description appends exactly one table row with all four of its fields, and a lookup then finds it. The new id is above every id present and above the counter; the rest of the table is unchanged. |
| ReconcileProps.ChangeDetection | price-sheet-updater.py:51-56 | For an existing description, the table changes if and only if the stored price differs from the incoming one. On an update every row with that description takes the new price, and no other row changes; otherwise the table stays as it was. |
| ReconcileProps.UniquePreserved | price-sheet-updater.py:44-61 | A table with at most one row per description still has at most one after any batch. |
| ReconcileProps.IdsAscendingPreserved | price-sheet-updater.py:38 | Ids stay strictly increasing in scan order, so ids stay distinct. |
| ReconcileProps.LastPriceWins | price-sheet-updater.py:44-61 | Every description in the batch has a row afterwards, and a lookup finds the last batch price for it. |
| ReconcileProps.Covers | price-sheet-updater.py:44-61 | The all-descriptions form of `LastPriceWins` that `Driver.Save` uses: for every batch description at once, a lookup afterwards finds a row carrying the batch's last price. |
| ReconcileProps.LastPriceOfLastRow | price-sheet-updater.py:44-56 | The last-price function gives the price of the last row with that description. |
| ReconcileProps.LastWins | price-sheet-updater.py:44-61 | If row k is the last with its description, a lookup afterwards finds row k's price. |
| ReconcileProps.NoDuplicateInserts | price-sheet-updater.py:57-61 | Each appended row has a description the table lacked, and no two appended rows share one. Each appended id is above the counter and every original id. |
| ReconcileProps.StepKeepsFreshTail | price-sheet-updater.py:57-61 | One iteration keeps the appended rows fresh, as NoDuplicateInserts states them. |
| ReconcileProps.AbsentStaysAbsent | price-sheet-updater.py:44-61 | A description in neither the table nor the batch is still absent afterwards. |
| ReconcileProps.FirstRowFieldsKept | price-sheet-updater.py:57-61 | For a description new to the table, the row found afterwards is an appended one. Its quantity and unit are those of the first batch row with that description. |
| ReconcileProps.FirstRowInserts | price-sheet-updater.py:57-61 | A last row whose description is new to the table and to earlier rows is inserted with its own quantity and unit. |
| ReconcileProps.LaterRowKeepsFields | price-sheet-updater.py:51-56 | A later row never moves an existing row, and never changes its id, description, quantity or unit. |
| ReconcileProps.InsertedCount | price-sheet-updater.py:57-61 | The number of insert actions in the log equals the number of rows the batch added. |
| ReconcileProps.NoInsertWhenCovered | price-sheet-updater.py:47-61 | A batch whose descriptions are all in the table adds no row, keeps the counter and logs no insert. |
| ReconcileProps.RerunInsertsNothing | price-sheet-updater.py:44-61 | Re-running a batch on its own result inserts nothing, even on a table with duplicate descriptions. |
| ReconcileProps.SettledReconcile | price-sheet-updater.py:44-61 | Take a unique table that holds every description of the batch. Reconciling only sets each mentioned row's price to the batch's last price for it. |
| ReconcileProps.Idempotent | price-sheet-updater.py:44-61 | On a table with at most one row per description, reconciling the same batch again leaves the table as the first run left it. |
| ReconcileProps.TwoRowsIntoEmpty | price-sheet-updater.py:44-61 | Two rows with one description and different prices, into an empty table, give one row: id 1, the first row's quantity and unit, the second row's price. |
| ReconcileProps.StepOnSingle | price-sheet-updater.py:47-56 | Against a one-row table holding the description, a row logs an update exactly when its price differs, and leaves that row with the row's price. |
| ReconcileProps.TwoRowsRerun | price-sheet-updater.py:44-61 | Re-running two rows that share a description on the table they produced leaves it unchanged, yet logs two updates that swap the prices back and forth. |
| ReconcileProps.OrderMatters | price-sheet-updater.py:44-61 | Swapping two rows that share a description gives a different table. |
| ReconcileProps.RerunMayReportUpdates | price-sheet-updater.py:51-56 | A re-run that leaves the table unchanged can still log two updates. |
| Extractor.Rename | price-sheet-updater.py:13-18 | A heading is renamed to a field's canonical name exactly when it is that field's sheet label or already the canonical name; any other heading is kept. |
| Extractor.Positions | price-sheet-updater.py:13-21 | Lists, in increasing order, only columns whose renamed label is the selected name. |
| ExtractorProps.PositionsComplete | price-sheet-updater.py:13-21 | Every column whose renamed label is the selected name is listed. |
| Extractor.Layout | price-sheet-updater.py:21 | A successful selection picks, for each field, a column inside the header that is renamed to that field's name; `ExtractorProps.LayoutMeaning` states when it succeeds. |
| Extractor.MakeRecord | price-sheet-updater.py:24-27 | One record from one row's four selected cells, an absent cell defaulting on its own; the contract is stated over whole sheets by `ExtractorProps.NormaliseCells`. |
| Extractor.Normalise | price-sheet-updater.py:7-29 | On success it emits exactly one record per sheet row. It fails only with the column selection's error, and it succeeds despite a failed selection only for a duplicated column on a sheet with no data rows. |
| ExtractorProps.RenameFeeds | price-sheet-updater.py:13-18 | The rename sends a label to a selected name exactly when that label is the sheet label for it or already the canonical name. |
| ExtractorProps.PositionsMeaning | price-sheet-updater.py:13-21 | No position means no column feeds the name. One position is the only column that feeds it. Several positions mean the name is ambiguous. |
| ExtractorProps.LayoutMeaning | price-sheet-updater.py:13-21 | The column selection succeeds exactly when each of the four fields is fed by exactly one column, and then it picks those columns. It reports a missing column exactly when some field has none, and names such a field. |
| ExtractorProps.NormaliseSucceedsIff | price-sheet-updater.py:13-45 | Normalisation succeeds exactly when each of the four fields has a column feeding it and, if the sheet has data rows, exactly one. |
| ExtractorProps.MissingColumnIff | price-sheet-updater.py:21 | It fails with a missing column exactly when some field has no column feeding it, and the field it reports is one of those. |
| ExtractorProps.NormaliseCells | price-sheet-updater.py:21-27 | Record i comes from sheet row i. Each field is that row's cell in its column, or, when the cell is absent, `""` (text fields) or `0.0` (price), independently per cell. |
| DropPath.TextStart | price-sheet-updater.py:70 | The text starts after a run of whitespace, at a non-space character or at the end. |
| DropPath.TextEnd | price-sheet-updater.py:70 | The text ends before a run of whitespace, after a non-space character or at the start. |
| DropPath.Strip | price-sheet-updater.py:70 | `strip()` never lengthens the path and leaves no whitespace at either end; `DropPathProps.StripTrims` fixes the slice it returns. |
| DropPathProps.StripTrims | price-sheet-updater.py:70 | The stripped path is the slice of the input between two runs of whitespace, with no whitespace at either end. It is empty exactly when the input is all whitespace. |
| DropPath.RemoveBraces | price-sheet-updater.py:70 | The cleaned path contains no `{` or `}`. |
| DropPathProps.RemoveBracesCounts | price-sheet-updater.py:70 | Every character other than a brace keeps its count. |
| DropPathProps.RemoveBracesChar | price-sheet-updater.py:70 | One character is kept exactly when it is not a brace. |
| DropPathProps.RemoveBracesAppend | price-sheet-updater.py:70 | Brace removal distributes over concatenation, so the kept characters stay in their order. |
| DropPath.Clean | price-sheet-updater.py:70 | The cleaned drop text holds no brace. |
| DropPathProps.RemoveBracesFixesIff | price-sheet-updater.py:70 | Brace removal leaves a string unchanged exactly when it holds no brace. |
| DropPath.Word | price-sheet-updater.py:75 | The first word is the longest whitespace-free prefix. |
| DropPath.Words | price-sheet-updater.py:75 | `split()` yields only non-empty, whitespace-free words. |
| DropPathProps.WordsContent | price-sheet-updater.py:75 | The words of `split()`, written one after the other, are the non-whitespace characters of the string, in order. |
| DropPathProps.WordsSplitAtSpace | price-sheet-updater.py:75 | A whitespace character separates words: the words of `a`, a space and `b` are the words of `a` followed by those of `b`. |
| DropPathProps.JoinContent | price-sheet-updater.py:75 | Joining words with spaces adds only whitespace. |
| DropPathProps.CollapseKeepsText | price-sheet-updater.py:75 | The whitespace fallback keeps every non-whitespace character of the path, in order, and adds none. |
| DropPath.Join | price-sheet-updater.py:75 | `" ".join`: its meaning is stated by `DropPathProps.JoinContent`, `DropPathProps.JoinIsCollapsed` and the round trip `DropPathProps.WordsOfJoin`. |
| DropPath.Collapse | price-sheet-updater.py:75 | The whitespace fallback; `DropPathProps.CollapseIsCollapsed`, `DropPathProps.CollapseKeepsText` and `DropPathProps.CollapseFixesIff` state what it yields. |
| DropPathProps.WordOfWord | price-sheet-updater.py:75 | A word followed by whitespace or the end splits off as that word. |
| DropPathProps.WordsOfJoin | price-sheet-updater.py:75 | Splitting a space-joined list of words gives back the list (round trip). |
| DropPathProps.JoinIsCollapsed | price-sheet-updater.py:75 | Joining words gives a spelling with no outer whitespace, only single spaces inside, and no two in a row. |
| DropPathProps.CollapseIsCollapsed | price-sheet-updater.py:75 | The fallback path has no leading or trailing whitespace and no two consecutive spaces. |
| DropPathProps.CollapseKeepsWords | price-sheet-updater.py:75 | Collapsing keeps the list of words. |
| DropPathProps.CollapseIdempotent | price-sheet-updater.py:75 | Collapsing twice is collapsing once. |
| DropPathProps.CollapseFixesIff | price-sheet-updater.py:75 | Collapsing leaves a spelling unchanged exactly when it is already collapsed. |
| DropPathProps.CollapseFixesCollapsed | price-sheet-updater.py:75 | A collapsed spelling is its own collapse. |
| DropPathProps.WordsNoBraces | price-sheet-updater.py:75 | The words of a brace-free string are brace-free. |
| DropPathProps.JoinNoBraces | price-sheet-updater.py:75 | Joining brace-free words gives a brace-free string. |
| DropPathProps.CollapseNoBraces | price-sheet-updater.py:70-75 | The whitespace fallback brings back no brace. |
| DropPath.SlashEnd | price-sheet-updater.py:78 | The path ends here once its trailing separators are dropped. |
| DropPath.Name | price-sheet-updater.py:78 | `Path.name` is the longest separator-free tail of the path without its trailing separators. |
| DropPath.AfterLastSlash | price-sheet-updater.py:78 | The text after the last slash is the longest slash-free tail of the path. |
| DropPath.LastDot | price-sheet-updater.py:78 | `rfind('.')` gives the position of the last dot, or nothing when there is no dot. |
| DropPath.NameSuffix | price-sheet-updater.py:78 | A non-empty suffix is a tail of the file name, shorter than the name, of at least two characters, starting at a dot and holding no other dot. |
| DropPath.Suffix | price-sheet-updater.py:78 | `Path.suffix` is the suffix of `Path.name`; `DropPathProps.XlsxSuffixIff` states when it lower-cases to `.xlsx`. |
| DropPath.Lower | price-sheet-updater.py:78 | ASCII lower-casing keeps the length and maps `A`-`Z` to `a`-`z` position by position. |
| DropPathProps.XlsxSuffixIff | price-sheet-updater.py:78 | The suffix lower-cases to `.xlsx` exactly when the file name ends in `.xlsx`, in any case, after a non-empty stem. |
| DropPathProps.XlsxSuffixSound | price-sheet-updater.py:78 | A file name whose suffix lower-cases to `.xlsx` ends in `.xlsx` after at least one other character. |
| DropPathProps.XlsxSuffixComplete | price-sheet-updater.py:78 | A file name ending in `.xlsx` after at least one other character has a suffix that lower-cases to `.xlsx`. |
| DropPath.Candidate | price-sheet-updater.py:70-75 | The cleaned path if it exists, else its collapsed spelling; `DropPathProps.ResolveIff` states it with the existence test. |
| DropPath.Resolve | price-sheet-updater.py:70-78 | The path `on_drop` parses, or none for "Unsupported File"; `DropPathProps.ResolveIff` and `DropPathProps.ResolvedShape` state which paths are accepted. |
| DropPathProps.ResolveIff | price-sheet-updater.py:70-78 | A path is processed exactly when it exists and its name ends in `.xlsx`. It is either the cleaned path, or the collapsed spelling of a cleaned path that does not exist. |
| DropPathProps.ResolvedShape | price-sheet-updater.py:70-78 | An accepted path has no brace. When it is the fallback, it is collapsed. |
| Driver.Save | price-sheet-updater.py:80-82 | Saving succeeds exactly when normalisation does. A save is the batch reconciliation of the sheet's records, so the log has one entry per sheet row, the table only grows and changes prices, rows the sheet does not mention are untouched, and a lookup finds each sheet description with its last price in the sheet. On failure the table is untouched and the layout error is raised. |
| Driver.OnDrop | price-sheet-updater.py:68-84 | "Unsupported File" exactly when no path is accepted. An accepted path whose sheet cannot be read raises; one whose sheet is read is parsed and reconciled exactly as `Save` does. Any outcome other than a save leaves the table untouched. |

## Left out

- The Tk window, drag-and-drop binding, `mainloop` and message boxes (lines 1-2, 86-98). This is user-interface plumbing. The model's `Verdict` says only which box would show.
- SQLite itself: the connection, SQL text, `CREATE TABLE`, `commit` and `close` (lines 33-42, 63-66). An in-memory sequence of rows replaces the table. SQLite type affinity is not modelled either: a number stored in a TEXT column, or text in the REAL column, is kept as given.
- Failures inside the loop: the model has none. In the script, a cell sqlite3 cannot bind (a time-of-day cell, say), SQLITE_FULL, or a locked or read-only database raises at an INSERT or UPDATE (lines 48-60); the exception leaves the transaction uncommitted, so every earlier insert and update of the batch is rolled back. None of these failures, nor the roll-back, is modelled. The one loop failure the model does report, the row unpacking, comes from `Extractor.Normalise` before any row is reconciled.
- Catalog.NextId: ids are unbounded integers. SQLite's AUTOINCREMENT ids are 64-bit, and an INSERT fails with SQLITE_FULL once the largest id is 2^63-1; the model never runs out of ids.
- Cell types: `Value` holds only text and numbers (exact reals). Dates, times, booleans and other cell types a sheet can hold have no counterpart.
- `pd.read_excel` byte decoding and its five skipped header rows (line 9). This is a library call. The model starts from the decoded table, and the `read` parameter of `Driver.OnDrop` stands for the call.
- `Path.exists()` (lines 74, 78). It is the `onDisk` oracle parameter.
- Floating point. Cells are text or exact reals compared with `==`, so rounding, NaN and signed zero do not arise.
- The debug `print`s (lines 10, 28, 55, 59, 66). Only the per-row action log is kept, as `Catalog.Report`.
- Unicode details of `str.strip`, `str.split` and `str.lower`. The model uses the ASCII whitespace set of `str.isspace` and ASCII case mapping.
- `Path` normalisation and Windows separators. `/` is the only separator, and `Path.name` drops trailing separators only.
- Extractor.Normalise: when two sheet columns end up under the same selected name, pandas returns both, and the unpacking at line 45 fails later, on the first row. The model reports `DuplicateColumn` from the normaliser instead, before any row is reconciled; on a sheet with no data rows the unpacking never runs, and the model then returns the empty batch, as the script saves nothing and shows "File Processed".
- ReconcileProps.Idempotent: assumes the table already holds at most one row per description. The reconciler maintains that invariant, and `ReconcileProps.RerunInsertsNothing` covers the general case for inserts.
