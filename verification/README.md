# Editable table: the record-collection layer

A Dafny model of the record-collection layer of a browser tool that edits a
table of records kept in local storage. Rendering, events and browser I/O are
left out.

- **Rows** (`rows.dfy`). A `Row` holds five free-text fields: title, date,
  description, tags and value. `Field` names the five data-keys of the
  rendered cells. Only the date column is not editable.
- **Store** (`store.dfy`). The one storage key is either absent or holds the
  saved collection. JSON serialisation is abstracted away, so the slot holds
  the typed `seq<Row>` itself. `Load` reads an absent key as the empty
  collection. `Save` overwrites the slot. `Clear` removes the key.
- **Table** (`table.dfy`). The rendered table as the save handler reads it
  back. Each rendered row is a sequence of cells. A cell is either a data cell
  (its data-key and its text content) or the action cell (`data-cluster`). The
  action cell holds the Save and Delete buttons, and its Delete button carries
  the row's position as `data-index`. `Collect` is the save handler's reduce,
  a left fold from the empty record; `Commit` is its `rows.map`.
- **Mutations** (`mutations.dfy`). Add row, delete row and commit edits. Add
  and delete load the collection, change it in memory and save all of it back.
  Commit never loads: it rebuilds the collection from the rendered table and
  overwrites the store. Deletion follows `splice(index, 1)`: an index past the
  end removes nothing. The module also models a click on a Delete button as
  the listeners are bound (see Findings).
- **Text** and **Csv** (`text.dfy`, `csv.dfy`). `Array.prototype.join`,
  which the export uses, and a split at a character, which the program never
  calls: the model uses it to read the export back line by line. Then the CSV
  export. The export writes a fixed
  header line, then one line per row. Each field is wrapped in double quotes,
  the fields are comma-joined, and the lines are joined with a newline.
  Embedded quotes are not escaped, so the output does not follow rule 7 of
  section 2 of RFC 4180. `ParseCsv` is a reader that belongs to the model,
  not to the program. It is the inverse used to state what the CSV text
  determines.

Every operation is a pure function. The browser clock becomes a parameter:
the add-row date is passed in.

## Model

| member | source | states |
|---|---|---|
| Store.Load | app.js:88-91 | an absent key reads as the empty collection |
| Store.Save | app.js:83-85 | after a save the key is present and reads back exactly the saved collection |
| Store.Clear | app.js:94-96 | after removing the key it is absent and reads as the empty collection |
| Store.SaveOverwrites | app.js:83-91 | a second save replaces the first rather than merging with it: the store equals a single save of the second collection |
| Mutations.AddRow | app.js:30-33 | adding a row gives one more row, leaves the earlier rows unchanged, and the new last row has empty title, description, tags and value and the given date |
| Mutations.AddToEmpty | app.js:30-33 | on an empty store the new row becomes the only row |
| Mutations.Splice | app.js:100 | `splice(index, 1)`: an in-range index drops exactly that element, keeping the elements before it in place and shifting the later ones down by one; an index past the end changes nothing |
| Mutations.SpliceRemovesOne | app.js:100 | the remaining elements plus the removed one are, as a multiset, the original collection |
| Mutations.DeleteRow | app.js:98-101 | for an index below the length, the stored collection is the old one without that element (one row shorter, order kept); otherwise it is unchanged |
| Mutations.AddThenDelete | app.js:30-33 | deleting at the old length right after an add gives back the collection read before the add |
| Mutations.DeleteButtonRemovesItsRow | app.js:20 | the Delete button's data-index is the row's position, and one deleteRow call with it removes exactly stored row j |
| Mutations.DeleteListeners | app.js:10-24 | after rendering n rows, the Delete button of row j carries n - j listeners, one from each later per-row binding pass |
| Mutations.DeleteClickRemovesTail | app.js:49-53 | one click on row j's Delete button as bound runs deleteRow(j) once per listener and leaves only rows 0 to j - 1 |
| Mutations.DeleteClickTwoRows | app.js:49-53 | with two rows, a click on the first row's Delete empties the table, where a single deleteRow call keeps the second row |
| Mutations.CommitEdits | app.js:58-68 | committing stores exactly one row per rendered row |
| Mutations.CommitReplacesWholesale | app.js:58-68 | the result of a commit does not depend on what the store held before |
| Mutations.CommitStoresCellText | app.js:59-68 | stored row i's field k is the text of rendered row i's last cell keyed k |
| Mutations.CommitUnedited | app.js:58-68 | committing an unedited rendering of the stored collection leaves the collection as it was |
| Mutations.CommitOneEdit | app.js:58-68 | committing after typing into one editable cell stores the old collection with only that field of that row changed |
| Table.CollectKeys | app.js:61-66 | a row's record has key k exactly when some data cell of the row is keyed k |
| Table.CollectLast | app.js:61-66 | when several cells share a key, the record holds the text of the last one (later cells overwrite earlier ones) |
| Table.ActionCellsIgnored | app.js:62 | the action cell contributes nothing: the record equals the record of the row's data cells alone |
| Table.CommitFields | app.js:59-67 | field k of committed row i is the text of the row's last cell keyed k, or "undefined" when no cell is keyed k |
| Table.RenderCommit | app.js:12-22 | reading back the rendering of a collection gives that collection: each field's cell is the only cell with its key |
| Table.EditCommit | app.js:58-67 | editing one editable cell of a rendering and reading it back changes exactly that field of that row |
| Table.DeleteIndexIsPosition | app.js:18-21 | every rendered row has six cells: five data cells, then the action cell carrying the row's position |
| Csv.ToCsv | app.js:119-128 | the output starts with the header line, and an empty collection gives the header alone with no trailing newline |
| Csv.HeaderLineText | app.js:119 | the header line is `Title,Date,Description,Tags,Value` |
| Csv.RowLineText | app.js:120-126 | a row's line is its five fields in column order, each wrapped in double quotes, comma-separated, nothing escaped |
| Csv.CsvText | app.js:119-128 | the exact export text of any collection, newlines and quotes in fields included: the header, then for each row a newline and its five quoted fields comma-separated |
| Csv.CsvLines | app.js:119-128 | when no field holds a newline, the output splits at newlines into the header line and then line j+1 for row j, in order, and into nothing else |
| Csv.CsvRoundTrip | app.js:119-128 | when no field holds a double quote, reading the output back gives exactly the collection written |
| Csv.QuotesCollide | app.js:121-125 | with a double quote inside a field, two different collections give the same CSV text |
| Csv.ExportExample | app.js:119-128 | the one-row collection ("A", "d1", "x", "t", "1") exports to the header, a newline and `"A","d1","x","t","1"` |

## Left out

- Table.Render: gives the cell layout of the row template (app.js:12-21), with each field's text as the cell's text content. Browser parsing of HTML markup inside a field value is not modelled, so a field containing markup would read back differently in the browser.
- Table.ToRow: a rendered row without a cell for some key gives a record without that property. The model stores it as a row whose field is the text "undefined", which is what the row template and the CSV template show for an absent property. The JSON export would omit the key instead.
- Table.Edit: models the user typing into one contenteditable cell only. Data cells carry one of the five template keys. Cells with other keys and cells that are neither data cells nor the action cell are never rendered.
- Mutations.DeleteRow: the index is a `nat`. The `data-index` attribute is a string coerced by `splice`, and negative or non-numeric indices are not modelled.
- Mutations.AddRow: the date is a parameter. It stands for `new Date().toLocaleString()` (app.js:30), which depends on the clock and locale. So the model does not promise a non-empty date.
- Store: `localStorage`, `JSON.stringify` and `JSON.parse` are replaced by a typed slot. The parse failure on malformed stored data cannot arise in the model.
- Rendering as DOM side effects (app.js:7-26): clearing and appending elements. Idempotence of rendering holds because `Render` is a function.
- Event-listener binding (app.js:24, 48-57, 75) as DOM operations. Only its count matters: one click on row j's Delete removes rows j to N - 1 (see Findings). Row i's Save button likewise runs the commit N - i times; each run stores the same collection, because a commit does not depend on the store it replaces (Mutations.CommitReplacesWholesale), and only the repeated `alert` differs.
- Focus handling after an add (app.js:36-43) and the `alert` after a save (app.js:69): these are UI side effects.
- The unused `saveButton` lookup (app.js:4).
- JSON export and the Blob, URL and anchor download code (app.js:106-113, 130-135): these are browser I/O and library serialisation.
- Several tabs writing the same key (last write wins): this is concurrency outside the single-actor model.

## Findings

| source | as written | input that shows it | evidently intended | confidence | as-written member | corrected member |
|---|---|---|---|---|---|---|
| app.js:10-24 | `addButtonEventListeners()` runs inside the per-row `forEach`, and each run adds a listener to every Delete button present, so row j's button carries N - j listeners and one click runs `deleteRow(j)` N - j times | two stored rows [a, b], one click on the first row's Delete button: both rows are removed | one click removes only row j, leaving [b] | not executed; follows from the DOM rule that every listener on the target runs, medium | Mutations.DeleteClickRemovesTail | Mutations.DeleteButtonRemovesItsRow |
