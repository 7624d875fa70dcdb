# Qualification Approval Tracker — a Dafny model of its core

The tracker is a single dashboard page over one SQLite table, `qualifications(id, faculty,
qualification, status, date)`. This project models the part of `app.py` that has behaviour
of its own:

- **Status colouring** (`highlight_row`): a status string selects one of four styles —
  red for exactly "Not Submitted", orange for any other status containing "Submitted",
  green for one containing "Approved" or "Registered", none otherwise — and every column of
  the row receives that style.
- **The status filter and its selector**: "All" shows every row; any other option shows
  the rows whose status equals it, in their order. The options are "All" followed by each
  distinct status in order of first appearance.
- **The table** as an id-keyed store (`Store.Table`: a `map<int, Record>` and the
  AUTOINCREMENT counter): seeding seven sample rows only into an empty table, the Save
  loop (one `UPDATE ... WHERE id=?` per edited row), delete by id, and the full read.

Modules: `Strings` (Python's substring test), `Records` (the row types), `Styling`,
`StatusFilter`, `View` (the filtered, styled table) and `Store`.

Modelling decisions:

- `SELECT * FROM qualifications` carries no `ORDER BY`. The model returns rows in ascending
  id order, the order of a full scan of a rowid table.
- AUTOINCREMENT never reuses an id: `nextId` is one past the largest id ever issued, and
  every stored id lies in `[1, nextId)`. A fresh database starts at 1, so seeding it gives
  the ids 1 to 7.
- A row added in the editor's dynamic mode has no id. Its `UPDATE` matches no row, so it is
  modelled as `EditedRow` with `id: Option<int>`, and such a row changes nothing.
- "SAQA Registration" and "CHE Recommendation Approval" contain neither "Approved" nor
  "Registered", so `highlight_row` gives them no style (`Styling.SaqaRegistrationUnstyled`,
  `Styling.CheApprovalUnstyled`).
- Seeding tests `COUNT(*) == 0` (app.py:38-41), so a table whose rows were all deleted is
  seeded again, with ids after the old ones (`Store.Table.Seed`).

## Model

| member | source | states |
|---|---|---|
| `Strings.Contains` | app.py:73-75 | Python's `t in s` as a left-to-right scan; it holds exactly when `t` is a slice of `s` at some position |
| `Strings.MissingCharNotSubstring` | app.py:73-75 | a string lacking one character of `t` does not contain `t` |
| `Strings.OnlyCandidateFails` | app.py:73-75 | a string in which the first character of `t` occurs once, at a position where `t` does not match, does not contain `t` |
| `Styling.Css` | app.py:70-78 | the CSS text of a style: empty exactly for the unstyled case, and every coloured style starts with the white bold base style |
| `Styling.CssInjective` | app.py:70-78 | the four styles render as four different CSS strings |
| `Styling.Classify` | app.py:69-78 | alert iff the status is exactly "Not Submitted"; pending iff it is not that and contains "Submitted"; success iff it lacks "Submitted" and contains "Approved" or "Registered"; no style iff it contains none of the three |
| `Styling.NotSubmittedIsAlert` | app.py:71-74 | "Not Submitted" contains "Submitted", yet it is classified as alert, because the exact test comes first |
| `Styling.HighlightRow` | app.py:69-78 | one style per column of the row, all entries identical, empty exactly when the status selects no style |
| `Styling.HighlightDeterminesClass` | app.py:69-78 | two rows get the same styles iff their statuses are classified alike |
| `Styling.StageSubmittedPending` | app.py:71-74 | any "<stage> Submitted" status other than "Not Submitted" is pending |
| `Styling.SubmittedSamplesPending` | app.py:73-74 | "DHET Submitted" and "CHE Submitted" are pending |
| `Styling.ApprovedSampleSuccess` | app.py:75-76 | "DHET Approved" is success |
| `Styling.SaqaRegistrationUnstyled` | app.py:75-78 | "SAQA Registration" gets no style |
| `Styling.ApprovalIsNotApproved` | app.py:75 | "CHE Recommendation Approval" does not contain "Approved" |
| `Styling.CheApprovalUnstyled` | app.py:75-78 | "CHE Recommendation Approval" gets no style |
| `Styling.EmptyStatusUnstyled` | app.py:77-78 | an empty status gets no style |
| `StatusFilter.WithStatus` | app.py:106 | the filter never returns more rows than it is given |
| `StatusFilter.WithStatusKeepsMatches` | app.py:106 | every kept row has the selected status, and each row with that status is kept as often as it occurs |
| `StatusFilter.WithStatusAppend` | app.py:106 | filtering distributes over concatenation, so rows keep their relative order |
| `StatusFilter.FilterByStatus` | app.py:105-106 | "All" returns the rows unchanged; any other selector returns exactly the rows whose status equals it |
| `StatusFilter.Statuses` | app.py:102 | the status column holds exactly the statuses some row has |
| `StatusFilter.FirstIndex` | app.py:102 | the position of the first occurrence of a value |
| `StatusFilter.Distinct` | app.py:102 | the same values as the input, each once, ordered by first occurrence |
| `StatusFilter.FilterOptions` | app.py:100-103 | "All" first, then each status present in the rows exactly once, in order of first occurrence |
| `StatusFilter.OptionSelectsSomeRow` | app.py:100-106 | every offered option selects at least one row, unless the table is empty and the option is "All" |
| `View.StyledView` | app.py:105-109 | one styled row per shown row, each with one style per column |
| `View.SelectedRowsLookAlike` | app.py:105-108 | with a status selected, all shown rows are styled alike, and selecting "Not Submitted" shows only alert rows |
| `Store.RowsBelow` | app.py:61-65 | the full read of the table, as a scan over ids; it returns no row with an id at or above the bound |
| `Store.RowsBelowMembers` | app.py:61-65 | the read returns exactly the stored rows with ids below a bound, each with its stored fields |
| `Store.RowsBelowAscending` | app.py:61-65 | the read returns rows in strictly ascending id order |
| `Store.RowsBelowCount` | app.py:61-65 | the read returns one row per stored id |
| `Store.InsertedAt` | app.py:52-55 | the rows the `executemany` adds: their ids are exactly the consecutive ids from the start id, one per record (which record sits under which id is stated by `Store.InsertedRowsInListOrder`) |
| `Store.InsertedAtSize` | app.py:52-55 | inserting a list adds one row per record |
| `Store.ConsecutiveRowsInOrder` | app.py:61-65 | a table holding consecutive ids from some start returns its rows in id order |
| `Store.InsertedRowsInListOrder` | app.py:24 | reading back a seeded table returns the inserted records in list order with increasing ids |
| `Store.ApplyEdit` | app.py:134-138 | one UPDATE keeps the set of ids and overwrites the four fields of the row whose id the edited row carries; no id, or an unknown one, changes nothing |
| `Store.ApplyEdits` | app.py:133-139 | the save loop never adds or removes an id |
| `Store.LastEditIndex` | app.py:133-139 | the position of the last edited row carrying an id, or none when no edited row carries it |
| `Store.SaveLastEditWins` | app.py:133-139 | after saving, each stored row holds the fields of the last edited row with its id, or its old fields if no edited row has that id |
| `Store.Table.constructor` | app.py:19-32 | a fresh table is empty and its counter starts at 1 |
| `Store.Table.Load` | app.py:61-65 | one row per stored id, each as stored, in ascending id order |
| `Store.Table.InsertAll` | app.py:52-55 | the table gains the listed records under consecutive ids from the counter, and the counter moves past them |
| `Store.Table.Insert` | app.py:52-55 | the new row gets the counter's id, which is larger than every stored id; nothing else changes |
| `Store.Table.Seed` | app.py:38-57 | an empty table receives the seven sample records under fresh consecutive ids; a non-empty table is left unchanged |
| `Store.Table.Update` | app.py:134-138 | the table becomes `ApplyEdit` of the old table; the counter is unchanged |
| `Store.Table.Save` | app.py:133-139 | the table becomes `ApplyEdits` of the old table; the ids and the counter are unchanged |
| `Store.Table.Delete` | app.py:144-149 | removes exactly the given id; every other row is unchanged; an absent id changes nothing |
| `Store.SeedDeleteSaveScenario` | app.py:38-57 | seeding a fresh database, deleting id 5 and saving an edit of row 1 leaves six rows, none with id 5, and row 1 with the new status and date |

## Left out

- The Streamlit page: configuration, titles, the view/edit toggle, the selector and editor widgets, buttons, success messages and the download button. These are presentation and framework event dispatch.
- Connection handling (`get_connection`, `commit`, `close`, `check_same_thread=False`). The database is the in-memory `Store.Table`. `CREATE TABLE IF NOT EXISTS` is the constructor for a fresh file; on an existing file it changes nothing.
- CSV export (`to_csv(...).encode('utf-8')`). The quoting and encoding rules belong to pandas, whose code is not part of this model, so no CSV round trip is claimed.
- NULL cells. The model treats every field as text. A cell cleared in the editor would be stored as NULL and read back as `None`. With a NULL status, `"Submitted" in row["status"]` (app.py:73) raises `TypeError`, so view mode fails while rendering the table. The model does not cover this failure.
- Database driver errors and concurrent sessions (last write wins). The source has no error path and no concurrency logic.
- Store.Table.Delete: the widget's lower bound of 1 on the entered id is not a precondition. The model deletes any id. Ids below 1 are never stored, so such a delete changes nothing.
- Each edited row's index and any editor-side deletion of rows. The Save loop reads only the edited rows it is given, so rows removed in the editor stay in the table.
- The unused `os` and `openpyxl` imports.
