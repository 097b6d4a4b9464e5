# Roll-record lifecycle of GestProdAdmin

This project models, in Dafny, how the production-management application
keeps its paper-roll records ("bobinas"). A record has an integer `id`,
a shift (`turno`), four measures (`ancho`, `diametro`, `gramaje`, `peso`),
a roll number, an optional sequence, a work order (`of`), a date, an
optional quality code and description, and a creation timestamp.

Records live in a table of current records (`bobina`, or `bobinas` in the
utility store). They are listed newest first and filtered by search
fields. They are also checked in a table on the main screen, exported to a
CSV file and moved to a history table (`bobina_h`), deleted, or added
through a form.

The repository holds several versions of this core, and each is modelled
as written:

- `ModelsDb` is models/database_manager.py. Its filter compares measures
  and the id exactly and matches the other columns by `LOWER(col) LIKE`.
  Its history rows get fresh ids.
- `Views` is views/main_screen.py, the screen built on `ModelsDb`. It has
  selection, two buttons, export then move, delete, and the new-record
  form.
- `AppComp` is app_comp.py, a single-file version. Its history keeps the
  live ids as primary key, `bobina_num` is UNIQUE, the store writes the
  export itself, and the screen filters in memory.
- `UtilsDb` is utils/database_manager.py. Every filter is `col LIKE
  '%v%'`, and delete reports whether a row went away.

Shared modules:

- `Rolls` holds the record, its columns, and the table operations.
- `Text` holds ASCII lower-casing, substring, SQL `LIKE`, and the
  decimal number parser and printer.
- `Screen` holds the table rows and the selection list.
- `Options` holds the option type.

How the model stands for the database and the outside world:

- A table is a sequence of records in storage order, which is ascending
  id order.
- `ORDER BY id DESC` is `NewestFirst`.
- An AUTOINCREMENT counter is a field.
- A transaction works on local values and assigns them only at commit.
- A database error or an I/O failure is a boolean parameter (`fault`,
  `readFault`, `writeOk`, `moveFault`).
- Clocks are string parameters (`now`, `stamp`).
- Python's `str(float)` and SQLite's REAL-to-TEXT conversion are the
  function parameter `showReal`.

## Model

| member | source | states |
|---|---|---|
| Text.LikeIsContains | models/database_manager.py:153-155 | for a value without `%` or `_`, `LOWER(col) LIKE '%v%'` holds iff v occurs in the column's text, ignoring ASCII case |
| Text.LowerIdempotent | models/database_manager.py:154 | lower-casing a lower-cased text changes nothing |
| Text.ContainsAt | app_comp.py:542 | Python's `in` on strings holds iff the needle occurs at some position |
| Text.LikeAnything | utils/database_manager.py:153-154 | the pattern `%` matches every text |
| Text.LikePrefix | utils/database_manager.py:153-154 | a wildcard-free value followed by `%` matches exactly the texts that start with it, ignoring ASCII case |
| Text.ParseShowInt | models/database_manager.py:146 | `int()` reads back every integer written in decimal |
| Text.ParseFloatWhole | models/database_manager.py:137 | `float()` of a digit string is its integer value |
| Text.ParseFloatPointZero | models/database_manager.py:137 | `float()` of "n.0" is n |
| Text.ParseShowNat | views/main_screen.py:627-634 | `float()` reads back a natural number's decimal text as that number |
| Text.ShowNatValue | utils/database_manager.py:153 | the decimal text of a natural number has that value |
| Text.ShowNat | utils/database_manager.py:153 | the decimal text of a natural number is a non-empty digit string |
| Rolls.ExportRows | app_comp.py:111-126 | one exported line per record, in order, each the record's 13 cells in column order |
| Rolls.ExportRowRoundTrip | app_comp.py:104-126 | the 13 typed cells handed to the CSV writer for a record read back as that very record |
| Rolls.ExportRowCells | app_comp.py:111-126 | the cells handed to the CSV writer are the record's 13 cells in column order, with NULL for a missing optional field |
| Rolls.Where | models/database_manager.py:157-166 | a WHERE clause keeps exactly the rows satisfying it and no more rows than the table has |
| Rolls.NewestFirst | models/database_manager.py:96 | `ORDER BY id DESC` lists the table's rows in reverse storage order |
| Rolls.NewestFirstSpec | models/database_manager.py:96-102 | on a table with ascending ids, newest-first has strictly decreasing ids and holds every row exactly once |
| Rolls.NewestFirstMembers | models/database_manager.py:96 | newest first lists exactly the table's rows |
| Rolls.WhereConcat | app_comp.py:538-548 | filtering a concatenation filters each part |
| Rolls.WhereAscending | models/database_manager.py:157-166 | filtering keeps ids ascending |
| Rolls.WhereNewestFirst | models/database_manager.py:162-163 | filtering and then sorting newest first is the same as sorting and then filtering |
| Rolls.SplitByIds | models/database_manager.py:269-287 | the selected rows and the remaining rows together are the table, as a multiset |
| Rolls.WithIdsMembers | models/database_manager.py:230-239 | `id IN (ids)` keeps a row iff its id is listed; `NOT IN` keeps the rest |
| Screen.ActiveFiltersSpec | views/main_screen.py:250-258 | the filter map holds exactly the non-empty search fields, lowercased, and is empty iff no field is filled |
| Screen.ActiveFiltersComplete | views/main_screen.py:250-253 | every filled search field contributes its lowercased value under its column |
| Screen.ActiveFiltersSound | views/main_screen.py:250-253 | every filter comes from a filled search field |
| Screen.BuildFilters | views/main_screen.py:250-253 | the loop over the search fields builds exactly that filter map |
| Screen.FreshRows | views/main_screen.py:177-210 | `update_table` shows one unchecked row per record, in the given order |
| Screen.RowIds | views/main_screen.py:235-239 | the ids of the table rows, in row order |
| Screen.RemoveFirstSpec | views/main_screen.py:218-219 | `list.remove` of a present id keeps a duplicate-free list duplicate-free and drops only that id |
| Screen.ToggleSpec | views/main_screen.py:214-219 | checking adds the id once, unchecking removes only it, and the selection stays duplicate-free |
| Screen.SelectAll | views/main_screen.py:229-239 | every row takes the header's value; the selection is every row id in order when checked, empty otherwise |
| Screen.SelectAllDistinct | views/main_screen.py:177-210 | the rows of a table ordered by id have distinct ids |
| ModelsDb.BuildConditions | models/database_manager.py:133-155 | the loop builds exactly one condition per usable filter, in order |
| ModelsDb.ConditionOfMeaning | models/database_manager.py:135-155 | a measure or id filter that parses is exact equality and one that does not parse adds nothing; any other column is a case-insensitive substring test |
| ModelsDb.ConditionsMeaning | models/database_manager.py:133-162 | the AND of the built conditions holds iff every filter keeps the record |
| ModelsDb.AllHoldConcat | models/database_manager.py:162 | the AND of two condition lists is the AND of each |
| ModelsDb.KeepsAllSnoc | models/database_manager.py:133 | one more filter keeps a record iff the others and it keep it |
| ModelsDb.MatchingNothing | models/database_manager.py:157-159 | with no condition every row matches |
| ModelsDb.MatchingAscending | models/database_manager.py:162-166 | the matching rows keep ascending ids |
| ModelsDb.MatchingMembers | models/database_manager.py:157-166 | for wildcard-free values a row matches iff it is in the table and every filter keeps it |
| ModelsDb.FilterResult | models/database_manager.py:157-177 | the result is newest first, holds exactly the records every filter keeps, and with no surviving condition equals the full listing |
| ModelsDb.MaxId | models/database_manager.py:284 | the largest history id, which the next fresh id exceeds, is never negative |
| ModelsDb.MaxIdBound | models/database_manager.py:284 | no history id exceeds that largest id |
| ModelsDb.Archive | models/database_manager.py:273-284 | appending the copies adds exactly one history row per moved record |
| ModelsDb.ArchiveMaxId | models/database_manager.py:273-284 | each copy raises the largest history id by one |
| ModelsDb.ArchivePrefix | models/database_manager.py:273-284 | the old history rows stay in front, unchanged |
| ModelsDb.ArchiveLast | models/database_manager.py:273-284 | the last INSERT keeps the rows before it and takes the old largest id plus the number of moved records |
| ModelsDb.ArchiveAt | models/database_manager.py:273-284 | copy k is the k-th record under id max+1+k, stamped with the insertion time |
| ModelsDb.ArchiveSpec | models/database_manager.py:273-284 | each copy has the record's data, the insertion time and an id above every old one; history ids stay distinct |
| ModelsDb.ArchiveKeepsDistinct | models/database_manager.py:273-284 | history ids stay distinct |
| ModelsDb.ArchiveStep | models/database_manager.py:273-284 | one more INSERT appends the next copy |
| ModelsDb.RemovalKeepsIds | models/database_manager.py:287 | the DELETE keeps live ids ascending and under the counter |
| ModelsDb.InsertCopies | models/database_manager.py:273-284 | the INSERT loop succeeds iff the history table exists or there is nothing to copy, and then yields exactly the archived history |
| ModelsDb.DatabaseManager.constructor | models/database_manager.py:8-43 | a new database has an empty `bobina`, a zero counter and no history table |
| ModelsDb.DatabaseManager.WithHistoryTable | models/database_manager.py:8-43 | the corrected initialisation also creates an empty `bobina_h` |
| ModelsDb.DatabaseManager.AddBobina | models/database_manager.py:45-80 | on success the record is appended under the next id with `created_at` stamped; on failure nothing changes |
| ModelsDb.DatabaseManager.GetAllBobinas | models/database_manager.py:82-110 | every live record exactly once, ids strictly decreasing; `[]` on an error |
| ModelsDb.DatabaseManager.FilterBobinas | models/database_manager.py:112-179 | a failed connection gives None (the implicit return); with no surviving condition it is `get_all_bobinas()`; otherwise it is the matching records newest first, or None when the query fails |
| ModelsDb.DatabaseManager.DeleteBobinas | models/database_manager.py:181-211 | on success no listed id remains and every other record is unchanged, even when nothing matched; on an error nothing changes |
| ModelsDb.DatabaseManager.GetBobinasByIds | models/database_manager.py:213-247 | exactly the live records whose id is listed; unmatched ids are omitted; `[]` on an error |
| ModelsDb.DatabaseManager.MoveToHistoric | models/database_manager.py:249-298 | on success the matched records leave `bobina` and their copies with fresh ids are appended to `bobina_h`; any failure leaves both tables unchanged |
| ModelsDb.MoveSplitsLive | models/database_manager.py:269-287 | the moved records and the remaining ones partition the live table |
| ModelsDb.ArchiveOnNewDatabase | models/database_manager.py:18-43 | on a database that `_init_db` created, moving an existing record fails and leaves it live |
| ModelsDb.ArchiveWithHistoryTable | models/database_manager.py:249-298 | with `bobina_h` created, the same record moves into the history and leaves `bobina` empty |
| UtilsDb.CellText | utils/database_manager.py:153 | LIKE sees a cell's text; a NULL cell has none |
| UtilsDb.LikeConditions | utils/database_manager.py:152-154 | one `col LIKE '%value%'` condition per filter, in order |
| UtilsDb.AllLikeMeaning | utils/database_manager.py:152-156 | for wildcard-free values the WHERE clause holds iff every filtered column contains its value, ignoring case |
| UtilsDb.IdFilterFindsItself | utils/database_manager.py:153-154 | an id filter holding the id's own digits keeps that record |
| UtilsDb.ShowIntNoWildcards | utils/database_manager.py:153-154 | a number's text contains no LIKE wildcard |
| UtilsDb.DatabaseManager.constructor | utils/database_manager.py:29-60 | a new database has an empty `bobinas` |
| UtilsDb.DatabaseManager.GetBobinas | utils/database_manager.py:66-83 | every record newest first, each exactly once; `[]` on an error |
| UtilsDb.DatabaseManager.AddBobina | utils/database_manager.py:85-109 | on success the record is appended under the next id; on failure nothing changes |
| UtilsDb.DatabaseManager.DeleteBobinas | utils/database_manager.py:111-136 | an empty list is refused without touching the table; the result is true iff some listed record existed and was removed; the rest stays |
| UtilsDb.DatabaseManager.FilterBobinas | utils/database_manager.py:138-174 | no filter is `get_bobinas()`; otherwise the records matching every LIKE condition, newest first; `[]` on an error |
| UtilsDb.FilterResult | utils/database_manager.py:152-168 | for wildcard-free values the result is newest first and holds exactly the records whose filtered columns all contain their values, ignoring case |
| AppComp.Copies | app_comp.py:129-140 | one history row per moved record, with the same id and data |
| AppComp.CopiesKeepDistinct | app_comp.py:43 | copies whose ids the history lacks keep the history's primary key unique |
| AppComp.HistIdsAppend | app_comp.py:129-140 | the history keys after the INSERTs are the old keys plus the moved ids |
| AppComp.ConflictWithOldRow | app_comp.py:129-140 | an INSERT can only collide with a row the history already had |
| AppComp.ConflictFreeStep | app_comp.py:129-140 | a conflict-free INSERT appends the next copy |
| AppComp.ExportMatchesHistory | app_comp.py:103-140 | the cells handed to the writer for each exported record read back as the history row copied beside it |
| AppComp.DisjointIdsNoConflict | app_comp.py:129-140 | when no live id is in the history, the INSERTs never hit its primary key |
| AppComp.MoveKeepsIdsApart | app_comp.py:129-145 | a completed move keeps live and history ids apart |
| AppComp.DatabaseManager.constructor | app_comp.py:12-61 | `CREATE TABLE IF NOT EXISTS` keeps existing tables as they are |
| AppComp.DatabaseManager.GetAllBobinas | app_comp.py:63-78 | every live record, in storage order |
| AppComp.WriteLines | app_comp.py:111-126 | the writer loop emits one line per selected record, in order |
| AppComp.InsertRows | app_comp.py:129-140 | the INSERT loop succeeds iff no moved id is already in the history, and then appends exactly the copies |
| AppComp.DatabaseManager.MoveToHistoryAndExport | app_comp.py:80-154 | empty selection and nothing found change nothing; otherwise the file is written first, then either every matched record moves to the history with its id (count reported) or a conflict or error rolls back both tables |
| AppComp.KeptSnoc | app_comp.py:539-548 | filtering one more row appends it iff it passes every filter |
| AppComp.RowMatches | app_comp.py:540-545 | the inner loop with `break` decides that every filter value occurs in the row's cell text |
| AppComp.FilterInMemory | app_comp.py:538-548 | the kept rows are the subsequence of rows passing every filter, in their order |
| AppComp.InMemoryAgreesWithSql | app_comp.py:539-548 | on a non-null text column and a wildcard-free value, the in-memory test and the SQL `LOWER(col) LIKE` test agree |
| AppComp.NullReadsAsNone | app_comp.py:542 | a NULL cell reads as "None", so the filter "none" keeps it |
| AppComp.MainScreen.constructor | app_comp.py:326-379 | an empty table, nothing selected, and the button enabled |
| AppComp.MainScreen.LoadData | app_comp.py:429-489 | the table shows every record unchecked; the selection stays |
| AppComp.MainScreen.CheckboxChanged | app_comp.py:491-502 | the selection gains or loses the row's id without duplicates; the button is disabled iff nothing is selected |
| AppComp.MainScreen.SelectAllChanged | app_comp.py:504-520 | every row takes the header's value; the selection is every row id or nothing; the button follows it |
| AppComp.MainScreen.ApplyFilters | app_comp.py:522-551 | no filled field reloads everything; otherwise the rows passing the in-memory filter, in storage order |
| AppComp.MainScreen.ConfirmExport | app_comp.py:553-579 | with nothing selected only a warning; otherwise a confirmation naming the count |
| AppComp.MainScreen.ExportData | app_comp.py:586-622 | for the current selection: nothing selected or nothing found changes nothing; otherwise the export file is written iff the write succeeds, and the move completes (count and file name reported, records moved with their ids) iff the write succeeded, no error occurred and no moved id is already in the history; otherwise it fails and both tables stay |
| AppComp.MainScreen.ProcessResult | app_comp.py:624-631 | on success the selection is cleared and the table reloaded; otherwise nothing changes |
| AppComp.ReloadShowsNoMovedId | app_comp.py:624-631 | after a completed move the reloaded table shows none of the moved ids |
| Views.Required | views/main_screen.py:610-619 | the eight required fields, in the order they are checked |
| Views.FirstMissing | views/main_screen.py:621-624 | the reported label belongs to an empty field with every earlier field filled; none is reported iff all are filled |
| Views.FirstMissingAt | views/main_screen.py:621-624 | the first empty field is the one reported |
| Views.RequiredFilled | views/main_screen.py:621-624 | no field is reported missing iff all eight required fields are filled |
| Views.ValidateForm | views/main_screen.py:607-634 | the loop stops at the first empty required field, then a measure that is not a number refuses the form |
| Views.ValidateAccepts | views/main_screen.py:610-634 | the form is accepted iff every required field is filled and every measure parses |
| Views.FormRoundTrip | views/main_screen.py:607-673 | a record with filled text fields and whole measures, typed in, is accepted unchanged, and its optional fields pass through |
| Views.ShownMeaning | views/main_screen.py:247-283 | after a successful query the table holds, newest first, exactly the records every filter keeps |
| Views.ShownDistinct | views/main_screen.py:177-210 | the shown records have strictly decreasing ids |
| Views.ExportMatchesHistory | views/main_screen.py:351-380 | the cells handed to the writer for each exported record read back as that record, and its history copy has the same data |
| Views.MainScreen.constructor | views/main_screen.py:11-74 | an empty table, nothing selected, both buttons disabled |
| Views.MainScreen.LoadData | views/main_screen.py:145-210 | the table shows every record newest first, unchecked, or none on an error; the selection and buttons stay |
| Views.MainScreen.CheckboxChanged | views/main_screen.py:212-225 | the selection gains or loses the row's id without duplicates; both buttons are disabled iff nothing is selected |
| Views.MainScreen.SelectAllChanged | views/main_screen.py:227-245 | every row takes the header's value; the selection is every row id in order, or nothing; both buttons follow |
| Views.MainScreen.ApplyFilters | views/main_screen.py:247-283 | the table shows what the store's filter returns for the filled fields, or everything when none is filled; after a failed connection or query it is empty |
| Views.MainScreen.ConfirmSelection | views/main_screen.py:285-315 | with nothing selected only a warning; otherwise a confirmation naming the count (`confirm_delete` makes the same check) |
| Views.MainScreen.ExportProcess | views/main_screen.py:351-412 | the file is written from the selected records before the move; a failed write skips the move; the selection is cleared iff the move succeeds |
| Views.MainScreen.ReloadAfterExport | views/main_screen.py:416-427 | the table is reloaded and both buttons disabled |
| Views.MainScreen.DeleteProcess | views/main_screen.py:466-525 | the store deletes the selected records; the selection is cleared iff it reports success; the history, the counter and the presence of `bobina_h` stay |
| Views.MainScreen.ReloadAfterDelete | views/main_screen.py:527-533 | the table is reloaded; the buttons keep their state |
| Views.MainScreen.SaveNewRecord | views/main_screen.py:607-702 | a refused form changes nothing; an accepted one is appended by the store under the next id and the counter advances by one; the history and the presence of `bobina_h` stay |
| Views.MainScreen.ReloadAfterSave | views/main_screen.py:717-723 | the table is reloaded |
| Views.ReloadShowsNoMovedId | views/main_screen.py:416-427 | after a completed move the reloaded table shows none of the moved ids |

## Left out

- The Flet user interface, dialogs, overlays and layout are not modelled. Each dialog's outcome is the method that runs after it.
- The login screen, credential files and bcrypt hashing are not modelled. They lie outside the record lifecycle.
- Threads are not modelled. Each background body is one sequential step.
- Connection handling and SQL text building are not modelled.
- The `ORDER BY`-less `SELECT ... WHERE id IN` queries return rows in an order SQLite leaves unspecified. The model takes storage order.
- Python's `float()` and `int()` are modelled on the decimal subset `[+-]digits[.digits]`. Exponents, `inf`, `nan`, underscores and surrounding blanks are not modelled.
- Measures are exact reals. Binary floating point and its rounding are not modelled.
- Lower-casing is ASCII only. So is SQLite's `LOWER` and `LIKE`; Python's Unicode `lower()` on accented letters is not modelled.
- CSV encoding, quoting and a file left half-written by a failed write are not modelled. A file is a header plus the sequence of typed cells handed to the writer, written whole or not at all. On disk `csv.DictWriter` writes every cell as text and NULL as an empty field, so NULL and an empty string look alike there; the round-trip lemmas are about the cells handed to the writer, not the bytes of the file.
- Timestamps and file names are opaque strings supplied by the caller.
- The utility store's columns are all nullable in its schema. The model stores the same record shape as the other stores.
- app_comp.py's `except` handler refers to `conn` even when `connect` itself failed, which would raise `UnboundLocalError`. That case falls under a failed connection and is not modelled separately.
- AppComp.DatabaseManager.MoveToHistoryAndExport: the message text is not modelled beyond the `Outcome` constructors and the file name. A uniqueness violation of `bobina_num` cannot arise in a move, since only the history receives rows.
- ModelsDb.DatabaseManager.AddBobina, UtilsDb.DatabaseManager.AddBobina: the data dictionary always holds the eleven form keys. An INSERT that violates a NOT NULL column is a fault like any other.
- Views.MainScreen.ApplyFilters: when `filter_bobinas` returns None, `update_table` clears the table and then raises `TypeError` inside the filter thread. The model keeps the cleared table and does not model the exception.
- ModelsDb.MaxId: floors the largest history id at 0. SQLite's next rowid would be below 1 only when every history id is negative, which no modelled operation produces.
- `ProductionManagerApp`, `main.py` and the app controller only wire screens together and are not modelled.

## Findings

| source | as written | input that shows it | evidently intended | confidence | as-written member | corrected member |
|---|---|---|---|---|---|---|
| models/database_manager.py:18-43, 284 | `_init_db` creates only `bobina`, yet `move_to_historic` inserts into `bobina_h` | on a new database, add one record, then move id 1 to the history: the INSERT fails on the missing table, the move reports failure and the record stays live | `_init_db` also creates `bobina_h`, so the move succeeds | not executed | ModelsDb.ArchiveOnNewDatabase | ModelsDb.ArchiveWithHistoryTable |
