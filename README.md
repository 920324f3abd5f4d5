# Legilimens save-file pipeline, in Dafny

Legilimens reads a Hogwarts Legacy `.sav` file and reports the collectibles
the player has not obtained yet. This project models the two stages that do
that work in `legilimens.py`, and proves properties of the model.

- **Container extraction** (`SaveReader.__enter__`), module `Container`. The
  save must start with the magic `GVAS`. The first occurrence `p` of the
  marker `RawDatabaseImage` is located. A little-endian length `L` is read from
  bytes `[p+61, p+65)`, and the embedded SQLite image is bytes
  `[p+65, p+65+L)`. Both slices clamp the way Python slicing does, and an empty
  length field reads as 0. Bytes are the newtype `byte` (0..255). The function
  `Extract` returns the image or a `FormatError`: `MagicNotFound` for the
  failed `assert`, `MarkerNotFound` for the `ValueError` of `bytes.index`.
- **Static configuration**, module `Catalog`: the nine logical tables of
  `QUERIES` in their query order, `AFFECTED_TYPES`, the 21 collectible types
  and their table (`TABLES`), and the catalog record with its `collected`
  flag.
- **The query loop** (`_read_save`, lines 183-193), module `RowSets`. SQLite
  is abstract: a `Database` maps each logical table to the first-column values
  its fixed query returns, or to `QueryFailed` for a `sqlite3.DatabaseError`.
  The method `ReadTables` runs the loop and builds `sql_data` and `errors`.
  `AchievementDynamic` values are split on commas, and the empty segment is
  dropped.
- **Reconciliation** (`_read_save`, lines 194-215, and `run`, line 263),
  module `Reconciliation`. The class `Legilimens` has the catalog and the two
  bug flags as fields. Its methods mark every record in place, raise the
  butterfly and conjuration flags, and keep only the missing records after a
  successful read. Each method is proved against the pure function
  `ReadSaveSpec`, and the lemmas state what `_read_save` promises about that
  function.

Opening the extracted image is an `Engine`: a function from the image
bytes to `Some(database)`, or `None` when SQLite cannot open the image or the
`sqlite_master` sanity query fails. The three outcomes of `_read_save` are:

- `SaveUnreadable`: "unable to read the save file" (lines 218-219).
- `DatabaseUnreadable`: "unable to read the database" (line 195).
- `Read(errors)`: success (line 215), with the list of affected categories.

Behaviour worth knowing:

- A length field or image that runs past the end of the data is clamped, not
  rejected. `Container.ExtractTruncated` proves that a truncated container
  still extracts.
- Only the first occurrence of the marker is used; any later occurrence is
  ignored.
- An image SQLite cannot open gives the save-file error. Every table failing
  gives the separate database error.
- A failing table that no record is looked up in can still change a bug flag,
  if one of the two heuristics consults it. `Reconciliation.UnusedTableFailure`
  is stated for the four tables neither heuristic reads, while some other
  table answers. If the failing table is the only one that answers, its
  failure turns the outcome into the database error (lines 194-195) and the
  catalog stays unmarked.

## Model

| member | source | states |
|---|---|---|
| `Container.IndexOf` | legilimens.py:127 | `Some(p)` is the first occurrence of the pattern; `None` exactly when it occurs nowhere (the `ValueError` of `bytes.index`) |
| `Container.StartsWith` | legilimens.py:125 | the magic check `data.startswith(b'GVAS')`; `Container.ExtractErrors` proves the magic error occurs exactly when it fails |
| `Container.PySlice` | legilimens.py:128-129 | a Python slice `s[a:b]` has length `max(0, min(b, len(s)) - a)` and holds `s[a+k]` at position `k` |
| `Container.LittleEndian` | legilimens.py:128 | `int.from_bytes(bs, 'little')`, 0 for no bytes; `Container.LittleEndianBound`, `Container.DecodeEncode` and `Container.EncodeDecode` prove its range and that it inverts the little-endian encoding |
| `Container.LittleEndianBound` | legilimens.py:128 | `int.from_bytes(bs, 'little')` is below `256^len(bs)` |
| `Container.FieldBound` | legilimens.py:128 | the 4-byte length field, even when cut short by the end of the data, holds less than 2^32 |
| `Container.DecodeEncode` | legilimens.py:128 | decoding the little-endian encoding of `n` in `width` bytes gives back `n` |
| `Container.EncodeDecode` | legilimens.py:128 | encoding the value of `bs` in `len(bs)` bytes gives back `bs` |
| `Container.Extract` | legilimens.py:124-129 | a successful extraction yields an image shorter than 2^32 bytes |
| `Container.ExtractErrors` | legilimens.py:125-127 | the magic error occurs exactly when the data does not start with `GVAS`; the marker error occurs exactly when the magic is present and the marker occurs nowhere |
| `Container.ExtractAt` | legilimens.py:127-129 | for the first marker occurrence `p`, the result is the slice `[p+65, p+65+L)` with `L` read from `[p+61, p+65)` |
| `Container.ExtractLayout` | legilimens.py:127-129 | for the first marker occurrence `p`: `L < 2^32`, the image length is `min(L, max(0, len(data) - (p+65)))`, and the image holds the data bytes from `p+65` |
| `Container.MarkerFirstAfter` | legilimens.py:127 | a marker placed after a header that does not contain it is found right after the header, even if a marker prefix ends the header |
| `Container.FrameLayout` | legilimens.py:125-128 | a container built as header, marker, 45 bytes of metadata and the length field passes the magic check, finds the marker right after the header, and reads back the length |
| `Container.ExtractFrame` | legilimens.py:124-129 | extraction recovers exactly the framed image, whatever bytes follow it |
| `Container.ExtractClamped` | legilimens.py:129 | when the data ends inside the image, the image is everything from `p+65` to the end |
| `Container.ExtractTruncated` | legilimens.py:129 | a container cut `n` bytes into its image still extracts, yielding the first `n` image bytes |
| `Catalog.QueryOrderComplete` | legilimens.py:13-21 | every logical table is queried, and each is queried exactly once |
| `Catalog.AffectedTypes` | legilimens.py:22-30 | every table's failure reports at least one category |
| `Catalog.AffectedByOneTable` | legilimens.py:22-30 | each reported category belongs to exactly one table |
| `Catalog.TableOf` | legilimens.py:31-51 | the table each collectible type is looked up in; `Catalog.HeuristicOnlyTables` proves which tables it never names, and `Reconciliation.CollectedFlags` that marking uses it |
| `Catalog.HeuristicOnlyTables` | legilimens.py:31-51 | no collectible type is looked up in `PlayerStatsDynamic` or in the second CollectionDynamic query |
| `RowSets.Split` | legilimens.py:190 | `str.split(',')` yields at least one segment, and no segment contains a comma |
| `RowSets.JoinSplit` | legilimens.py:190 | joining the segments with commas gives back the value |
| `RowSets.SplitJoin` | legilimens.py:190 | splitting comma-free segments joined by commas gives back the segments |
| `RowSets.SplitExample` | legilimens.py:190 | `"PFA_1,PFA_2,"` splits into `PFA_1`, `PFA_2` and an empty last segment |
| `RowSets.SplitRows` | legilimens.py:190-191 | the comma split of the AchievementDynamic values without `''`; `RowSets.AchievementRowSet` characterises its members |
| `RowSets.RowSet` | legilimens.py:188-191 | the row set of one table: the split segments for AchievementDynamic, the values themselves otherwise; `RowSets.AchievementRowSet` and `RowSets.AchievementExample` state it |
| `RowSets.AchievementRowSet` | legilimens.py:188-191 | a string is in the AchievementDynamic row set exactly when it is non-empty and is a comma segment of some returned value; it never contains a comma |
| `RowSets.AchievementExample` | legilimens.py:188-191 | the value `"PFA_1,PFA_2,"` gives the row set `{"PFA_1", "PFA_2"}` |
| `RowSets.SqlData` | legilimens.py:186-191 | `sql_data` after the loop; `RowSets.SqlDataEntries`, `RowSets.TotalFailure` and `RowSets.ReadTables` prove which tables have entries and that the loop builds it |
| `RowSets.TableErrors` | legilimens.py:186-193 | `errors` after the loop; `RowSets.NoErrorsIffAllRead`, `RowSets.TableErrorsOfAppend` and `Reconciliation.OnlyFirstTableErrors` prove when it is empty and its query order |
| `RowSets.SqlDataEntries` | legilimens.py:186-191 | a table has an entry in `sql_data` exactly when its query succeeded, whatever happened to the other tables, and the entry is its row set |
| `RowSets.TableErrorsOfAppend` | legilimens.py:186-193 | the errors of two consecutive runs of tables are the errors of the first run followed by those of the second |
| `RowSets.TableErrorsOfFailed` | legilimens.py:192-193 | when every table of a run fails, all of their categories are reported, in query order |
| `RowSets.TableErrorsOfEmpty` | legilimens.py:192-193 | a run of tables reports no error exactly when every table in it was read |
| `RowSets.NoErrorsIffAllRead` | legilimens.py:186-193 | `errors` is empty exactly when every table was read |
| `RowSets.TotalFailure` | legilimens.py:194 | `len(sql_data) == 0` exactly when every table failed |
| `RowSets.ReadTables` | legilimens.py:183-193 | the loop builds exactly the `sql_data` and the `errors` of the specification |
| `Reconciliation.Mark` | legilimens.py:201-205 | one record's new `collected` flag; `Reconciliation.MarkedEntries` proves it is whether the record's table was read and lists its key |
| `Reconciliation.Marked` | legilimens.py:201-205 | the catalog after the marking loop; `Reconciliation.MarkedEntries` and `Reconciliation.MarkedObtained` prove it keeps every other field and records what the database says |
| `Reconciliation.MarkedEntries` | legilimens.py:201-205 | marking keeps the catalog's length, order and every field but `collected`; `collected` becomes "the record's table was read and lists its key" |
| `Reconciliation.MarkedObtained` | legilimens.py:201-205 | after marking with `sql_data`, each record's flag is whether the database says the record was obtained |
| `Reconciliation.ChestsOpened` | legilimens.py:212 | `chests_opened`; `Reconciliation.ChestsOpenedCount` and `Reconciliation.ObtainedChests` prove what it counts |
| `Reconciliation.ButterflyBug` | legilimens.py:207-209 | the butterfly heuristic; `Reconciliation.ButterflyBugIff` and `Reconciliation.ButterflyFlag` state it on the database |
| `Reconciliation.ConjurationBug` | legilimens.py:211-214 | the conjuration heuristic; `Reconciliation.ConjurationFlag` states it on the database |
| `Reconciliation.UpdatedBugs` | legilimens.py:206-214 | the flags after a read; `Reconciliation.FlagsAreSticky` proves a raised flag stays raised |
| `Reconciliation.ChestsOpenedCount` | legilimens.py:212 | `chests_opened` is the number of catalog positions holding a collected conjuration-type chest |
| `Reconciliation.ObtainedChests` | legilimens.py:212 | on the marked catalog, `chests_opened` counts the conjuration-type records the database says were obtained |
| `Reconciliation.Uncollected` | legilimens.py:263 | the filter of `run`; `Reconciliation.UncollectedMembers` and `Reconciliation.UncollectedAppend` prove what it keeps and in what order |
| `Reconciliation.UncollectedMembers` | legilimens.py:263 | the filter keeps a record exactly when it is in the catalog and not collected |
| `Reconciliation.UncollectedAppend` | legilimens.py:263 | the filter keeps catalog order: it distributes over concatenation |
| `Reconciliation.Legilimens.constructor` | legilimens.py:159-161 | the catalog as given and both bug flags false |
| `Reconciliation.Legilimens.MarkCollected` | legilimens.py:201-205 | the loop leaves the catalog equal to the specification's marked catalog |
| `Reconciliation.Legilimens.CheckBugs` | legilimens.py:206-214 | each flag is set when its heuristic holds and is otherwise left as it was |
| `Reconciliation.Legilimens.ReadSave` | legilimens.py:178-215 | the outcome, the new catalog and the new flags are those of `ReadSaveSpec` on the old state |
| `Reconciliation.Legilimens.KeepUncollected` | legilimens.py:263 | the catalog becomes its uncollected records, in order |
| `Reconciliation.Legilimens.Run` | legilimens.py:257-263 | `run` reads the save; after a successful read the catalog is the uncollected part of the marked catalog, otherwise it is left as it was |
| `Reconciliation.ReadSaveSpec` | legilimens.py:178-219 | the outcome and new state of `_read_save`; `Reconciliation.SaveUnreadableCases`, `Reconciliation.AllTablesFail`, `Reconciliation.CollectedFlags` and `Reconciliation.ReadSaveIdempotent` prove its cases |
| `Reconciliation.SaveUnreadableCases` | legilimens.py:218-219 | the save-file error occurs exactly when the magic is missing, the marker is missing, or the engine cannot open the image; then nothing changes |
| `Reconciliation.AllTablesFail` | legilimens.py:194-195 | when every table fails, the database error is reported and neither the catalog nor a flag changes |
| `Reconciliation.OneTableSuffices` | legilimens.py:194-215 | one table that answers is enough for a report, which carries the errors of the query loop |
| `Reconciliation.CollectedFlags` | legilimens.py:201-205 | after a successful read, every record's `collected` is whether its table was read and lists its key; it is never true for a failed table, and nothing else changes |
| `Reconciliation.ReadMarksEveryRecord` | legilimens.py:201-205 | after a successful read every record has a `collected` flag, which the filter in `run` relies on |
| `Reconciliation.FlagsAreSticky` | legilimens.py:206-214 | a raised bug flag is never cleared, whatever the outcome |
| `Reconciliation.ButterflyChestMissing` | legilimens.py:208 | after marking, a ButterflyChest #1 is missing exactly when its key is not among the EconomicExpiryDynamic rows |
| `Reconciliation.ButterflyBugIff` | legilimens.py:207-209 | the butterfly condition on the marked catalog, stated on the database and the catalog as loaded |
| `Reconciliation.ButterflyFlag` | legilimens.py:207-209 | the butterfly flag is raised exactly when it already was, or both tables were read, `COM_11` is a completed activity and some ButterflyChest #1 key is not among the EconomicExpiryDynamic rows |
| `Reconciliation.ConjurationFlag` | legilimens.py:211-214 | the conjuration flag is raised exactly when it already was, or the four tables were read and more conjuration-type chests were obtained than the second CollectionDynamic query returned items |
| `Reconciliation.ReadSaveIdempotent` | legilimens.py:201-214 | reading the same save a second time changes neither the catalog nor the flags |
| `Reconciliation.SqlDataAgree` | legilimens.py:186-191 | two databases that agree outside one table give the same `sql_data` outside that table |
| `Reconciliation.MarkedAgree` | legilimens.py:201-205 | marking only consults the tables that records are looked up in |
| `Reconciliation.BugsAgree` | legilimens.py:207-214 | the heuristics consult only EconomicExpiryDynamic, PlayerStatsDynamic, LootDropComponentDynamic, MapLocationDataDynamic and the second CollectionDynamic query |
| `Reconciliation.UnusedTableFailure` | legilimens.py:186-214 | the failure of a table that no record is looked up in and no heuristic reads changes neither the catalog nor the flags while some other table answers; only the error list differs |
| `Reconciliation.OnlyFirstTableErrors` | legilimens.py:186-193 | when only the first table answers, every later table's categories are reported, in query order |
| `Reconciliation.ObtainedFromOneRow` | legilimens.py:201-203 | when CollectionDynamic holds the single row `key` and every other table fails, only the Revelio page with that key is obtained |
| `Reconciliation.OnlyCollectionDynamicRows` | legilimens.py:186-214 | for that database: at least one table is read, every other table is reported, exactly the matching Revelio pages are marked, and no flag changes |
| `Reconciliation.OnlyCollectionDynamicReadable` | legilimens.py:178-215 | end to end: a well-framed save with that database reports every other table's categories, marks exactly the matching Revelio pages, and raises no flag |

## Left out

- Reading the file, the temporary directory, writing `temp.db`, the SQLite
  connection and cursor, and `__exit__` (legilimens.py:124, 131-155). These
  are I/O and a foreign engine. SQLite is the abstract `Engine` and
  `Database`.
- The SQL text of `QUERIES` is not modelled. Each query is identified by its
  table, and `CollectionDynamic2` names the second query on the
  CollectionDynamic table.
- The `sqlite_master` sanity query. Its failure, like an unopenable image, is
  the engine returning `None`.
- Values SQLite returns that are not strings (NULL, numbers) are not
  modelled. Every first-column value is a string.
- The catalog is given as a sequence of records rather than loaded from
  `collectibles.json` (`json.load`, legilimens.py:160). Its types are a
  datatype, so the uncaught `KeyError` for an unknown type (line 202) cannot
  arise.
- `AFFECTED_TYPES` entries are the `Category` datatype, and their text is
  `Catalog.DisplayName`. The `errors` list is only printed, joined by commas
  (line 199), which is left out.
- `FileNotFoundError` and the file name in messages (lines 216-219) are not
  modelled. A save is its bytes.
- The magic check is a Python `assert`, which `python -O` would skip. The
  model always performs it.
- Argument parsing and interactive input (`_get_save_file`), all printing,
  `_collectible_str`, `_print_region`, `_print_bug_output`, region sorting and
  the messages of `run` and `main` are not modelled. They are console
  presentation.
- `setup.py` is a build configuration with no logic.
- `Reconciliation.Legilimens.KeepUncollected`: requires every record to have
  a `collected` flag. Without one, Python raises `KeyError`, a case that
  `Reconciliation.ReadMarksEveryRecord` shows cannot happen after a
  successful read.
