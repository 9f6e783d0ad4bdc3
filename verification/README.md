# mptracker record reconciliation, modelled in Dafny

mptracker scrapes the Romanian Chamber of Deputies and keeps its database in
step with what it scrapes. This project models the core of that
reconciliation:

- `TablePatcher`: the keyed upsert engine. It indexes a table's rows by their
  key tuple. Its `add` creates, rewrites or leaves alone the row for each
  incoming record. The batch scope `process` counts the outcomes and
  commits once. Given a flush interval, as `update` passes 1000, it flushes
  after every add as written, because its `total` counter never grows (see
  Findings); with no interval it never flushes. `update` drives a whole
  batch through that scope.
- The identity helpers of the models:
  - `PersonMatcher` trusts a parliament id only when the stored person's
    name has the same token set as the scraped name.
  - `Person.get_or_create_non_mp` and `User.get_or_create` find the first
    matching row or create one.
- The pure helpers:
  - `parse_date` and the ISO `YYYY-MM-DD` encoding, for the complete
    extended calendar dates of section 4.1.2.2 of ISO 8601:2004;
  - `fix_local_chars`;
  - `StenoChapter.serial_number`;
  - `TableLoader.to_dict` and `decode_dict`;
  - the argument parsing and the row cap of `dump`.

Rows are modelled as follows:

- A database row is an object. The rows `TablePatcher` rewrites are `Row`
  objects whose attributes are a map from column name to value. An
  attribute that was never set reads as `None`.
- `Person` and `User` rows are objects with constant fields. The core never
  changes them once stored.
- A table, as a session's queries see it, is a sequence of rows in query
  order.
- The database session is a `Session` object. It records the objects it was
  given in order, and counts flushes and commits.
- Creating a row with a new uuid is allocating a fresh object.

Each state-changing operation is a method. Each is proved against a pure
specification function, and the properties of the source are lemmas about
those functions:

- `AddSpec` and `Replay` specify `add` and `update`.
- `Resolve` specifies `get_person`.
- `FirstIndex` specifies the "first row of the query" loops.

Modules: `Wrappers` (Option and Result), `Values` (column values and dates),
`Seqs`, `PyStr` (the few `str` operations used), `Dates`, `LocalChars`,
`Steno`, `Store` (the session), `Reconcile` (add and the batch as values),
`Flushing`, `Patcher` (the objects), `People`, `Users`, `TableLoader` and
`Dump`.

## Model

| member | source | states |
|---|---|---|
| Dates.ParseIsoFormat | mptracker/common.py:12-13 | `parse_date` reads back every date `isoformat` writes as the same date |
| Dates.IsoFormatParse | mptracker/common.py:12-13 | a ten-character text that `parse_date` accepts, whose day has no leading space, is exactly the `isoformat` text of the date it yields |
| Dates.ParseDate | mptracker/common.py:12-13 | `parse_date` returns a date only for a text of eight to ten characters that starts with four digits and a `-`, and the date's year is those four digits; any other text raises `ValueError` |
| Dates.IsoFormat | mptracker/models.py:212 | the date encoder writes ten characters with `-` at positions 4 and 7 |
| LocalChars.LocalChar | mptracker/common.py:16-18 | the per-letter rewrite leaves no cedilla letter and keeps every other character |
| LocalChars.FixLocalChars | mptracker/common.py:16-18 | `fix_local_chars` keeps the length and rewrites each character by the per-letter table |
| LocalChars.FixLocalCharsClean | mptracker/common.py:16-18 | the output holds no ş, Ş, ţ or Ţ, and every other character is unchanged |
| LocalChars.FixLocalCharsIdempotent | mptracker/common.py:16-18 | applying `fix_local_chars` twice is the same as once |
| PyStr.Replace | mptracker/common.py:17-18 | `str.replace` of one character by another keeps the length and changes exactly the occurrences of the first |
| PyStr.Words | mptracker/models.py:147 | `str.split()` yields non-empty, whitespace-free runs of the text's characters. A text without whitespace is one word |
| Steno.SerialNumber | mptracker/models.py:80-82 | `serial_number` fails exactly when the serial has no `/`; otherwise it is the text after the first `/` |
| Steno.SerialNumberOf | mptracker/models.py:80-82 | the number of `prefix/number`, with no `/` in the prefix, is `number` even when `number` holds slashes |
| Reconcile.KeyOf | mptracker/common.py:46-50 | a key tuple has one entry per key column |
| Reconcile.KeyOfColumns | mptracker/common.py:46-50 | entry `i` of the key is the value of key column `i` |
| Reconcile.KeyOfMissingColumn | mptracker/common.py:49-50 | a key column absent from the record contributes `None`; computing a key never fails |
| Reconcile.Overwrite | mptracker/common.py:78-80 | the `setattr` loop leaves every record field at the record's value and every other attribute as it was |
| Reconcile.Differs | mptracker/common.py:69-73 | the comparison finds a differing field exactly when writing the record would change some attribute as `getattr` reads it |
| Reconcile.AddSpec | mptracker/common.py:52-82 | `add` fails exactly for an unseen key without `create`; it never drops a key; `is_new` implies `is_changed` |
| Reconcile.AddUnseenCreates | mptracker/common.py:57-63 | an unseen key with `create` gives (new, changed) and adds exactly that key, filed with exactly the record's fields |
| Reconcile.AddUnseenRefused | mptracker/common.py:64-66 | an unseen key without `create` raises `RowNotFound` for that key |
| Reconcile.AddKnownUnchanged | mptracker/common.py:68-78 | a known key whose row agrees on every record field gives (not new, not changed) and leaves the index as it was |
| Reconcile.AddKnownChanged | mptracker/common.py:69-80 | one differing field gives (not new, changed); every field of the record is written to that row; no key and no other row changes |
| Reconcile.OverwriteKeepsKey | mptracker/common.py:78-80 | rewriting a row with a record of the same key keeps the row's key |
| Reconcile.OverwriteEmptyKey | mptracker/common.py:59-63 | a fresh row given the record's fields has the record's key |
| Reconcile.AddKeepsConsistent | mptracker/common.py:52-82 | `add` keeps every indexed row filed under its own key |
| Reconcile.AddTwice | mptracker/common.py:52-82 | the same record added again reports (not new, not changed) and leaves the index as the first call left it |
| Reconcile.AddWithoutCreateKeepsKeys | mptracker/common.py:57-66 | without `create` the index never gains a key |
| Reconcile.Tally | mptracker/common.py:95-102 | a new row counts as created, a changed one as updated, any other as found ok; the other two counters stay as they were |
| Reconcile.Advance | mptracker/common.py:88-104 | one add of the scope: the adds that succeeded grow by one exactly when it succeeds, and the counters stay balanced |
| Reconcile.ReplayFromDone | mptracker/common.py:112-115 | the batch processes every record unless one fails, and nothing changes after a failure |
| Reconcile.ReplayFromBalanced | mptracker/common.py:86-102 | the counters of a batch always add up to the adds that succeeded |
| Reconcile.Replay | mptracker/common.py:86-115 | the summary of `update` adds up: created + updated + found ok is the number of records processed, never more than the records given, and all of them when nothing failed |
| Reconcile.ReplayFromCreateCompletes | mptracker/common.py:112-115 | with `create` a batch never stops early |
| Reconcile.ReplayFromKeysGrow | mptracker/common.py:112-115 | a batch never drops an indexed key |
| Reconcile.ReplayFromKeepsConsistent | mptracker/common.py:112-115 | a batch keeps every indexed row filed under its own key |
| Reconcile.ReplayExample | mptracker/common.py:112-115 | records `{a:1, n:"x"}`, the same again, then `{a:2, n:"y"}`, on an empty table keyed on `a` with `create`, give 2 created, 0 updated and 1 found ok |
| Flushing.FlushCount | mptracker/common.py:91-93 | a run of adds asks for at most one flush per add |
| Flushing.FlushCountAsWritten | mptracker/common.py:91-92 | with the counter growing by 0, as written, every add of a batch with a non-zero interval flushes |
| Flushing.FlushCountEveryInterval | mptracker/common.py:91-92 | with the counter growing by 1, a batch flushes once per full interval: `adds / n` times |
| Flushing.FlushCountDiscrepancy | mptracker/common.py:91-92 | two adds with `autoflush=1000` flush twice as written and never as intended |
| Store.Session.Add | mptracker/common.py:62 | `session.add` appends the object and changes no counter |
| Store.Session.Flush | mptracker/common.py:93 | `session.flush` counts one flush and changes nothing else |
| Store.Session.Commit | mptracker/common.py:108 | `session.commit` counts one commit and changes nothing else |
| Patcher.IndexRowsCovers | mptracker/common.py:43-44 | every queried row's key is in the index, and the index holds only queried rows, each filed under its own key |
| Patcher.IndexRowsLastWins | mptracker/common.py:43-44 | a row that no later row shares a key with is the one filed under its key |
| Patcher.TablePatcher.constructor | mptracker/common.py:39-44 | `__init__` builds exactly the last-wins index of the query, and the patcher starts valid. It owns exactly the rows it filed, all from the query; a shadowed row is not owned, so no later `add` touches it |
| Patcher.Row.DiffersFrom | mptracker/common.py:69-73 | the comparison loop reports a change exactly when some record field differs from the row's attribute |
| Patcher.Row.Assign | mptracker/common.py:79-80 | the `setattr` loop leaves the row holding `Overwrite(old, record)` |
| Patcher.TablePatcher.Insert | mptracker/common.py:57-63 | a fresh row is registered once with the session, filed under the record's key, and holds exactly the record's fields |
| Patcher.TablePatcher.Refresh | mptracker/common.py:68-80 | a known row is rewritten exactly when a field differs, and only that row changes |
| Patcher.TablePatcher.Add | mptracker/common.py:52-82 | `add` does what `AddSpec` says. The returned row is the one now filed under the key. A created row is fresh and is the only object given to the session. On failure the index is unchanged. The rows filed under other keys stay filed there, and every owned row but the one under the record's key keeps its attributes. The patcher owns exactly one more row after a create, and the same rows otherwise |
| Patcher.TablePatcher.Update | mptracker/common.py:84-115 | `update` as written: the table ends as the batch replay leaves it, and the result is its counts or its error. Every successful add flushes, since `total` stays 0 and `0 % 1000 == 0`. There is one commit exactly when no add failed. The session is given one object per created row |
| Patcher.TablePatcher.UpdateIntended | mptracker/common.py:84-115 | `update` with `total` growing by one per add: the same table, counts, commit and objects given to the session, and one flush per full 1000 successful adds |
| Patcher.TablePatcher.Batched | mptracker/common.py:84-115 | the body of `update` for either growth of `total`: the batch replay, a flush whenever the grown counter passes the test, and one commit exactly when no add failed. The session is given one object per created row |
| Patcher.Batch.constructor | mptracker/common.py:85-86 | the scope opens with zero counters on the patcher's current index, with `total` growing by the given step |
| Patcher.Batch.Add | mptracker/common.py:88-104 | the scope's `add` advances the batch by one `add` and counts the outcome. It flushes when the grown `total` passes the test. An error propagates and leaves every counter, `total` included, as it was. On success it returns the patcher's `AddResult`: the row now filed under the record's key, with `is_new` and `is_changed` as `AddSpec` decides |
| Patcher.Batch.AddAll | mptracker/common.py:113-115 | the loop of `update` replays the records up to the first error. It flushes once for each successful add whose grown `total` passes the test, and does not commit. The session is given one object per row created |
| Patcher.Batch.Feed | mptracker/common.py:114-115 | one turn of the loop either moves the batch from record `i` to `i + 1` or ends it with the replay's error. The session is given one object per row created |
| Patcher.Batch.Apply | mptracker/common.py:89 | the patcher's `add`, with the batch value moved past the record. It returns the row filed under the record's key, with `is_new` and `is_changed` as `AddSpec` decides |
| Patcher.Batch.Record | mptracker/common.py:91-102 | after a successful add: `total` grows by the step (0 as written), the session flushes when `total` passes the test, and the outcome's counter grows |
| Patcher.Batch.Close | mptracker/common.py:108 | leaving the scope normally commits once and reports the counters |
| People.PersonTable.GetOrCreateNonMp | mptracker/models.py:50-59 | returns the first stored person with that name and no id, changing nothing. Otherwise it creates exactly one such person, adds and flushes it. Either way the next lookup finds the returned person |
| People.GetOrCreateNonMpTwice | mptracker/models.py:50-59 | two calls with the same name return the same row and add at most one person |
| People.NameBits | mptracker/models.py:146-147 | every token of a name is non-empty and holds neither whitespace nor a hyphen |
| People.NameBitsToken | mptracker/models.py:146-147 | a single token is its own token set |
| People.NameBitsSplit | mptracker/models.py:146-147 | a space or a hyphen splits a name into the union of the token sets of its parts |
| People.NameBitsSwap | mptracker/models.py:146-147 | `x-y` and `y x` have the same tokens |
| People.NameBitsHyphenated | mptracker/models.py:146-147 | `a-b c` (as "Ana-Maria Pop") has tokens `{a, b, c}` |
| People.NameBitsSpaced | mptracker/models.py:146-147 | `c  a b` (as "Pop  Ana Maria") has tokens `{a, b, c}`; the doubled space adds no empty token |
| People.NameBitsReordered | mptracker/models.py:146-147 | "Ana-Maria Pop" and "Pop  Ana Maria", for any three tokens in those places, give equal sets |
| People.Resolve | mptracker/models.py:149-157 | a match is the person filed under the id and has the name's tokens. The lookup error happens exactly for an id not on file. The fallback happens only without `strict` |
| People.ResolveMatched | mptracker/models.py:150-153 | an id on file whose person has the name's tokens gives that person, strict or not |
| People.ResolveUnknownId | mptracker/models.py:150-151 | an id not on file fails the lookup, strict or not |
| People.ResolveStrict | mptracker/models.py:154-156 | strict mode raises when the id is absent or the tokens differ |
| People.ResolveFallback | mptracker/models.py:157 | otherwise, without strict, the name goes to `get_or_create_non_mp` |
| People.IndexByCdepIdFiles | mptracker/models.py:143-144 | a person no later person shares an id with, `None` included, is the one filed under it |
| People.IndexByCdepId | mptracker/models.py:143-144 | every id in the map is the id of the stored person filed under it |
| People.PersonMatcher.constructor | mptracker/models.py:143-144 | the matcher holds the last-wins id index of the `Person` query |
| People.PersonMatcher.GetPerson | mptracker/models.py:149-157 | `get_person` returns what `Resolve` names and changes nothing, or raises its error. In the fallback it returns a person with that name and no id, created only when none was stored. A created person is given to the session and flushed, with no commit |
| Users.UserTable.GetOrCreate | mptracker/models.py:127-137 | returns the first user with the address, changing nothing. Otherwise it returns a fresh user with it, added and committed only under `autosave` |
| Users.GetOrCreateTwice | mptracker/models.py:127-137 | two saving calls with the same address return the same user and add at most one |
| TableLoader.NewLoader | mptracker/models.py:203-215 | `__init__` lists every column in order and files `isoformat`/`parse_date` for date columns and `identity` for the others, the last column of a name winning; encoder and decoder stay paired |
| TableLoader.DateColumnsFiles | mptracker/models.py:209-215 | a column no later column shares its name with decides that name's coder |
| TableLoader.DateColumnsKeys | mptracker/models.py:209-215 | only column names get a coder |
| TableLoader.ToDict | mptracker/models.py:217-220 | `to_dict` writes exactly the asked columns, or the loader's own when none are asked; an error names an asked column |
| TableLoader.EncodeColumnsSpec | mptracker/models.py:217-220 | `to_dict` succeeds exactly when every asked column is known and holds a date if it is a date column. It then writes one entry per asked column: a date as its ISO text, any other value unchanged. On failure it names an asked column that cannot be encoded |
| TableLoader.DecodeDict | mptracker/models.py:222-224 | `decode_dict` keeps the record's fields; a refusal names only fields that fail to decode, and at least one |
| TableLoader.DecodeDictFields | mptracker/models.py:222-224 | a field that decodes stands in the result; a field that fails is reported |
| TableLoader.DecodeToDict | mptracker/models.py:209-224 | `decode_dict(to_dict(row, columns))` gives back the row's value in every asked column |
| Dump.FilterOf | mptracker/models.py:236-242 | a spec with `=` is split at its first `=` into name and value; a spec without one is a not-null test on it |
| Dump.RenderFilterOf | mptracker/models.py:237-242 | rendering a parsed filter spec gives the spec back |
| Dump.FilterOfRender | mptracker/models.py:237-242 | parsing a rendered filter whose name has no `=` gives the filter back |
| Dump.FiltersOf | mptracker/models.py:235-242 | a non-empty filter argument gives one filter per comma-separated spec |
| Dump.ParseFilters | mptracker/models.py:235-242 | the filter loop yields the filters of the specs in order, none for an absent or empty argument |
| Dump.FiltersOfRender | mptracker/models.py:235-242 | rendering the filters and joining them with commas gives the argument back |
| Dump.ColumnsArg | mptracker/models.py:229-230 | an absent column list asks for every column. An empty one asks for none. Any other is split on commas with nothing lost |
| Dump.RowLimitAsWritten | mptracker/models.py:244-250 | as written, a run writes at most the available rows and, with any cap, at least one row when one is available |
| Dump.RowLimit | mptracker/models.py:248-250 | with the cap tested first, at most `number` rows and none for a cap below one. A cap between 0 and the available rows writes exactly that many; a larger cap writes every row |
| Dump.RowLimitsAgree | mptracker/models.py:248-250 | both caps agree when `number` is absent or positive |
| Dump.RowLimitDiscrepancy | mptracker/models.py:248-250 | `number=0` over one row writes one row as written and none as intended |
| Dump.DumpAsWritten | mptracker/models.py:244-252 | the loop as written writes the records of the first rows in order. It returns their count, or the `to_dict` error of the row that stopped it. It writes as many rows as `RowLimitAsWritten` allows |
| Dump.DumpCapped | mptracker/models.py:244-252 | the same loop with the cap tested before each row writes as many rows as `RowLimit` allows |

## Left out

- The order of calls on the session. The model keeps the objects added, in order, and counts flushes and commits; whether a flush came before or after a given add is not recorded.
- Patcher.Batch.AddAll: requires the flush interval 1000, the only value `update` passes. `process` with another interval, or with none, is covered only through `Patcher.Batch.Add` and the `Flushing` lemmas.
- Patcher.TablePatcher.Update: states how many objects it gives the session (one per created row), not which ones. `Patcher.TablePatcher.Add` states that for each single add: the created row and nothing else.
- Patcher.TablePatcher.UpdateIntended: states how many objects it gives the session, not which ones, as for `Update`.
- Patcher.TablePatcher.Batched: states how many objects it gives the session, not which ones, as for `Update`.
- Patcher.Batch.AddAll: states how many objects it gives the session, not which ones, as for `Update`.
- Patcher.Batch.Feed: states how many objects it gives the session, not which ones, as for `Update`.
- Values.Get: reads a field the row was never given as `None`. That is what `getattr` does for a mapped column. For a name that is no column of the model, `getattr` on a loaded row raises `AttributeError` (mptracker/common.py:70), so `add` fails in the source. The model instead reports a change and writes the field. The model takes records to carry only columns of the table.
- TableLoader.DecodeDict: a refused record reports every failing field. The source raises on the first failing field in the JSON object's key order, and a map keeps no order.
- People.NameBitsReordered: proved for any three tokens in the shapes of "Ana-Maria Pop" and "Pop  Ana Maria" rather than evaluated on those two literal names.
- The database:
  - queries are given as sequences of rows in query order;
  - the filters `dump` builds are evaluated by the database, and so is `order_by('id')`;
  - an unknown filter column (`getattr` on the model) is not modelled.
- `get_model_map` and the lookup of a table by name. `TableLoader` is built from the table's column list (name and whether the type is `Date`).
- The stdin/stdout JSON I/O of `load` and `dump`, and `load` itself. The `number` argument of `dump` is taken as an integer; parsing the command-line string with `int` is not modelled.
- `parse_date` accepts ASCII digits only; the Unicode digits Python's `strptime` also matches are not modelled.
- Logging calls, the text of exception messages, and uuid generation (a created row is a fresh object).
- Columns of `Person` and `User` other than `name`, `cdep_id` and `email`.

## Findings

| source | as written | input that shows it | evidently intended | confidence | as-written member | corrected member |
|---|---|---|---|---|---|---|
| mptracker/common.py:91-93 | `counters['total'] += 0` keeps `total` at 0, so `0 % autoflush == 0` holds on every add and `update` flushes after each record | an `update` of two records: two flushes | `total += 1`: one flush per `autoflush` adds | medium, not executed | Patcher.TablePatcher.Update | Patcher.TablePatcher.UpdateIntended |
| mptracker/models.py:247-250 | the count is tested only after a row is written, so a cap of zero or less still writes one row | `dump(..., number=0)` over a table with one row writes that row | at most `number` rows | low, not executed | Dump.DumpAsWritten | Dump.DumpCapped |

`Flushing.FlushCountDiscrepancy` and `Dump.RowLimitDiscrepancy` work out the two inputs above.

`Patcher.Batch` carries the growth of `total` as a constant step: 0 as written, 1 as intended.
- `Patcher.TablePatcher.Update` runs the code as written. `Flushing.FlushCountAsWritten` proves that it flushes once per successful add.
- `Patcher.TablePatcher.UpdateIntended` runs the corrected step. `Flushing.FlushCountEveryInterval` proves one flush per 1000 adds for it.
