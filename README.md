# Record ingestion, modelled in Dafny

This project models the record-ingestion code of `src/exercices/exercices.rs`:

- **The record parser** (`parse_record`). One comma-separated line `<id>,<name>[,<email>]` becomes a `Record` or a `ParseError`.
- **The record store** (`Records`). A map from id to record. `add` overwrites by id, `into_vec` drains the store and returns the records sorted by id, and `next_id` allocates the id after the largest one.
- **Batch ingestion** (`parse_records`). The buffer is split on newlines and empty lines are skipped. Each other line is parsed: successes go into the store, and failures are skipped and, in verbose mode, reported with their 1-based line number.
- **Two decision functions**: `is_in_stock` and `try_access`, over the `Item`, `Employee`, `Position` and `Status` types.

Files, one module each:

| file | module | models |
|---|---|---|
| `wrappers.dfy` | `Wrappers` | Rust's `Option` and `Result` |
| `text.dfy` | `Text` | `str::split` on one character, and its inverse `Join` |
| `decimal.dfy` | `Decimal` | `i32::from_str_radix(s, 10)` and `ParseIntError`'s kinds; `FormatInt`, its inverse |
| `record_parser.dfy` | `RecordParser` | `Record`, `ParseError`, `parse_record` |
| `sorting.dfy` | `Sorting` | `sort_by_key` / `sort` as an in-place insertion sort of an array |
| `record_store.dfy` | `RecordStore` | the `Records` class: `new`, `add`, `into_vec`, `next_id` |
| `ingest.dfy` | `Ingest` | `parse_records`: the loop, plus the reference functions `IngestLines` and `LineDiagnostics` |
| `access.dfy` | `Access` | `is_in_stock`, `try_access` and their types |

How each part is modelled:

- **The store** is a class. Its field `inner: map<Int32, Record>` stands for the `HashMap<i32, Record>`. Its invariant `Valid()` says that every record is stored under its own id.
- **`Add`** states the whole new map.
- **`IntoVec`** drains the map in an arbitrary order, since `HashMap::drain` promises none. It then sorts an array in place by id. It promises that the result is strictly ascending by id and holds exactly the store's records, and that the store is empty afterwards.
- **`NextId`** copies the keys in arbitrary order, sorts them and takes the last one. It is proved equal to the reference `NextIdOf`, and it does not modify the store.
- **`ParseRecords`** is the `for` loop over the split lines. It is proved against the reference functions `IngestLines` and `LineDiagnostics`. Lemmas say what those functions mean: which ids end up in the store, which line wins for a repeated id, which lines are reported, and that rejected lines change nothing.

### Where the model departs from the code as written

The Rust file does not compile. Where it fails to, the model follows the evident intent:

- `Records::new` takes `&mut self`. It is modelled as a constructor.
- `sorty_by_keys` and `collet` are modelled as `sort_by_key` and `collect`.
- `parse_records` does not return `records`. The model returns it.
- Line 64 maps the name to a `bool`. The intended `.filter(|name| name != "")` is modelled, so an empty name field is `MissingField("name")`, exactly like a missing one.
- Line 61 parses the id as `i64`, but `Record.id` and the map key are `i32` (lines 9 and 16). The model parses with `i32` semantics, so an id that does not fit in the record is `InvalidId`.
- `next_id` returns `i64`. The model proves its result always fits in `i64`: it is at most `i32::MAX + 1`.
- `InvalidId` wraps the integer parser's error kind, as `#[from] ParseIntError` does. `Empty`, `InvalidDigit`, `PosOverflow` and `NegOverflow` follow Rust's integer parser:
  - `""` is `Empty`.
  - A lone `+` or `-` is `InvalidDigit`.
  - Overflow is checked digit by digit, so `"99999999999x"` is `PosOverflow`.

The model also makes these points of the code explicit:

- `split(",")` always yields a first field. So the `None` branch of line 62 cannot be reached, and an empty id field (as in `""` or `",NoId"`) becomes `InvalidId(Empty)`.
- `EmptyRecord` is never produced. `ParseRecord`'s contract states this.

## Model

| member | source | states |
|---|---|---|
| `Text.Split` | src/exercices/exercices.rs:58 | a text with n separators splits into n + 1 pieces, none containing the separator |
| `Text.JoinSplit` | src/exercices/exercices.rs:76 | splitting loses nothing: joining the pieces with the separator gives the text back |
| `Text.SplitJoin` | src/exercices/exercices.rs:76 | pieces free of the separator are recovered exactly by splitting their join |
| `Text.SplitAround` | src/exercices/exercices.rs:58 | a separator between two texts splits the pieces of each side apart |
| `Decimal.ParseInt32` | src/exercices/exercices.rs:61 | the id parser fails with `Empty` exactly on the empty text |
| `Decimal.Accumulate` | src/exercices/exercices.rs:61 | the digit loop never reports `Empty`, reports `PosOverflow` only for a non-negative and `NegOverflow` only for a negative number |
| `Decimal.AccumulateCorrect` | src/exercices/exercices.rs:61 | the digit loop, overflow-checked at each digit, succeeds exactly when every remaining character is a digit and the whole value fits `i32`, and it returns that value |
| `Decimal.ParseInt32Correct` | src/exercices/exercices.rs:61 | the id parser accepts exactly an optional sign followed by one or more digits whose value fits `i32`, and returns that value |
| `Decimal.ParseFormatInt` | src/exercices/exercices.rs:61 | every `i32`, written in decimal, parses back to itself |
| `RecordParser.ParseRecord` | src/exercices/exercices.rs:57-71 | never `EmptyRecord`; a parsed record has a non-empty, comma-free name and an email that, when present, is non-empty and comma-free |
| `RecordParser.ParseRecordId` | src/exercices/exercices.rs:58-63 | `InvalidId` exactly when the text before the first comma (possibly empty) is not a decimal that fits `i32`; on success the id is that field's value |
| `RecordParser.ParseRecordEmptyId` | src/exercices/exercices.rs:58-62 | the empty line, and any line that starts with a comma, fail with `InvalidId(Empty)` |
| `RecordParser.ParseRecordFields` | src/exercices/exercices.rs:64-70 | with a valid id: `MissingField("name")` exactly when there is no second field or it is empty; otherwise the name is field 1, and the email is `None` when field 2 is absent or empty and `Some(field 2)` otherwise |
| `RecordParser.ParseRecordIgnoresExtraFields` | src/exercices/exercices.rs:68-70 | fields after the third do not change the result |
| `RecordParser.ParseIdName` | src/exercices/exercices.rs:57-71 | the line `<id>,<name>` parses to that id, that name and no email |
| `RecordParser.ParseIdNameEmail` | src/exercices/exercices.rs:57-71 | the line `<id>,<name>,<email>` parses to that id and name, with no email when the email field is empty and that email otherwise |
| `Sorting.SortByKey` | src/exercices/exercices.rs:32 | the array ends sorted by the key and is a permutation of what it held |
| `Sorting.DistinctKeysPermutation` | src/exercices/exercices.rs:31-32 | a permutation of a sequence whose keys are distinct has distinct keys |
| `Sorting.StrictlySortedUnique` | src/exercices/exercices.rs:30-34 | two strictly ascending sequences with the same elements are equal, so the export is determined by the store's contents |
| `RecordStore.NextIdOf` | src/exercices/exercices.rs:36-43 | the allocated id is 1 for no ids and otherwise the largest id plus one, so it is larger than every id and differs from each |
| `RecordStore.NextIdConsecutive` | src/exercices/exercices.rs:36-43 | once the allocated id is taken, the next allocation is one larger: allocated ids are consecutive |
| `RecordStore.Records.constructor` | src/exercices/exercices.rs:19-24 | a new store is empty and valid |
| `RecordStore.Records.Add` | src/exercices/exercices.rs:26-28 | the record is stored under its id, an earlier record with that id is discarded, every other id keeps its entry, and the size grows by at most one |
| `RecordStore.Records.IntoVec` | src/exercices/exercices.rs:30-34 | returns exactly the store's records, one per id, in strictly ascending id order, and leaves the store empty |
| `RecordStore.Records.NextId` | src/exercices/exercices.rs:36-43 | returns `NextIdOf` of the current ids without changing the store, and the result fits `i64` |
| `Ingest.IngestValid` | src/exercices/exercices.rs:74-92 | after ingestion every record is stored under its own id |
| `Ingest.IngestKeys` | src/exercices/exercices.rs:74-92 | the store holds id k exactly when some non-empty line parses to a record with id k; a failing line does not stop later lines |
| `Ingest.IngestLastWins` | src/exercices/exercices.rs:76-79 | for a repeated id, the record of the last line carrying that id is the one stored |
| `Ingest.IngestSkipsRejected` | src/exercices/exercices.rs:77-90 | deleting an empty or malformed line from the input leaves the resulting store unchanged |
| `Ingest.DiagnosticsExact` | src/exercices/exercices.rs:80-88 | a diagnostic is reported exactly for each non-empty line that fails, with its 1-based line number, its error and the raw line |
| `Ingest.DiagnosticsInLineOrder` | src/exercices/exercices.rs:76-88 | diagnostics come in strictly increasing line order, and each line number is between 1 and the number of lines |
| `Ingest.LoadSkipsMalformedLine` | src/exercices/exercices.rs:74-92 | a buffer of two valid lines around one with an empty id (for example `"1,Alice\n,NoId\n2,Bob\n"`) loads exactly both ids and reports only line 2 |
| `Ingest.ParseRecords` | src/exercices/exercices.rs:74-93 | returns a fresh valid store equal to `IngestLines` of the lines in order, and the diagnostics (empty unless verbose) equal to `LineDiagnostics` |
| `Access.IsInStock` | src/exercices/exercices.rs:171-177 | `Err("out of stock")` exactly when the count is zero, `Ok` otherwise |
| `Access.TryAccess` | src/exercices/exercices.rs:179-193 | `Ok` exactly for an active employee in Maintenance, Marketing or Managers; a terminated employee gets `Err("terminated")` whatever the position; an active one in another position gets `Err("invalid position")` |

## Left out

- `load_records` (src/exercices/exercices.rs:97-102) opens a file and reads it into a string. That is I/O: the model takes the buffer as given.
- The `println!` text of `parse_records` (lines 81-88) is console output. The model returns each report as a structured `Diagnostic` (line number, error, raw line) instead of a formatted string, so the `thiserror` message texts are not modelled.
- `print_access` (lines 195-199) and `main` (lines 203-361) are printing demos over ad hoc maps and loops.
- `Tickets` and `Ticket` (lines 104-132) have contradictory duplicate definitions and a one-argument `HashMap::insert`. They have no coherent behaviour to model.
- `Survey` and `Student` (lines 135-144) only declare data.
- src/thiserror.rs is an error enum whose messages come from attributes. It has no logic.
- src/main.rs and src/hashable.rs are a blockchain demo. `hash` calls a foreign SHA-256 routine, and `Block` is not part of this model.
- `HashMap::drain` and `keys()` iterate in an unspecified order. The model picks the keys in an arbitrary order, and its contracts do not depend on that order.
- `Sorting.SortByKey`: does not state that the sort is stable, which Rust's `sort_by_key` is. Ids are distinct in the store and equal integers are indistinguishable, so stability cannot affect any result here.
