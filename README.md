# College data portal: record store and dashboard counts

The application keeps one CSV file per kind of record (enrollment, staff,
programmes, departments and others) in a data folder. Its only reusable logic is a
small tabular record store in `app.py`:

- `read_csv` reads a file into a list of dicts, with keys and values stripped.
- `write_csv` rewrites a file as a header plus rows.
- `append_csv` adds one row, writing the header only if the file is new.
- `delete_record` and `update_record` read the list, remove or replace the entry
  at a checked position, and write the list back.

The home page `index()` sums the headcount columns of the enrollment file and the
teaching rows of the staff file, and counts the programme and department rows.

This Dafny project models that code.

- `wrappers.dfy` holds `Option`, `Result` and `Outcome`.
- `text.dfy` models Python's `str.strip` (with `str.isspace`'s whitespace set) and
  `str.lower`.
- `pyint.dfy` models `int()` on a string, with `str()` of an integer as its inverse.
- `csv.dfy` models one file as a header row plus data rows, covering:
  - what `csv.DictWriter` writes, including the `ValueError` it raises on a key
    outside `fieldnames`;
  - what `read_csv` gets back, including `csv.DictReader`'s skipping of blank lines,
    its `dict(zip(...))` construction, and the failure of `.strip()` on the `None`
    key or value of a line whose length differs from the header's.
- `store.dfy` models the data folder as a class `RecordStore`. Its field is a map
  from file name to file. Its methods `Write`, `Append`, `Delete` and `Update`
  change that map as the four writing functions change the folder; its function
  `Read` is `read_csv`.
- `dashboard.dfy` models the counting loops of `index()` as methods with loop
  invariants. They are proved against fold functions, and properties of those
  folds are proved as lemmas.

Exceptions are values. A `StoreError` is either `MalformedRow` (the
`AttributeError` from `read_csv` on a line of the wrong length) or `UnknownField`
(the `ValueError` from `DictWriter`). They propagate exactly as far as the Python
exception would.

A record in normal form (`Csv.Normalize`) is what reading gives back after a
write: one entry per field, "" for a field the record lacks, and every value
stripped.

Two behaviours of the code are easy to miss:

- Keys outside the field list are not silently dropped. `DictWriter` raises on
  them.
  - `write_csv` has already truncated the file and written the header and every
    record before the rejected one.
  - If the file did not exist, `append_csv` has already created it and written
    the header.
  - So an `update_record` whose new record carries an unknown key leaves only the
    records before `index` (`Csv.ReadAfterUpdate`).
- With an empty field list every line is blank. A file written that way reads as
  `[]`, so an append to it does not grow the collection.

## Model

| member | source | states |
|---|---|---|
| `Text.StripStripped` | app.py:19 | `strip()` leaves no whitespace at either end |
| `Text.StripFixes` | app.py:19 | `strip()` changes a string exactly when it has whitespace at an end (both directions) |
| `Text.StripBounds` | app.py:19 | `strip()` returns a contiguous slice of its input, and everything cut off on either side is whitespace |
| `Text.Strip` | app.py:19 | `str.strip()`: drops whitespace from both ends (its properties are the three lemmas above) |
| `Text.Lower` | app.py:76 | lower-casing keeps the length, turns every capital into the small letter at the same place in the alphabet, and changes nothing else |
| `PyInt.ParseInt` | app.py:67-69 | `int()` fails on a blank string; a parsed string is, after stripping, at most one leading sign followed by at least one digit, so a lone `+` or `-` fails |
| `PyInt.Digits` | app.py:67-69 | `str()` of a natural number is a non-empty digit string with no leading zero |
| `PyInt.DigitsValueOfDigits` | app.py:67-69 | the digits `str()` writes denote the number itself |
| `PyInt.ParseShow` | app.py:67-69 | `int(str(n)) == n` for every integer |
| `PyInt.SignedDigitsStripped` | app.py:67-69 | an optionally signed run of decimal digits has no whitespace for `int()` to strip |
| `PyInt.ParseSignedDigits` | app.py:67-69 | every string that strips to an optionally signed run of decimal digits parses, to the value of its digits with the sign applied (so `int(" 5 ") == 5`, `int("007") == 7`, `int("+5") == 5`) |
| `Csv.Get` | app.py:26 | the value `DictWriter` writes for a field: the record's value, or "" when the record lacks it |
| `Csv.RowOf` | app.py:26 | the line `DictWriter` writes for a record: one value per field, in field order |
| `Csv.FirstUnfit` | app.py:26 | `writerows` writes exactly the records before the first one with a key outside the fields |
| `Csv.WriteCsv` | app.py:21-26 | the file written has the given fields as header and one value per field on every line |
| `Csv.WriteStatus` | app.py:21-26 | `write_csv` returns normally exactly when every record's keys are among the fields; otherwise it raises the `DictWriter` error |
| `Csv.AppendCsv` | app.py:28-35 | appending keeps an existing header, and keeps a file that matches the fields matching them (a new file gets the fields as header) |
| `Csv.Assign` | app.py:17 | a dict assignment adds the key to the key set; a new key lengthens the dict by one and an old key does not |
| `Csv.AssignValues` | app.py:17 | a new key goes last with the new value; an existing key keeps its place; afterwards the key holds the new value and every other key holds what it held |
| `Csv.ZipDict` | app.py:17 | the dict built for one line has exactly the header's names as keys |
| `Csv.ZipDictValues` | app.py:17 | in the dict built for one line, each header name holds the value at its last position in the header |
| `Csv.StripItems` | app.py:19 | the stripping comprehension: each item's key and value stripped, a later item winning when two keys strip alike (its properties are the `StripItems…` lemmas) |
| `Csv.ReadRow` | app.py:17-19 | the record `read_csv` returns for one line (its properties are `ReadRowShape` and `RowRoundTrip`) |
| `Csv.ReadRows` | app.py:17-19 | reading fails exactly when some line is neither blank nor as long as the header, the failure being `MalformedRow`, and yields at most one record per line |
| `Csv.ReadCsv` | app.py:12-15 | a missing file reads as the empty list, never an error |
| `Csv.StripItemsStripped` | app.py:19 | the stripping comprehension yields stripped keys and values |
| `Csv.StripItemsKeys` | app.py:19 | items whose keys need no stripping keep their key set |
| `Csv.KeysOfHas` | app.py:17 | every item's key is among the dict's keys |
| `Csv.ReadRowShape` | app.py:17-19 | a record read from a line has stripped keys and values, and its keys are exactly the header's names when those need no stripping |
| `Csv.ReadRowsStripped` | app.py:17-19 | whatever the file holds, every record a read returns has stripped keys and values |
| `Csv.ReadRowsInOrder` | app.py:17-19 | lines as long as a non-empty header read as one record per line, in file order |
| `Csv.BlankRowsReadEmpty` | app.py:17-19 | a file whose lines are all blank reads as `[]` |
| `Csv.AssignAgrees` | app.py:17 | assigning a record's value for a trimmed field keeps the dict in agreement with the record |
| `Csv.ZipAgrees` | app.py:17 | the dict read from a written line holds, for each field, the record's value |
| `Csv.StripItemsAgrees` | app.py:19 | stripping a dict that agrees with a record gives its keys and the record's stripped values |
| `Csv.RowRoundTrip` | app.py:17-26 | one record written and read back is the record in normal form |
| `Csv.ReadAfterWrite` | app.py:12-26 | `write_csv` then `read_csv` gives the records before the first rejected one, in order, in normal form (`[]` for a header-only or field-less file) |
| `Csv.NormalizeKeeps` | app.py:19-26 | a record with exactly the fields as keys and stripped values is accepted by the writer and is its own normal form |
| `Csv.ConformingRead` | app.py:17-19 | a file written with the given fields reads as one record per line, in order (nothing when there are no fields) |
| `Csv.ConformingReadIsNormal` | app.py:17-26 | such a read never fails, and every record it returns is accepted by the writer and unchanged by normalising |
| `Csv.ReadEachSnoc` | app.py:17-19 | one more line at the end gives one more record at the end |
| `Csv.ReadAfterAppend` | app.py:28-35 | on a missing file or one written with the same fields, the collection grows by exactly the appended record in normal form, at the end (nothing for a rejected record or an empty field list) |
| `Csv.HeaderOnlyThenAppend` | app.py:21-35 | a header-only file reads as `[]`, and one append then gives exactly one record |
| `Csv.ReadAfterDelete` | app.py:37-42 | rewriting without position `index` succeeds and reads back as `old[..index] + old[index+1..]` |
| `Csv.RewriteWithout` | app.py:40-41 | a collection read from a matching file, written back without one position, is accepted and reads back as exactly that shorter collection |
| `Csv.ReadAfterUpdate` | app.py:45-50 | rewriting with `record` at `index` succeeds and reads back as the old collection with only position `index` changed, or raises and leaves only the records before `index` |
| `Csv.ReadAfterAcceptedWrite` | app.py:21-26 | a write in which every record is accepted succeeds and reads back as all of them, in order, in normal form |
| `Csv.RewriteAccepted` | app.py:48-49 | an accepted replacement reads back with only its own position changed |
| `Csv.RewriteRejected` | app.py:48-49 | a rejected replacement raises, and the file keeps only the records before it |
| `Store.RecordStore.Read` | app.py:38 | the `read_csv` call at the start of `delete_record` and `update_record`: the file's contents read as `Csv.ReadCsv` reads them |
| `Store.RecordStore.Write` | app.py:21-26 | only file `name` changes, to the written file; the status is `Pass` exactly when every record fits; a successful write reads back as the records in normal form |
| `Store.RecordStore.Append` | app.py:28-35 | only file `name` changes; the status is `Pass` exactly when the record fits; on a matching file the read collection grows by the record in normal form |
| `Store.RecordStore.Delete` | app.py:37-43 | a read error propagates with nothing written; an index outside `0 <= index < len` gives `false` with nothing written; otherwise the collection without `index` is written, giving `true` and reading back as `old[..index] + old[index+1..]` on a matching file |
| `Store.RecordStore.Update` | app.py:45-51 | as `Delete`, with position `index` replaced: on a matching file the result is `true` and only position `index` changes, or a rejected record raises and leaves the records before `index` |
| `Dashboard.FieldCount` | app.py:67-69 | `int(record.get(k, 0) or 0)`: a missing or empty value counts 0, anything else is parsed (stated by `HeadcountOfBlank`, `HeadcountOfShown`) |
| `Dashboard.Headcount` | app.py:66-69 | what one record adds: its three counts up to the first that fails to parse |
| `Dashboard.HeadcountTotal` | app.py:65-71 | the fold the student loop computes (stated by `CountStudents`) |
| `Dashboard.IsTeaching` | app.py:76 | `record.get('staff_type', '').lower() == 'teaching'` (stated by `TeachingSpelling`) |
| `Dashboard.Teaching` | app.py:75-76 | the staff records the faculty loop counts (stated by `TeachingFilters`) |
| `Dashboard.ParsedSumOfThree` | app.py:66-69 | three sequential additions add each count only if every earlier one parsed |
| `Dashboard.AddHeadcount` | app.py:66-71 | one pass through the `try` block adds exactly the record's headcount |
| `Dashboard.CountStudents` | app.py:64-71 | the student total is the sum of the headcounts of all enrollment records |
| `Dashboard.CountFaculty` | app.py:74-82 | the faculty total is the sum of the headcounts of the teaching-staff records only |
| `Dashboard.HeadcountTotalSnoc` | app.py:65-71 | one more record adds exactly its headcount |
| `Dashboard.TeachingSnoc` | app.py:75-76 | one more record joins the teaching records exactly when it is teaching staff |
| `Dashboard.FacultyTotalSnoc` | app.py:75-82 | one more staff record adds its headcount to the faculty total only if it is teaching staff |
| `Dashboard.Index` | app.py:53-92 | the first of the four reads that fails ends the page with that read's error (each of the four cases stated); otherwise the figures are the student total, the faculty total, and the programme and department row counts |
| `Dashboard.HeadcountTotalConcat` | app.py:65-71 | totals add up over any split of the records |
| `Dashboard.HeadcountOfShown` | app.py:67-69 | a record holding `str(m)`, `str(f)`, `str(t)` in the three columns adds `m + f + t` |
| `Dashboard.HeadcountOfBlank` | app.py:67-69 | a record whose three columns are missing or empty adds 0 |
| `Dashboard.ParsedSumStops` | app.py:66-71 | a count that fails to parse ends the run: what is added is the sum before it |
| `Dashboard.HeadcountStopsAtFailure` | app.py:66-71 | a column that fails to parse skips the rest of the record while keeping the columns already added |
| `Dashboard.TeachingFilters` | app.py:75-76 | the teaching records are exactly the records whose staff type lower-cases to "teaching", each one as many times as it occurs among the records, and there are no more of them than records |
| `Dashboard.TeachingHasType` | app.py:76 | a teaching record has a staff-type column: a missing one counts as "" |
| `Dashboard.TeachingSpelling` | app.py:76 | a record is teaching staff exactly when its staff type has eight characters, each the matching letter of "teaching" in small or capital form |
| `Dashboard.TeachingKeepsAll` | app.py:75-76 | when every staff record is teaching staff, none is filtered out |

## Left out

- Flask routing, form parsing, `flash`, `redirect`, `render_template` and the nine
  route handlers are not modelled. `Dashboard.Index` returns the figures the
  template would receive.
- Real file I/O and `os.makedirs` are not modelled. The data folder is a map from
  file name to file; a missing file is a missing key. File-system errors
  (permissions, a full disk) are not modelled.
- The CSV text encoding is taken to be exact: quoting, escaping, line terminators
  and UTF-8 decoding are not modelled, and a file reads back as the rows that
  were written.
- A malformed file is modelled only as a line whose length differs from the
  header's. Other damage to the text is part of the encoding left out above.
- Concurrent requests and the lost-update race between a read and its rewrite are
  not modelled. Every operation is one step on the map.
- PyInt.ParseInt: accepts only an optional sign and ASCII decimal digits. Python's
  `int()` also accepts underscores between digits and non-ASCII decimal digits;
  for those the model reports a failed parse.
- PyInt.ParseInt: skips the whole `str.isspace` set around the number, including
  U+001C to U+001F, which `int()` does not skip. In `index()` this never matters,
  because every value has already been stripped by `read_csv`
  (`Csv.ReadRowsStripped`).
- PyInt.ParseInt: parses digit strings of any length. Current CPython raises
  `ValueError` on strings of more than 4300 digits, which a submitted form value
  could reach.
- Record key order: `read_csv` returns dicts whose keys follow the header, while a
  `Record` is an unordered map. Nothing in the modelled code observes that order:
  `DictWriter` writes in field order and `index()` looks values up by key.
- Text.Lower: changes ASCII capitals only. Python's `lower()` also maps other
  letters, but no other letter lower-cases into "teaching", so the staff-type
  comparison is the same.
- Csv.ReadAfterAppend, Csv.ReadAfterDelete, Csv.ReadAfterUpdate: state the
  read-back only for a file this store wrote with the same field names, and for
  field names that need no stripping (every field list in the application is
  such). For other files the methods in `Store.RecordStore` still state exactly
  what is written.
