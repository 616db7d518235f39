/** One CSV file of the record store, abstracted to its header and its rows, together
    with what `csv.DictWriter` puts into it and what `read_csv` (a `csv.DictReader`
    followed by stripping) gets out of it. The text encoding itself is taken to be
    exact: reading the file yields back the rows as the writer was handed them. */
module Csv {
  import opened Wrappers
  import opened Text

  /** One row as the application sees it: field name to text. */
  type Record = map<string, string>

  /** One line of the file: the values in column order. */
  type Row = seq<string>

  /** A file on disk: the header line, then one line per row. */
  datatype CsvFile = CsvFile(header: Row, rows: seq<Row>)

  /** The two exceptions the store can raise: `read_csv` on a line whose length differs
      from the header's (it calls `.strip()` on a `None` key or value), and
      `DictWriter` handed a record with a key outside `fieldnames` (`ValueError`). */
  datatype StoreError = MalformedRow | UnknownField

  /* ---------------- writing ---------------- */

  /** `rowdict.get(key, "")`: the value `DictWriter` writes for a field the record lacks. */
  function Get(r: Record, k: string): string {
    if k in r then r[k] else ""
  }

  /** `DictWriter` accepts the record: it has no key outside `fields`. */
  predicate Fits(r: Record, fields: Row) {
    forall k :: k in r ==> k in fields
  }

  /** The line `DictWriter` writes for a record that fits. */
  function RowOf(r: Record, fields: Row): Row {
    seq(|fields|, i requires 0 <= i < |fields| => Get(r, fields[i]))
  }

  /** How many records `writerows` writes before the first one it rejects. */
  function FirstUnfit(data: seq<Record>, fields: Row): (n: nat)
    ensures n <= |data|
    ensures forall i :: 0 <= i < n ==> Fits(data[i], fields)
    ensures n < |data| ==> !Fits(data[n], fields)
  {
    if data == [] || !Fits(data[0], fields) then 0 else 1 + FirstUnfit(data[1..], fields)
  }

  /** The record at `k` is the first one `DictWriter` rejects. */
  lemma FirstUnfitAt(data: seq<Record>, fields: Row, k: nat)
    requires k < |data| && !Fits(data[k], fields)
    requires forall i :: 0 <= i < k ==> Fits(data[i], fields)
    ensures FirstUnfit(data, fields) == k
  {
  }

  /** The file has header `fields` and every line has one value per field: the shape
      everything this store writes with `fields` has. */
  predicate Conforms(f: CsvFile, fields: Row) {
    f.header == fields && forall i :: 0 <= i < |f.rows| ==> |f.rows[i]| == |fields|
  }

  /** A missing file conforms to any field list: the next append writes the header. */
  predicate ConformsOpt(f: Option<CsvFile>, fields: Row) {
    f.None? || Conforms(f.value, fields)
  }

  /** The file `write_csv(filename, data, fields)` leaves behind: the header, then the
      records up to the first one `DictWriter` rejects (the file is truncated on
      opening, so a rejected record leaves a shortened file, not the old one). */
  function WriteCsv(data: seq<Record>, fields: Row): (f: CsvFile)
    ensures Conforms(f, fields)
  {
    CsvFile(fields, seq(FirstUnfit(data, fields), i requires 0 <= i < FirstUnfit(data, fields) => RowOf(data[i], fields)))
  }

  /** Whether `write_csv` (or `append_csv` with `[record]`) returns or raises. */
  function WriteStatus(data: seq<Record>, fields: Row): (s: Outcome<StoreError>)
    ensures s.Pass? <==> forall i :: 0 <= i < |data| ==> Fits(data[i], fields)
    ensures s.Fail? ==> s.error == UnknownField
  {
    if FirstUnfit(data, fields) == |data| then Pass else Fail(UnknownField)
  }

  /** The file `append_csv(filename, record, fields)` leaves behind. A missing file is
      created with the header first; the record's line is added only if
      `DictWriter` accepts it, but the header is written (and the file created) either
      way. Appending with the fields a file conforms to keeps it conforming. */
  function AppendCsv(existing: Option<CsvFile>, record: Record, fields: Row): (f: CsvFile)
    ensures ConformsOpt(existing, fields) ==> Conforms(f, fields)
    ensures existing.Some? ==> f.header == existing.value.header
  {
    var base := if existing.Some? then existing.value else CsvFile(fields, []);
    if Fits(record, fields) then CsvFile(base.header, base.rows + [RowOf(record, fields)]) else base
  }

  /* ---------------- reading ---------------- */

  /** A Python dict as its items in insertion order. */
  type Dict = seq<(string, string)>

  /** The keys of a dict. */
  function KeysOf(d: Dict): set<string> {
    if d == [] then {} else {d[0].0} + KeysOf(d[1..])
  }

  /** `d[k]`: the value of the first item with key `k`. */
  function Lookup(d: Dict, k: string): Option<string> {
    if d == [] then None else if d[0].0 == k then Some(d[0].1) else Lookup(d[1..], k)
  }

  /** `d[k] = v`: a key already present keeps its place and takes the new value; a new
      key goes last. */
  function Assign(d: Dict, k: string, v: string): (d': Dict)
    ensures KeysOf(d') == KeysOf(d) + {k}
    ensures |d'| == if k in KeysOf(d) then |d| else |d| + 1
  {
    if d == [] then [(k, v)]
    else if d[0].0 == k then
      assert ([(k, v)] + d[1..])[1..] == d[1..];
      [(k, v)] + d[1..]
    else
      var rest := Assign(d[1..], k, v);
      assert ([d[0]] + rest)[1..] == rest;
      [d[0]] + rest
  }

  /** What `d[k] = v` does to the items: a new key is added last with value `v`; for a
      key already present every item keeps its place, and every item with another key
      keeps its value. Afterwards `k` holds `v` and every other key holds what it held. */
  lemma {:induction false} AssignValues(d: Dict, k: string, v: string)
    ensures k !in KeysOf(d) ==> Assign(d, k, v) == d + [(k, v)]
    ensures k in KeysOf(d) ==> forall i :: 0 <= i < |d| ==>
      Assign(d, k, v)[i].0 == d[i].0 && (d[i].0 != k ==> Assign(d, k, v)[i].1 == d[i].1)
    ensures Lookup(Assign(d, k, v), k) == Some(v)
    ensures forall k' :: k' != k ==> Lookup(Assign(d, k, v), k') == Lookup(d, k')
  {
    if d != [] && d[0].0 != k {
      var rest := Assign(d[1..], k, v);
      AssignValues(d[1..], k, v);
      assert Assign(d, k, v) == [d[0]] + rest;
      assert ([d[0]] + rest)[1..] == rest;
      if k !in KeysOf(d) {
        assert [d[0]] + (d[1..] + [(k, v)]) == d + [(k, v)];
      } else {
        assert forall i :: 1 <= i < |d| ==> d[i] == d[1..][i - 1] && Assign(d, k, v)[i] == rest[i - 1];
      }
    } else if d != [] {
      assert ([(k, v)] + d[1..])[1..] == d[1..];
    }
  }

  /** `dict(zip(keys, vals))`, the dict `DictReader` builds for one line: the keys are
      the header's names (a repeated name keeps its first place). */
  function ZipDict(keys: Row, vals: Row): (d: Dict)
    requires |keys| == |vals|
    ensures KeysOf(d) == set k | k in keys
  {
    if keys == [] then []
    else
      var n := |keys| - 1;
      assert keys == keys[..n] + [keys[n]];
      Assign(ZipDict(keys[..n], vals[..n]), keys[n], vals[n])
  }

  /** In the dict built for one line, each name holds the value at its last position
      in the header. */
  lemma {:induction false} ZipDictValues(keys: Row, vals: Row)
    requires |keys| == |vals|
    ensures forall j :: 0 <= j < |keys| && LastAt(keys, j) ==>
      Lookup(ZipDict(keys, vals), keys[j]) == Some(vals[j])
  {
    if keys != [] {
      var n := |keys| - 1;
      var prev := ZipDict(keys[..n], vals[..n]);
      ZipDictValues(keys[..n], vals[..n]);
      AssignValues(prev, keys[n], vals[n]);
      var d := ZipDict(keys, vals);
      assert d == Assign(prev, keys[n], vals[n]);
      forall j | 0 <= j < |keys| && LastAt(keys, j) ensures Lookup(d, keys[j]) == Some(vals[j]) {
        if j < n {
          assert keys[n] != keys[j];
          assert keys[..n][j] == keys[j] && vals[..n][j] == vals[j];
          assert LastAt(keys[..n], j);
          assert Lookup(d, keys[j]) == Lookup(prev, keys[j]);
        }
      }
    }
  }

  /** No later position of `keys` holds the name at `j`. */
  predicate LastAt(keys: Row, j: nat)
    requires j < |keys|
  {
    forall j' :: j < j' < |keys| ==> keys[j'] != keys[j]
  }

  /** `{key.strip(): value.strip() for key, value in d.items()}`: when two keys strip
      to the same name the later item wins. */
  function StripItems(d: Dict): Record {
    if d == [] then map[] else map[Strip(d[0].0) := Strip(d[0].1)] + StripItems(d[1..])
  }

  /** One line of a file read with header `header`: the record `read_csv` returns for it. */
  function ReadRow(header: Row, row: Row): Record
    requires |row| == |header|
  {
    StripItems(ZipDict(header, row))
  }

  /** Every key and every value of the record is free of surrounding whitespace. */
  predicate StrippedRecord(r: Record) {
    forall k :: k in r ==> Stripped(k) && Stripped(r[k])
  }

  lemma {:induction false} StripItemsStripped(d: Dict)
    ensures StrippedRecord(StripItems(d))
  {
    if d != [] {
      StripItemsStripped(d[1..]);
      StripStripped(d[0].0);
      StripStripped(d[0].1);
    }
  }

  /** Items whose keys need no stripping keep their keys. */
  lemma {:induction false} StripItemsKeys(d: Dict)
    requires forall i :: 0 <= i < |d| ==> Strip(d[i].0) == d[i].0
    ensures StripItems(d).Keys == KeysOf(d)
  {
    if d != [] {
      assert forall i :: 0 <= i < |d[1..]| ==> d[1..][i] == d[i + 1];
      StripItemsKeys(d[1..]);
    }
  }

  /** Every record `read_csv` builds has stripped keys and values; under a header whose
      names need no stripping its keys are exactly the header's names. */
  lemma ReadRowShape(header: Row, row: Row)
    requires |row| == |header|
    ensures StrippedRecord(ReadRow(header, row))
    ensures TrimmedNames(header) ==> ReadRow(header, row).Keys == set k | k in header
  {
    var d := ZipDict(header, row);
    StripItemsStripped(d);
    if TrimmedNames(header) {
      forall i | 0 <= i < |d| ensures Strip(d[i].0) == d[i].0 {
        KeysOfHas(d, i);
      }
      StripItemsKeys(d);
    }
  }

  lemma {:induction false} KeysOfHas(d: Dict, i: nat)
    requires i < |d|
    ensures d[i].0 in KeysOf(d)
  {
    if i > 0 {
      KeysOfHas(d[1..], i - 1);
    }
  }

  /** A line `DictReader` accepts: blank (skipped) or one value per header name. */
  predicate Readable(header: Row, row: Row) {
    row == [] || |row| == |header|
  }

  /** The list comprehension of `read_csv` over the lines after the header. It fails
      exactly when some line is neither blank nor as long as the header; otherwise
      it yields one record per non-blank line. */
  function ReadRows(header: Row, rows: seq<Row>): (res: Result<seq<Record>, StoreError>)
    ensures res.Ok? <==> forall i :: 0 <= i < |rows| ==> Readable(header, rows[i])
    ensures res.Err? ==> res.error == MalformedRow
    ensures res.Ok? ==> |res.value| <= |rows|
  {
    if rows == [] then Ok([])
    else if rows[0] == [] then
      var rest := ReadRows(header, rows[1..]);
      assert forall i :: 1 <= i < |rows| ==> rows[i] == rows[1..][i - 1];
      rest
    else if |rows[0]| != |header| then Err(MalformedRow)
    else
      match ReadRows(header, rows[1..])
      case Ok(rest) =>
        assert forall i :: 1 <= i < |rows| ==> rows[i] == rows[1..][i - 1];
        Ok([ReadRow(header, rows[0])] + rest)
      case Err(e) =>
        assert forall i :: 1 <= i < |rows| ==> rows[i] == rows[1..][i - 1];
        Err(e)
  }

  /** `read_csv(filename)`: a missing file reads as the empty list, never an error;
      otherwise the lines after the header, each turned into a record. */
  function ReadCsv(f: Option<CsvFile>): (r: Result<seq<Record>, StoreError>)
    ensures f.None? ==> r == Ok([])
  {
    if f.None? then Ok([]) else ReadRows(f.value.header, f.value.rows)
  }

  /* ---------------- properties ---------------- */

  /** Whatever the file holds, every record `read_csv` returns has stripped keys and
      values. */
  lemma {:induction false} ReadRowsStripped(header: Row, rows: seq<Row>)
    ensures ReadRows(header, rows).Ok? ==>
      forall j :: 0 <= j < |ReadRows(header, rows).value| ==> StrippedRecord(ReadRows(header, rows).value[j])
  {
    if rows != [] {
      ReadRowsStripped(header, rows[1..]);
      if rows[0] != [] && |rows[0]| == |header| {
        ReadRowShape(header, rows[0]);
      }
    }
  }

  /** No field name has surrounding whitespace, so reading gives back the names as written. */
  predicate TrimmedNames(fields: Row) {
    forall i :: 0 <= i < |fields| ==> Strip(fields[i]) == fields[i]
  }

  /** The record that reading gives back after `r` was written with `fields`: one entry
      per field, a field `r` lacks as "", every value stripped. */
  function Normalize(r: Record, fields: Row): Record {
    map k | k in fields :: Strip(Get(r, k))
  }

  function NormalizeAll(data: seq<Record>, fields: Row): seq<Record> {
    seq(|data|, i requires 0 <= i < |data| => Normalize(data[i], fields))
  }

  /** Each line read under `header`, one record per line. */
  function ReadEach(header: Row, rows: seq<Row>): seq<Record>
    requires forall i :: 0 <= i < |rows| ==> |rows[i]| == |header|
  {
    seq(|rows|, i requires 0 <= i < |rows| => ReadRow(header, rows[i]))
  }

  /** Lines as long as a non-empty header come back one record per line, in file order. */
  lemma {:induction false} ReadRowsInOrder(header: Row, rows: seq<Row>)
    requires header != []
    requires forall i :: 0 <= i < |rows| ==> |rows[i]| == |header|
    ensures ReadRows(header, rows) == Ok(ReadEach(header, rows))
  {
    if rows != [] {
      assert forall i :: 0 <= i < |rows[1..]| ==> rows[1..][i] == rows[i + 1];
      ReadRowsInOrder(header, rows[1..]);
      var first := ReadRow(header, rows[0]);
      assert rows[0] != [] && |rows[0]| == |header|;
      assert ReadRows(header, rows) == Ok([first] + ReadEach(header, rows[1..]));
      assert [first] + ReadEach(header, rows[1..]) == ReadEach(header, rows);
    }
  }

  /** Blank lines are skipped, so a file whose lines are all blank reads as `[]`. */
  lemma {:induction false} BlankRowsReadEmpty(header: Row, rows: seq<Row>)
    requires forall i :: 0 <= i < |rows| ==> rows[i] == []
    ensures ReadRows(header, rows) == Ok([])
  {
    if rows != [] {
      BlankRowsReadEmpty(header, rows[1..]);
    }
  }

  /** Every item of `d` has a name that needs no stripping and holds `r`'s value for it. */
  predicate Agrees(d: Dict, r: Record) {
    forall i :: 0 <= i < |d| ==> Strip(d[i].0) == d[i].0 && d[i].1 == Get(r, d[i].0)
  }

  lemma {:induction false} AssignAgrees(d: Dict, k: string, r: Record)
    requires Agrees(d, r) && Strip(k) == k
    ensures Agrees(Assign(d, k, Get(r, k)), r)
  {
    if d != [] && d[0].0 != k {
      AssignAgrees(d[1..], k, r);
    }
  }

  lemma {:induction false} ZipAgrees(fields: Row, r: Record)
    requires TrimmedNames(fields)
    ensures Agrees(ZipDict(fields, RowOf(r, fields)), r)
  {
    if fields != [] {
      var n := |fields| - 1;
      assert RowOf(r, fields)[..n] == RowOf(r, fields[..n]);
      ZipAgrees(fields[..n], r);
      AssignAgrees(ZipDict(fields[..n], RowOf(r, fields[..n])), fields[n], r);
    }
  }

  lemma {:induction false} StripItemsAgrees(d: Dict, r: Record)
    requires Agrees(d, r)
    ensures StripItems(d).Keys == KeysOf(d)
    ensures forall k :: k in StripItems(d) ==> StripItems(d)[k] == Strip(Get(r, k))
  {
    if d != [] {
      assert Agrees(d[1..], r) by {
        forall i | 0 <= i < |d[1..]| ensures d[1..][i] == d[i + 1] { }
      }
      StripItemsAgrees(d[1..], r);
    }
  }

  /** One record written with `fields` and read back with header `fields` comes back in
      normal form, provided no field name needs stripping. */
  lemma RowRoundTrip(r: Record, fields: Row)
    requires TrimmedNames(fields)
    ensures ReadRow(fields, RowOf(r, fields)) == Normalize(r, fields)
  {
    var d := ZipDict(fields, RowOf(r, fields));
    ZipAgrees(fields, r);
    StripItemsAgrees(d, r);
    assert ReadRow(fields, RowOf(r, fields)).Keys == Normalize(r, fields).Keys;
  }

  /** `write_csv` then `read_csv`: the records written come back in the same order,
      each in normal form; a rejected record cuts the collection off before it; and
      with no fields at all every line is blank, so the collection reads as `[]`. In
      particular writing `[]` leaves a header-only file that reads as `[]`. */
  lemma ReadAfterWrite(data: seq<Record>, fields: Row)
    requires TrimmedNames(fields)
    ensures ReadCsv(Some(WriteCsv(data, fields)))
      == Ok(if fields == [] then [] else NormalizeAll(data[..FirstUnfit(data, fields)], fields))
  {
    var f := WriteCsv(data, fields);
    if fields == [] {
      BlankRowsReadEmpty(fields, f.rows);
    } else {
      ReadRowsInOrder(fields, f.rows);
      var n := FirstUnfit(data, fields);
      assert |f.rows| == n;
      forall i | 0 <= i < n
        ensures ReadEach(fields, f.rows)[i] == NormalizeAll(data[..n], fields)[i]
      {
        assert f.rows[i] == RowOf(data[i], fields);
        RowRoundTrip(data[i], fields);
      }
      assert ReadEach(fields, f.rows) == NormalizeAll(data[..n], fields);
    }
  }

  /** A record with exactly the given fields and stripped values is its own normal
      form, and `DictWriter` accepts it. */
  lemma NormalizeKeeps(r: Record, fields: Row)
    requires r.Keys == set k | k in fields
    requires StrippedRecord(r)
    ensures Fits(r, fields) && Normalize(r, fields) == r
  {
    forall k | k in r ensures Strip(Get(r, k)) == r[k] {
      StripFixes(r[k]);
    }
    assert Normalize(r, fields).Keys == r.Keys;
  }

  /** What a conforming file reads as: one record per line, in file order (nothing at
      all when there are no fields, every line then being blank). */
  lemma ConformingRead(f: CsvFile, fields: Row)
    requires Conforms(f, fields)
    ensures ReadCsv(Some(f)) == Ok(if fields == [] then [] else ReadEach(fields, f.rows))
  {
    if fields == [] {
      BlankRowsReadEmpty(fields, f.rows);
    } else {
      ReadRowsInOrder(fields, f.rows);
    }
  }

  /** Every record read from a conforming file has exactly the given fields and
      stripped values, so it is already in normal form and `DictWriter` accepts it:
      writing it back changes nothing. */
  lemma ConformingReadIsNormal(f: CsvFile, fields: Row)
    requires Conforms(f, fields) && TrimmedNames(fields)
    ensures ReadCsv(Some(f)).Ok?
    ensures forall j :: 0 <= j < |ReadCsv(Some(f)).value| ==>
      Fits(ReadCsv(Some(f)).value[j], fields)
      && Normalize(ReadCsv(Some(f)).value[j], fields) == ReadCsv(Some(f)).value[j]
  {
    ConformingRead(f, fields);
    if fields != [] {
      var rs := ReadEach(fields, f.rows);
      forall j | 0 <= j < |rs| ensures Fits(rs[j], fields) && Normalize(rs[j], fields) == rs[j] {
        ReadRowShape(fields, f.rows[j]);
        NormalizeKeeps(rs[j], fields);
      }
    }
  }

  lemma ReadEachSnoc(header: Row, rows: seq<Row>, row: Row)
    requires forall i :: 0 <= i < |rows| ==> |rows[i]| == |header|
    requires |row| == |header|
    ensures ReadEach(header, rows + [row]) == ReadEach(header, rows) + [ReadRow(header, row)]
  {
  }

  /** `append_csv` then `read_csv`, on a missing file or one written with the same
      fields: the collection grows by exactly the new record in normal form, at the
      end. A record `DictWriter` rejects, or an empty field list (a blank line), adds
      nothing. On a missing file this reads as just the new record. */
  lemma ReadAfterAppend(existing: Option<CsvFile>, r: Record, fields: Row)
    requires ConformsOpt(existing, fields) && TrimmedNames(fields)
    ensures ReadCsv(existing).Ok?
    ensures ReadCsv(Some(AppendCsv(existing, r, fields))) == Ok(ReadCsv(existing).value
      + if Fits(r, fields) && fields != [] then [Normalize(r, fields)] else [])
  {
    var base := if existing.Some? then existing.value else CsvFile(fields, []);
    var f := AppendCsv(existing, r, fields);
    ConformingRead(base, fields);
    ConformingRead(f, fields);
    var before := if fields == [] then [] else ReadEach(fields, base.rows);
    assert ReadCsv(existing) == Ok(before);
    if Fits(r, fields) && fields != [] {
      assert f.rows == base.rows + [RowOf(r, fields)];
      ReadEachSnoc(fields, base.rows, RowOf(r, fields));
      RowRoundTrip(r, fields);
    } else if Fits(r, fields) {
      assert ReadCsv(Some(f)) == Ok([]) && before == [];
      assert before + [] == before;
    } else {
      assert f == base;
      assert before + [] == before;
    }
  }

  /** What `delete_record` writes back: the collection read from a conforming file
      without position `index`. Every remaining record is accepted and the file then
      reads as exactly that shorter collection, order kept. */
  lemma ReadAfterDelete(f: CsvFile, fields: Row, index: nat)
    requires Conforms(f, fields) && TrimmedNames(fields)
    requires ReadCsv(Some(f)).Ok? && index < |ReadCsv(Some(f)).value|
    ensures var rs := ReadCsv(Some(f)).value;
      var kept := rs[..index] + rs[index + 1..];
      WriteStatus(kept, fields) == Pass && ReadCsv(Some(WriteCsv(kept, fields))) == Ok(kept)
  {
    ConformingRead(f, fields);
    ConformingReadIsNormal(f, fields);
    RewriteWithout(ReadCsv(Some(f)).value, fields, index);
  }

  lemma RewriteWithout(rs: seq<Record>, fields: Row, index: nat)
    requires TrimmedNames(fields) && fields != [] && index < |rs|
    requires forall j :: 0 <= j < |rs| ==> Fits(rs[j], fields) && Normalize(rs[j], fields) == rs[j]
    ensures var kept := rs[..index] + rs[index + 1..];
      WriteStatus(kept, fields) == Pass && ReadCsv(Some(WriteCsv(kept, fields))) == Ok(kept)
  {
    var kept := rs[..index] + rs[index + 1..];
    assert forall j :: 0 <= j < |kept| ==> kept[j] == rs[if j < index then j else j + 1];
    ReadAfterWrite(kept, fields);
    assert kept[..FirstUnfit(kept, fields)] == kept;
    assert NormalizeAll(kept, fields) == kept;
  }

  /** What `update_record` writes back: the collection read from a conforming file with
      position `index` replaced by `r`. If `DictWriter` accepts `r` the file reads as
      the old collection with `r`, in normal form, at `index` and every other position
      unchanged; if it rejects `r`, the write stops there and only the records before
      `index` are left. */
  lemma ReadAfterUpdate(f: CsvFile, fields: Row, index: nat, r: Record)
    requires Conforms(f, fields) && TrimmedNames(fields)
    requires ReadCsv(Some(f)).Ok? && index < |ReadCsv(Some(f)).value|
    ensures var rs := ReadCsv(Some(f)).value;
      var edited := rs[index := r];
      WriteStatus(edited, fields) == (if Fits(r, fields) then Pass else Fail(UnknownField))
      && ReadCsv(Some(WriteCsv(edited, fields)))
         == Ok(if Fits(r, fields) then rs[index := Normalize(r, fields)] else rs[..index])
  {
    ConformingRead(f, fields);
    ConformingReadIsNormal(f, fields);
    var rs := ReadCsv(Some(f)).value;
    if Fits(r, fields) {
      RewriteAccepted(rs, fields, index, r);
    } else {
      RewriteRejected(rs, fields, index, r);
    }
  }

  lemma RewriteAccepted(rs: seq<Record>, fields: Row, index: nat, r: Record)
    requires TrimmedNames(fields) && fields != [] && index < |rs|
    requires forall j :: 0 <= j < |rs| ==> Fits(rs[j], fields) && Normalize(rs[j], fields) == rs[j]
    requires Fits(r, fields)
    ensures WriteStatus(rs[index := r], fields) == Pass
    ensures ReadCsv(Some(WriteCsv(rs[index := r], fields))) == Ok(rs[index := Normalize(r, fields)])
  {
    var edited := rs[index := r];
    forall j | 0 <= j < |edited| ensures Fits(edited[j], fields) {
    }
    ReadAfterAcceptedWrite(edited, fields);
    var expected := rs[index := Normalize(r, fields)];
    assert forall j :: 0 <= j < |edited| ==> NormalizeAll(edited, fields)[j] == expected[j];
    assert NormalizeAll(edited, fields) == expected;
  }

  /** A write in which every record is accepted reads back as all of them in normal form. */
  lemma ReadAfterAcceptedWrite(data: seq<Record>, fields: Row)
    requires TrimmedNames(fields) && fields != []
    requires forall j :: 0 <= j < |data| ==> Fits(data[j], fields)
    ensures WriteStatus(data, fields) == Pass
    ensures ReadCsv(Some(WriteCsv(data, fields))) == Ok(NormalizeAll(data, fields))
  {
    ReadAfterWrite(data, fields);
    assert data[..|data|] == data;
  }

  lemma RewriteRejected(rs: seq<Record>, fields: Row, index: nat, r: Record)
    requires TrimmedNames(fields) && fields != [] && index < |rs|
    requires forall j :: 0 <= j < |rs| ==> Fits(rs[j], fields) && Normalize(rs[j], fields) == rs[j]
    requires !Fits(r, fields)
    ensures WriteStatus(rs[index := r], fields) == Fail(UnknownField)
    ensures ReadCsv(Some(WriteCsv(rs[index := r], fields))) == Ok(rs[..index])
  {
    var edited := rs[index := r];
    ReadAfterWrite(edited, fields);
    FirstUnfitAt(edited, fields, index);
    assert NormalizeAll(edited[..index], fields) == rs[..index];
  }

  /** A header-only file, as `write_csv` leaves it for an empty collection, reads as
      `[]`; appending one accepted record then gives a one-record collection: the
      header is not written a second time. */
  lemma HeaderOnlyThenAppend(fields: Row, r: Record)
    requires TrimmedNames(fields) && fields != [] && Fits(r, fields)
    ensures ReadCsv(Some(WriteCsv([], fields))) == Ok([])
    ensures ReadCsv(Some(AppendCsv(Some(WriteCsv([], fields)), r, fields))) == Ok([Normalize(r, fields)])
  {
    ReadAfterWrite([], fields);
    ReadAfterAppend(Some(WriteCsv([], fields)), r, fields);
    assert [] + [Normalize(r, fields)] == [Normalize(r, fields)];
  }
}
