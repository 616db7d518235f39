/** The data folder of the application: a set of named CSV files that `write_csv`,
    `append_csv`, `delete_record` and `update_record` change in place and `read_csv`
    reads. A file that was never written is absent from `files`. */
module Store {
  import opened Wrappers
  import opened Csv

  class RecordStore {
    /** The files of the data folder, by file name. */
    var files: map<string, CsvFile>

    constructor (existing: map<string, CsvFile>)
      ensures files == existing
    {
      files := existing;
    }

    /** The file called `name`, if it exists. */
    function File(name: string): Option<CsvFile>
      reads this
    {
      if name in files then Some(files[name]) else None
    }

    /** `read_csv(name)`. */
    function Read(name: string): Result<seq<Record>, StoreError>
      reads this
    {
      ReadCsv(File(name))
    }

    /** `write_csv(name, data, fields)`: the file is replaced by the header and the
        records up to the first one `DictWriter` rejects; the status says whether it
        raised. Every other file is unchanged. With field names that need no stripping,
        a write that succeeds reads back as the records in normal form. */
    method Write(name: string, data: seq<Record>, fields: Row) returns (status: Outcome<StoreError>)
      modifies this
      ensures files == old(files)[name := WriteCsv(data, fields)]
      ensures status == WriteStatus(data, fields)
      ensures status.Pass? <==> forall i :: 0 <= i < |data| ==> Fits(data[i], fields)
      ensures TrimmedNames(fields) && status.Pass? ==>
        Read(name) == Ok(if fields == [] then [] else NormalizeAll(data, fields))
    {
      files := files[name := WriteCsv(data, fields)];
      status := WriteStatus(data, fields);
      if TrimmedNames(fields) {
        ReadAfterWrite(data, fields);
        assert status.Pass? ==> data[..FirstUnfit(data, fields)] == data;
      }
    }

    /** `append_csv(name, record, fields)`: a missing file is created with the header,
        and the record's line goes at the end if `DictWriter` accepts it. On a file
        this store wrote with the same field names, the collection read back grows by
        exactly that record in normal form. */
    method Append(name: string, record: Record, fields: Row) returns (status: Outcome<StoreError>)
      modifies this
      ensures files == old(files)[name := AppendCsv(old(File(name)), record, fields)]
      ensures status == WriteStatus([record], fields)
      ensures status.Pass? <==> Fits(record, fields)
      ensures old(ConformsOpt(File(name), fields)) && TrimmedNames(fields) ==>
        old(Read(name)).Ok? && Conforms(files[name], fields)
        && Read(name) == Ok(old(Read(name)).value
             + if status.Pass? && fields != [] then [Normalize(record, fields)] else [])
    {
      var existing := File(name);
      if ConformsOpt(existing, fields) && TrimmedNames(fields) {
        ReadAfterAppend(existing, record, fields);
      }
      files := files[name := AppendCsv(existing, record, fields)];
      status := WriteStatus([record], fields);
    }

    /** `delete_record(name, index, fields)`: reads the collection (a read error
        propagates and nothing is written); if `index` is a position in it, writes the
        collection back without that record and answers `true` (or the write's error);
        otherwise answers `false` and writes nothing. */
    method Delete(name: string, index: int, fields: Row) returns (result: Result<bool, StoreError>)
      modifies this
      ensures old(Read(name)).Err? ==>
        result == Err(old(Read(name)).error) && files == old(files)
      ensures old(Read(name)).Ok? && !(0 <= index < |old(Read(name)).value|) ==>
        result == Ok(false) && files == old(files)
      ensures old(Read(name)).Ok? && 0 <= index < |old(Read(name)).value| ==>
        var rs := old(Read(name)).value;
        var kept := rs[..index] + rs[index + 1..];
        files == old(files)[name := WriteCsv(kept, fields)]
        && result == (if WriteStatus(kept, fields).Pass? then Ok(true) else Err(UnknownField))
      ensures (old(ConformsOpt(File(name), fields)) && TrimmedNames(fields)
               && old(Read(name)).Ok? && 0 <= index < |old(Read(name)).value|) ==>
        var rs := old(Read(name)).value;
        result == Ok(true) && Read(name) == Ok(rs[..index] + rs[index + 1..])
    {
      var existing := File(name);
      var read := Read(name);
      if read.Err? {
        return Err(read.error);
      }
      var records := read.value;
      if 0 <= index < |records| {
        var kept := records[..index] + records[index + 1..];
        if ConformsOpt(existing, fields) && TrimmedNames(fields) {
          ReadAfterDelete(existing.value, fields, index);
        }
        var status := Write(name, kept, fields);
        result := if status.Pass? then Ok(true) else Err(status.error);
      } else {
        result := Ok(false);
      }
    }

    /** `update_record(name, index, record, fields)`: like `Delete`, but the record at
        `index` is replaced by `record`. On a file this store wrote with the same field
        names, the collection then reads as before with the new record, in normal form,
        at `index`; a record `DictWriter` rejects raises and leaves only the records
        before `index`. */
    method Update(name: string, index: int, record: Record, fields: Row)
      returns (result: Result<bool, StoreError>)
      modifies this
      ensures old(Read(name)).Err? ==>
        result == Err(old(Read(name)).error) && files == old(files)
      ensures old(Read(name)).Ok? && !(0 <= index < |old(Read(name)).value|) ==>
        result == Ok(false) && files == old(files)
      ensures old(Read(name)).Ok? && 0 <= index < |old(Read(name)).value| ==>
        var edited := old(Read(name)).value[index := record];
        files == old(files)[name := WriteCsv(edited, fields)]
        && result == (if WriteStatus(edited, fields).Pass? then Ok(true) else Err(UnknownField))
      ensures (old(ConformsOpt(File(name), fields)) && TrimmedNames(fields)
               && old(Read(name)).Ok? && 0 <= index < |old(Read(name)).value|) ==>
        var rs := old(Read(name)).value;
        if Fits(record, fields) then
          result == Ok(true) && Read(name) == Ok(rs[index := Normalize(record, fields)])
        else
          result == Err(UnknownField) && Read(name) == Ok(rs[..index])
    {
      var existing := File(name);
      var read := Read(name);
      if read.Err? {
        return Err(read.error);
      }
      var records := read.value;
      if 0 <= index < |records| {
        var edited := records[index := record];
        if ConformsOpt(existing, fields) && TrimmedNames(fields) {
          ReadAfterUpdate(existing.value, fields, index, record);
        }
        var status := Write(name, edited, fields);
        result := if status.Pass? then Ok(true) else Err(status.error);
      } else {
        result := Ok(false);
      }
    }
  }
}
