/** The statistics of the home page: student and teaching-staff headcounts summed
    over the enrollment and staff files, and the number of programmes and
    departments. */
module Dashboard {
  import opened Wrappers
  import opened Text
  import opened PyInt
  import opened Csv
  import opened Store

  const EnrollmentFile := "student_enrollment.csv"
  const StaffFile := "staff_info.csv"
  const ProgrammesFile := "programmes.csv"
  const DepartmentsFile := "departments.csv"

  /** The three columns a headcount is made of, in the order they are added. */
  const CountFields: seq<string> := ["total_male", "total_female", "total_transgender"]

  /** The four figures the home page shows. */
  datatype Stats = Stats(totalStudents: int, facultyMembers: int, activeProgrammes: nat, departments: nat)

  /** `int(record.get(k, 0) or 0)`: a missing or empty value counts as 0; any other
      value is parsed, `None` standing for the `ValueError` of a value that is not a
      whole number. */
  function FieldCount(r: Record, k: string): Option<int> {
    if k !in r || r[k] == "" then Some(0) else ParseInt(r[k])
  }

  /** The counts of one record, one per column of `CountFields`. */
  function FieldCounts(r: Record): seq<Option<int>> {
    [FieldCount(r, CountFields[0]), FieldCount(r, CountFields[1]), FieldCount(r, CountFields[2])]
  }

  /** What a run of `+=` statements inside one `try` adds: every count before the
      first that raises. */
  function ParsedSum(xs: seq<Option<int>>): int {
    if xs == [] || xs[0].None? then 0 else xs[0].value + ParsedSum(xs[1..])
  }

  /** Three counts in a row: each one is added only if all before it parsed. */
  lemma ParsedSumOfThree(a: Option<int>, b: Option<int>, c: Option<int>)
    ensures ParsedSum([a, b, c]) ==
      if a.None? then 0
      else a.value + if b.None? then 0
      else b.value + if c.None? then 0
      else c.value
  {
    assert ParsedSum([c]) == if c.None? then 0 else c.value by {
      assert [c][1..] == [];
    }
    assert ParsedSum([b, c]) == if b.None? then 0 else b.value + ParsedSum([c]) by {
      assert [b, c][1..] == [c];
    }
    assert [a, b, c][1..] == [b, c];
  }

  /** What one record adds to a total. */
  function Headcount(r: Record): int {
    ParsedSum(FieldCounts(r))
  }

  /** The headcounts of all records, summed. */
  function HeadcountTotal(rs: seq<Record>): int {
    if rs == [] then 0 else HeadcountTotal(rs[..|rs| - 1]) + Headcount(rs[|rs| - 1])
  }

  /** `record.get('staff_type', '').lower() == 'teaching'`. */
  predicate IsTeaching(r: Record) {
    Lower(Get(r, "staff_type")) == "teaching"
  }

  /** The teaching-staff records, in order. */
  function Teaching(rs: seq<Record>): seq<Record> {
    if rs == [] then []
    else Teaching(rs[..|rs| - 1]) + if IsTeaching(rs[|rs| - 1]) then [rs[|rs| - 1]] else []
  }

  /** The body of one loop iteration of the student or faculty count: the three
      additions of the `try` block, the first failing parse ending it while the
      additions already done stay. */
  method AddHeadcount(total: int, r: Record) returns (total': int)
    ensures total' == total + Headcount(r)
  {
    ParsedSumOfThree(FieldCount(r, CountFields[0]), FieldCount(r, CountFields[1]),
      FieldCount(r, CountFields[2]));
    total' := total;
    var male := FieldCount(r, CountFields[0]);
    if male.None? {
      return;
    }
    total' := total' + male.value;
    var female := FieldCount(r, CountFields[1]);
    if female.None? {
      return;
    }
    total' := total' + female.value;
    var transgender := FieldCount(r, CountFields[2]);
    if transgender.None? {
      return;
    }
    total' := total' + transgender.value;
  }

  /** The student count: every enrollment record's headcount, summed. */
  method CountStudents(records: seq<Record>) returns (total: int)
    ensures total == HeadcountTotal(records)
  {
    total := 0;
    for i := 0 to |records|
      invariant total == HeadcountTotal(records[..i])
    {
      HeadcountTotalSnoc(records[..i], records[i]);
      assert records[..i + 1] == records[..i] + [records[i]];
      total := AddHeadcount(total, records[i]);
    }
    assert records[..|records|] == records;
  }

  /** The faculty count: the headcounts of the teaching-staff records only, summed. */
  method CountFaculty(records: seq<Record>) returns (total: int)
    ensures total == HeadcountTotal(Teaching(records))
  {
    total := 0;
    for i := 0 to |records|
      invariant total == HeadcountTotal(Teaching(records[..i]))
    {
      FacultyTotalSnoc(records[..i], records[i]);
      assert records[..i + 1] == records[..i] + [records[i]];
      if IsTeaching(records[i]) {
        total := AddHeadcount(total, records[i]);
      }
    }
    assert records[..|records|] == records;
  }

  lemma HeadcountTotalSnoc(rs: seq<Record>, r: Record)
    ensures HeadcountTotal(rs + [r]) == HeadcountTotal(rs) + Headcount(r)
  {
    assert (rs + [r])[..|rs|] == rs;
  }

  lemma TeachingSnoc(rs: seq<Record>, r: Record)
    ensures Teaching(rs + [r]) == Teaching(rs) + if IsTeaching(r) then [r] else []
  {
    assert (rs + [r])[..|rs|] == rs;
  }

  lemma FacultyTotalSnoc(rs: seq<Record>, r: Record)
    ensures HeadcountTotal(Teaching(rs + [r]))
      == HeadcountTotal(Teaching(rs)) + if IsTeaching(r) then Headcount(r) else 0
  {
    TeachingSnoc(rs, r);
    if IsTeaching(r) {
      HeadcountTotalSnoc(Teaching(rs), r);
    } else {
      assert Teaching(rs + [r]) == Teaching(rs);
    }
  }

  /** `index()`: reads the four files in turn, the first read that raises ending the
      page with its error, and otherwise computes the four figures. */
  method Index(store: RecordStore) returns (result: Result<Stats, StoreError>)
    ensures result.Ok? <==> (store.Read(EnrollmentFile).Ok? && store.Read(StaffFile).Ok?
                             && store.Read(ProgrammesFile).Ok? && store.Read(DepartmentsFile).Ok?)
    ensures store.Read(EnrollmentFile).Err? ==> result == Err(store.Read(EnrollmentFile).error)
    ensures store.Read(EnrollmentFile).Ok? && store.Read(StaffFile).Err? ==>
      result == Err(store.Read(StaffFile).error)
    ensures (store.Read(EnrollmentFile).Ok? && store.Read(StaffFile).Ok?
             && store.Read(ProgrammesFile).Err?) ==> result == Err(store.Read(ProgrammesFile).error)
    ensures (store.Read(EnrollmentFile).Ok? && store.Read(StaffFile).Ok?
             && store.Read(ProgrammesFile).Ok? && store.Read(DepartmentsFile).Err?) ==>
      result == Err(store.Read(DepartmentsFile).error)
    ensures result.Ok? ==> result.value == Stats(
      HeadcountTotal(store.Read(EnrollmentFile).value),
      HeadcountTotal(Teaching(store.Read(StaffFile).value)),
      |store.Read(ProgrammesFile).value|,
      |store.Read(DepartmentsFile).value|)
  {
    var enrollment := store.Read(EnrollmentFile);
    if enrollment.Err? {
      return Err(enrollment.error);
    }
    var students := CountStudents(enrollment.value);
    var staff := store.Read(StaffFile);
    if staff.Err? {
      return Err(staff.error);
    }
    var faculty := CountFaculty(staff.value);
    var programmes := store.Read(ProgrammesFile);
    if programmes.Err? {
      return Err(programmes.error);
    }
    var departments := store.Read(DepartmentsFile);
    if departments.Err? {
      return Err(departments.error);
    }
    result := Ok(Stats(students, faculty, |programmes.value|, |departments.value|));
  }

  /* ---------------- properties ---------------- */

  /** Totals add up over a split of the records, so the count over a file is the
      count over any division of it into parts. */
  lemma {:induction false} HeadcountTotalConcat(a: seq<Record>, b: seq<Record>)
    ensures HeadcountTotal(a + b) == HeadcountTotal(a) + HeadcountTotal(b)
  {
    if b != [] {
      var last := b[|b| - 1];
      assert (a + b)[..|a + b| - 1] == a + b[..|b| - 1];
      HeadcountTotalConcat(a, b[..|b| - 1]);
    } else {
      assert a + b == a;
    }
  }

  /** A record whose three counts are written as `str(m)`, `str(f)`, `str(t)`
      contributes exactly `m + f + t`. */
  lemma HeadcountOfShown(r: Record, m: int, f: int, t: int)
    requires "total_male" in r && r["total_male"] == Show(m)
    requires "total_female" in r && r["total_female"] == Show(f)
    requires "total_transgender" in r && r["total_transgender"] == Show(t)
    ensures Headcount(r) == m + f + t
  {
    ParseShow(m);
    ParseShow(f);
    ParseShow(t);
    ParsedSumOfThree(Some(m), Some(f), Some(t));
  }

  /** A record lacking all three columns, or holding them empty, contributes 0. */
  lemma HeadcountOfBlank(r: Record)
    requires forall k :: k in CountFields ==> k !in r || r[k] == ""
    ensures Headcount(r) == 0
  {
    assert forall i :: 0 <= i < 3 ==> CountFields[i] in CountFields;
    ParsedSumOfThree(Some(0), Some(0), Some(0));
  }

  /** A count that does not parse ends the run there: the counts after it are never
      added, whatever they hold, and the ones before it stay. */
  lemma {:induction false} ParsedSumStops(xs: seq<Option<int>>, j: nat)
    requires j < |xs| && xs[j].None?
    ensures ParsedSum(xs) == ParsedSum(xs[..j])
  {
    if j > 0 && xs[0].Some? {
      ParsedSumStops(xs[1..], j - 1);
      assert xs[..j][1..] == xs[1..][..j - 1];
    }
  }

  /** A column that does not parse ends the record's contribution: it is the sum of
      the columns before it that parsed, the later ones ignored. */
  lemma HeadcountStopsAtFailure(r: Record, j: nat)
    requires j < |CountFields| && FieldCount(r, CountFields[j]).None?
    ensures Headcount(r) == ParsedSum(FieldCounts(r)[..j])
  {
    ParsedSumStops(FieldCounts(r), j);
  }

  /** `Teaching` keeps exactly the records whose staff type reads "teaching" in any
      letter case, in their order: each kept record is a teaching record and every
      teaching record is kept. */
  lemma {:induction false} TeachingFilters(rs: seq<Record>)
    ensures |Teaching(rs)| <= |rs|
    ensures forall r :: r in Teaching(rs) <==> r in rs && IsTeaching(r)
    ensures forall r :: multiset(Teaching(rs))[r] == if IsTeaching(r) then multiset(rs)[r] else 0
  {
    if rs != [] {
      var init := rs[..|rs| - 1];
      var last := rs[|rs| - 1];
      TeachingFilters(init);
      assert rs == init + [last];
      assert multiset(rs) == multiset(init) + multiset{last};
      if IsTeaching(last) {
        assert multiset(Teaching(rs)) == multiset(Teaching(init)) + multiset{last};
      } else {
        assert Teaching(rs) == Teaching(init);
      }
    }
  }

  /** A teaching record's staff type is present: a missing column counts as "",
      which is never "teaching". */
  lemma TeachingHasType(r: Record)
    requires IsTeaching(r)
    ensures "staff_type" in r
  {
  }

  /** Letter case does not matter, and nothing else is allowed: a record is teaching
      staff exactly when its staff type has eight characters, each the matching letter
      of "teaching" in small or capital form. */
  lemma TeachingSpelling(r: Record)
    ensures IsTeaching(r) <==>
      var v := Get(r, "staff_type");
      |v| == 8 && forall i :: 0 <= i < 8 ==> v[i] == "teaching"[i] || v[i] == "TEACHING"[i]
  {
    var v := Get(r, "staff_type");
    var w := Lower(v);
    if |v| == 8 {
      forall i | 0 <= i < 8
        ensures w[i] == "teaching"[i] <==> v[i] == "teaching"[i] || v[i] == "TEACHING"[i]
      {
        if 'A' <= v[i] <= 'Z' {
          assert w[i] == "abcdefghijklmnopqrstuvwxyz"[v[i] as int - 'A' as int];
        }
      }
    }
  }

  /** When every staff record is teaching staff, none is filtered out, so the faculty
      count is the headcount over the whole file. */
  lemma {:induction false} TeachingKeepsAll(rs: seq<Record>)
    requires forall i :: 0 <= i < |rs| ==> IsTeaching(rs[i])
    ensures Teaching(rs) == rs
  {
    if rs != [] {
      TeachingKeepsAll(rs[..|rs| - 1]);
      assert rs[..|rs| - 1] + [rs[|rs| - 1]] == rs;
    }
  }
}
