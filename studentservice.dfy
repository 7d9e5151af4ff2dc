/**
 * The service layer between the console interface and the table: the
 * validation every new or changed student must pass, the id guards, the
 * page offset, the age buckets and their counts, and the import loops.
 */
module StudentServiceModel {
  import opened Wrappers
  import opened JavaText
  import opened StudentModel
  import opened Sql
  import opened StudentDaoModel
  import opened FileManagerModel
  import opened StudentControllerModel

  // ---------------------------------------------------------------- validation

  /**
   * `isValidStudent`: a student (`None` is null) with names that are not
   * blank once trimmed, an age in 1..149 and a grade in 0..20.
   */
  predicate IsValidStudent(student: Option<StudentData>) {
    student.Some?
    && !IsBlank(student.value.firstName) && !IsBlank(student.value.lastName)
    && 0 < student.value.age < 150
    && 0 <= student.value.grade <= 2000
  }

  /** A valid student whose names fit their columns passes the table's constraints. */
  lemma ValidFitsTable(d: StudentData)
    requires IsValidStudent(Some(d)) && |d.firstName| <= 50 && |d.lastName| <= 50
    ensures Admissible(d)
  {
  }

  /** The service is stricter than the table: an age of 150 or a blank name is refused only here. */
  lemma ServiceStricterThanTable()
    ensures Admissible(StudentData(0, "Ana", "Lima", 150, 1000)) && !IsValidStudent(Some(StudentData(0, "Ana", "Lima", 150, 1000)))
    ensures Admissible(StudentData(0, " ", "Lima", 20, 1000)) && !IsValidStudent(Some(StudentData(0, " ", "Lima", 20, 1000)))
  {
    assert IsBlank(" ") by {
      BlankMeansTrimmedOnly(" ");
    }
  }

  /** One service `addStudent`: only a valid student reaches the table. */
  function ServiceAdd(rows: seq<StudentData>, nextId: int, student: Option<StudentData>): (seq<StudentData>, int, bool) {
    if IsValidStudent(student) then AddOutcome(rows, nextId, student.value) else (rows, nextId, false)
  }

  /** An invalid student is refused and the table, id sequence included, is untouched. */
  lemma InvalidNotAdded(rows: seq<StudentData>, nextId: int, student: Option<StudentData>)
    requires !IsValidStudent(student)
    ensures ServiceAdd(rows, nextId, student) == (rows, nextId, false)
  {
  }

  /** A valid student whose names fit is appended under the next id while the sequence lasts. */
  lemma ValidAdded(rows: seq<StudentData>, nextId: int, d: StudentData)
    requires IsValidStudent(Some(d)) && |d.firstName| <= 50 && |d.lastName| <= 50 && nextId <= INT_MAX
    ensures ServiceAdd(rows, nextId, Some(d)) == (rows + [d.(id := nextId)], nextId + 1, true)
  {
    ValidFitsTable(d);
  }

  /** `addStudent` of each student read from a file in turn; the results are ignored. */
  function ServiceAddEach(rows: seq<StudentData>, nextId: int, students: seq<StudentData>): (seq<StudentData>, int) {
    if students == [] then (rows, nextId)
    else
      var before := ServiceAddEach(rows, nextId, students[..|students| - 1]);
      var after := ServiceAdd(before.0, before.1, Some(students[|students| - 1]));
      (after.0, after.1)
  }

  /** A file of invalid students leaves the table as it was. */
  lemma {:induction false} InvalidFileAddsNothing(rows: seq<StudentData>, nextId: int, students: seq<StudentData>)
    requires forall k :: 0 <= k < |students| ==> !IsValidStudent(Some(students[k]))
    ensures ServiceAddEach(rows, nextId, students) == (rows, nextId)
  {
    if students != [] {
      InvalidFileAddsNothing(rows, nextId, students[..|students| - 1]);
    }
  }

  /** The imports only ever append: the rows already there stay in front. */
  lemma {:induction false} AddEachKeepsRows(rows: seq<StudentData>, nextId: int, students: seq<StudentData>)
    ensures var r := ServiceAddEach(rows, nextId, students).0;
      |rows| <= |r| <= |rows| + |students| && r[..|rows|] == rows
  {
    if students != [] {
      var n := |students| - 1;
      var before := ServiceAddEach(rows, nextId, students[..n]);
      AddEachKeepsRows(rows, nextId, students[..n]);
      AddKeepsRows(before.0, before.1, Some(students[n]));
      var r := ServiceAdd(before.0, before.1, Some(students[n])).0;
      assert r[..|rows|] == r[..|before.0|][..|rows|];
    }
  }

  /** One `addStudent` appends at most one row behind the rows already there. */
  lemma AddKeepsRows(rows: seq<StudentData>, nextId: int, student: Option<StudentData>)
    ensures var r := ServiceAdd(rows, nextId, student).0;
      |rows| <= |r| <= |rows| + 1 && r[..|rows|] == rows
  {
  }

  // ---------------------------------------------------------------- age buckets

  const Under18: string := "Moins de 18 ans"
  const From18To24: string := "18-24 ans"
  const From25To34: string := "25-34 ans"
  const From35: string := "35 ans et plus"

  /** `getAgeRange`. */
  function AgeRange(age: int): string {
    if age < 18 then Under18
    else if age < 25 then From18To24
    else if age < 35 then From25To34
    else From35
  }

  /** Every age lands in exactly one of the four buckets, by these bounds. */
  lemma AgeRangeBuckets(age: int)
    ensures AgeRange(age) == Under18 <==> age < 18
    ensures AgeRange(age) == From18To24 <==> 18 <= age < 25
    ensures AgeRange(age) == From25To34 <==> 25 <= age < 35
    ensures AgeRange(age) == From35 <==> 35 <= age
  {
    LabelsDistinct();
  }

  lemma LabelsDistinct()
    ensures Under18 != From18To24 && Under18 != From25To34 && Under18 != From35
    ensures From18To24 != From25To34 && From18To24 != From35 && From25To34 != From35
  {
    assert Under18[0] != From18To24[0] && Under18[0] != From25To34[0] && Under18[0] != From35[0];
    assert From18To24[0] != From25To34[0] && From18To24[0] != From35[0] && From25To34[0] != From35[0];
  }

  /** `getOrDefault(key, 0)`. */
  function CountOf(stats: map<string, int>, key: string): int {
    if key in stats then stats[key] else 0
  }

  /** The map `getAgeStatistics` builds: one `put` per student, in table order. */
  function AgeCounts(students: seq<StudentData>): map<string, int> {
    if students == [] then map[]
    else
      var stats := AgeCounts(students[..|students| - 1]);
      var range := AgeRange(students[|students| - 1].age);
      stats[range := CountOf(stats, range) + 1]
  }

  /** How many of the students fall in the bucket. */
  function InRange(students: seq<StudentData>, range: string): nat {
    if students == [] then 0
    else InRange(students[..|students| - 1], range) + if AgeRange(students[|students| - 1].age) == range then 1 else 0
  }

  /**
   * Each entry counts the students of its bucket, and a bucket is a key
   * exactly when at least one student falls in it.
   */
  lemma {:induction false} AgeCountsCount(students: seq<StudentData>, range: string)
    ensures CountOf(AgeCounts(students), range) == InRange(students, range)
    ensures range in AgeCounts(students) <==> InRange(students, range) > 0
  {
    if students != [] {
      AgeCountsCount(students[..|students| - 1], range);
    }
  }

  /** The keys are bucket names. */
  lemma {:induction false} AgeCountsKeys(students: seq<StudentData>)
    ensures forall key :: key in AgeCounts(students) ==> key in {Under18, From18To24, From25To34, From35}
  {
    if students != [] {
      AgeCountsKeys(students[..|students| - 1]);
    }
  }

  /** The four bucket counts add up to the number of students. */
  lemma {:induction false} InRangeTotal(students: seq<StudentData>)
    ensures InRange(students, Under18) + InRange(students, From18To24)
      + InRange(students, From25To34) + InRange(students, From35) == |students|
  {
    if students != [] {
      InRangeTotal(students[..|students| - 1]);
      AgeRangeBuckets(students[|students| - 1].age);
      LabelsDistinct();
    }
  }

  /** The counts of `getAgeStatistics` sum to the number of students. */
  lemma AgeStatisticsTotal(students: seq<StudentData>)
    ensures var stats := AgeCounts(students);
      CountOf(stats, Under18) + CountOf(stats, From18To24) + CountOf(stats, From25To34) + CountOf(stats, From35)
      == |students|
  {
    AgeCountsCount(students, Under18);
    AgeCountsCount(students, From18To24);
    AgeCountsCount(students, From25To34);
    AgeCountsCount(students, From35);
    InRangeTotal(students);
  }

  // ---------------------------------------------------------------- the service

  class StudentService {
    var dao: StudentDao
    var fs: FileSystem

    predicate Valid()
      reads this, dao
    {
      dao.Valid()
    }

    constructor (dao: StudentDao, fs: FileSystem)
      requires dao.Valid()
      ensures this.dao == dao && this.fs == fs && Valid()
    {
      this.dao := dao;
      this.fs := fs;
    }

    /** `addStudent`: the table is asked only for a valid student. */
    method AddStudent(student: Option<StudentData>) returns (ok: bool)
      requires Valid()
      modifies dao
      ensures Valid()
      ensures (dao.rows, dao.nextId, ok) == ServiceAdd(old(dao.rows), old(dao.nextId), student)
    {
      if IsValidStudent(student) {
        ok := dao.AddStudent(student.value);
      } else {
        ok := false;
      }
    }

    /** `updateStudent`: a valid student with a positive id, and a row with that id. */
    method UpdateStudent(student: Option<StudentData>) returns (ok: bool)
      requires Valid()
      modifies dao
      ensures Valid() && dao.nextId == old(dao.nextId)
      ensures ok <==> (IsValidStudent(student) && student.value.id > 0
                       && HasId(old(dao.rows), student.value.id) && StoredRow(student.value).Some?)
      ensures dao.rows == if ok then Replace(old(dao.rows), StoredRow(student.value).value) else old(dao.rows)
    {
      if IsValidStudent(student) && student.value.id > 0 {
        ok := dao.UpdateStudent(student.value);
      } else {
        ok := false;
      }
    }

    /** `deleteStudent`: a non-positive id never reaches the table. */
    method DeleteStudent(id: int) returns (ok: bool)
      requires Valid()
      modifies dao
      ensures Valid() && dao.nextId == old(dao.nextId)
      ensures ok <==> id > 0 && HasId(old(dao.rows), id)
      ensures dao.rows == if id > 0 then Remove(old(dao.rows), id) else old(dao.rows)
    {
      if id > 0 {
        ok := dao.DeleteStudent(id);
      } else {
        ok := false;
      }
    }

    /** `getStudentById`: null for a non-positive id. */
    method GetStudentById(id: int) returns (r: Option<StudentData>)
      ensures r == if id > 0 then FindById(dao.rows, id) else None
    {
      if id > 0 {
        r := dao.GetStudentById(id);
      } else {
        r := None;
      }
    }

    /** `getAllStudents`: every row, in id order. */
    method GetAllStudents() returns (r: seq<StudentData>)
      ensures r == dao.rows
    {
      r := dao.GetAllStudents();
    }

    /** `searchStudents`: handed to the table unchecked. */
    method SearchStudents(col: Column, v: SqlValue) returns (r: seq<StudentData>)
      ensures forall x :: x in r <==> x in dao.rows && Comparable(col, v) && Matches(x, col, v)
    {
      r := dao.SearchStudents(col, v);
    }

    /** `sortStudents`: handed to the table unchecked. */
    method SortStudents(col: Column, dir: Direction) returns (r: seq<StudentData>)
      ensures SortedBy(r, col, dir) && multiset(r) == multiset(dao.rows)
    {
      r := dao.SortStudents(col, dir);
    }

    /** `getStudentsPaginated`: rows from `(page - 1) * pageSize`, computed in `int`, at most `pageSize` of them. */
    method GetStudentsPaginated(page: int, pageSize: int) returns (r: seq<StudentData>)
      ensures r == Page(dao.rows, PageOffset32(page, pageSize), pageSize)
      ensures page >= 1 && pageSize >= 1 && PageOffset(page, pageSize) <= INT_MAX ==>
        r == Page(dao.rows, PageOffset(page, pageSize), pageSize)
    {
      var offset := Wrap32((page - 1) * pageSize);
      if page >= 1 && pageSize >= 1 && PageOffset(page, pageSize) <= INT_MAX {
        PageOffsetAgrees(page, pageSize);
      }
      r := dao.GetStudentsPaginated(offset, pageSize);
    }

    /** `calculateClassAverage`. */
    method CalculateClassAverage() returns (a: int)
      requires Valid()
      ensures a == AverageGrade(dao.rows)
    {
      a := dao.GetAverageGrade();
    }

    /** `getAgeStatistics`: one count per bucket that holds a student. */
    method GetAgeStatistics() returns (stats: map<string, int>)
      ensures stats == AgeCounts(dao.rows)
    {
      var students := dao.GetAllStudents();
      stats := map[];
      var i := 0;
      while i < |students|
        invariant 0 <= i <= |students|
        invariant stats == AgeCounts(students[..i])
      {
        PrefixStep(students, i);
        var range := AgeRange(students[i].age);
        stats := stats[range := CountOf(stats, range) + 1];
        i := i + 1;
      }
      assert students[..i] == students;
    }

    /** `exportToCSV` of the whole table. */
    method ExportToCsv(filename: string) returns (ok: bool)
      modifies fs
      ensures fs.readOnly == old(fs.readOnly)
      ensures ok <==> filename !in fs.readOnly
      ensures fs.files == if ok then old(fs.files)[filename := CsvLines(dao.rows)] else old(fs.files)
    {
      var students := dao.GetAllStudents();
      ok := FileManagerModel.ExportToCsv(fs, students, filename);
    }

    /** `exportToJSON` of the whole table. */
    method ExportToJson(filename: string) returns (ok: bool)
      modifies fs
      ensures fs.readOnly == old(fs.readOnly)
      ensures ok <==> filename !in fs.readOnly
      ensures fs.files == if ok then old(fs.files)[filename := JsonLines(dao.rows)] else old(fs.files)
    {
      var students := dao.GetAllStudents();
      ok := FileManagerModel.ExportToJson(fs, students, filename);
    }

    /**
     * `importFromCSV`: true whenever the file was read and parsed, however
     * many of the students were then refused.
     */
    method ImportFromCsv(filename: string) returns (ok: bool)
      requires Valid()
      modifies dao
      ensures Valid()
      ensures ok <==> filename in fs.files && CsvImport(fs.files[filename]).Some?
      ensures ok ==>
        (dao.rows, dao.nextId) == ServiceAddEach(old(dao.rows), old(dao.nextId), CsvImport(fs.files[filename]).value)
      ensures !ok ==> dao.rows == old(dao.rows) && dao.nextId == old(dao.nextId)
    {
      var students := FileManagerModel.ImportFromCsv(fs, filename);
      if students.None? {
        return false;
      }
      AddAll(students.value);
      ok := true;
    }

    /** `importFromJSON`: the reader parses nothing, so the table never changes. */
    method ImportFromJson(filename: string) returns (ok: bool)
      requires Valid()
      modifies dao
      ensures Valid()
      ensures ok <==> filename in fs.files
      ensures dao.rows == old(dao.rows) && dao.nextId == old(dao.nextId)
    {
      var students := FileManagerModel.ImportFromJson(fs, filename);
      if students.None? {
        return false;
      }
      AddAll(students.value);
      ok := true;
    }

    /** The loop of both imports: `addStudent` on each student, results ignored. */
    method AddAll(students: seq<StudentData>)
      requires Valid()
      modifies dao
      ensures Valid()
      ensures (dao.rows, dao.nextId) == ServiceAddEach(old(dao.rows), old(dao.nextId), students)
    {
      var i := 0;
      while i < |students|
        invariant 0 <= i <= |students| && Valid()
        invariant (dao.rows, dao.nextId) == ServiceAddEach(old(dao.rows), old(dao.nextId), students[..i])
      {
        PrefixStep(students, i);
        var _ := AddStudent(Some(students[i]));
        i := i + 1;
      }
      assert students[..i] == students;
    }
  }
}
