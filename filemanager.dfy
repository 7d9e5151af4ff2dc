/**
 * `FileManager`: CSV and JSON export and import. A file is the sequence of
 * its lines; the disk is an object whose map of files the exports update.
 */
module FileManagerModel {
  import opened Wrappers
  import opened JavaText
  import opened StudentModel

  /** The files the program can see, and the paths it may not write. */
  class FileSystem {
    var files: map<string, seq<string>>
    var readOnly: set<string>

    constructor (files: map<string, seq<string>>, readOnly: set<string>)
      ensures this.files == files && this.readOnly == readOnly
    {
      this.files := files;
      this.readOnly := readOnly;
    }
  }

  // ---------------------------------------------------------------- CSV

  const CsvHeader: string := "ID,Prénom,Nom,Âge,Note"

  function CsvFields(d: StudentData): seq<string> {
    [IntText(d.id), d.firstName, d.lastName, IntText(d.age), GradeText(d.grade)]
  }

  /** `%d,%s,%s,%d,%.2f`. */
  function CsvLine(d: StudentData): string {
    Join(CsvFields(d), ",")
  }

  /** The data lines: one per student, in list order. */
  function CsvBody(students: seq<StudentData>): (r: seq<string>)
    ensures |r| == |students|
  {
    if students == [] then []
    else CsvBody(students[..|students| - 1]) + [CsvLine(students[|students| - 1])]
  }

  /** The file `exportToCSV` writes: the header, then the data lines. */
  function CsvLines(students: seq<StudentData>): seq<string> {
    [CsvHeader] + CsvBody(students)
  }

  /**
   * One data line: `None` when a number does not parse (which aborts the
   * whole import), `Some([])` for a line of fewer than five fields, which
   * is skipped, and the student otherwise; fields past the fifth are ignored.
   */
  function CsvRecord(line: string): Option<seq<StudentData>> {
    var parts := Split(line, ",");
    if |parts| < 5 then Some([])
    else
      match (ParseInt(parts[0]), ParseInt(parts[3]), ParseGrade(parts[4]))
      case (Some(id), Some(age), Some(grade)) => Some([StudentData(id, parts[1], parts[2], age, grade)])
      case _ => None
  }

  /** What `importFromCSV` returns for the lines after the header. */
  function CsvRecords(lines: seq<string>): Option<seq<StudentData>> {
    if lines == [] then Some([])
    else
      match (CsvRecords(lines[..|lines| - 1]), CsvRecord(lines[|lines| - 1]))
      case (Some(init), Some(last)) => Some(init + last)
      case _ => None
  }

  /** The first line is the header and is dropped unread; an empty file gives no students. */
  function CsvImport(lines: seq<string>): Option<seq<StudentData>> {
    if lines == [] then Some([]) else CsvRecords(lines[1..])
  }

  /** `exportToCSV`: writes the file line by line; false when the path cannot be opened. */
  method ExportToCsv(fs: FileSystem, students: seq<StudentData>, filename: string) returns (ok: bool)
    modifies fs
    ensures fs.readOnly == old(fs.readOnly)
    ensures ok <==> filename !in fs.readOnly
    ensures ok ==> fs.files == old(fs.files)[filename := CsvLines(students)]
    ensures !ok ==> fs.files == old(fs.files)
  {
    if filename in fs.readOnly {
      return false;
    }
    var body := [];
    var i := 0;
    while i < |students|
      invariant 0 <= i <= |students| && body == CsvBody(students[..i])
    {
      assert students[..i + 1][..i] == students[..i];
      body := body + [CsvLine(students[i])];
      i := i + 1;
    }
    assert students[..|students|] == students;
    fs.files := fs.files[filename := [CsvHeader] + body];
    ok := true;
  }

  /** `importFromCSV`: `None` for a missing file or a number that does not parse. */
  method ImportFromCsv(fs: FileSystem, filename: string) returns (r: Option<seq<StudentData>>)
    ensures filename !in fs.files ==> r.None?
    ensures filename in fs.files ==> r == CsvImport(fs.files[filename])
  {
    if filename !in fs.files {
      return None;
    }
    var lines := fs.files[filename];
    if lines == [] {
      return Some([]);
    }
    var rest := lines[1..];
    var students := [];
    var i := 0;
    while i < |rest|
      invariant 0 <= i <= |rest|
      invariant CsvRecords(rest[..i]) == Some(students)
    {
      assert rest[..i + 1] == rest[..i] + [rest[i]];
      var record := ReadCsvLine(rest[i]);
      if record.None? {
        CsvRecordsAbort(rest, i + 1);
        return None;
      }
      CsvRecordsSnoc(rest[..i], rest[i], students, record.value);
      students := students + record.value;
      i := i + 1;
    }
    assert rest[..|rest|] == rest;
    r := Some(students);
  }

  /** The body of the import loop for one line. */
  method ReadCsvLine(line: string) returns (r: Option<seq<StudentData>>)
    ensures r == CsvRecord(line)
  {
    var parts := Split(line, ",");
    if |parts| < 5 {
      return Some([]);
    }
    var id := ParseInt(parts[0]);
    var age := ParseInt(parts[3]);
    var grade := ParseGrade(parts[4]);
    if id.None? || age.None? || grade.None? {
      return None;
    }
    r := Some([StudentData(id.value, parts[1], parts[2], age.value, grade.value)]);
  }

  /** Once a line fails, the whole import fails whatever follows. */
  lemma {:induction false} CsvRecordsAbort(lines: seq<string>, n: nat)
    requires n <= |lines| && CsvRecords(lines[..n]).None?
    ensures CsvRecords(lines).None?
    decreases |lines| - n
  {
    if n < |lines| {
      assert lines[..n + 1][..n] == lines[..n];
      CsvRecordsAbort(lines, n + 1);
    } else {
      assert lines[..n] == lines;
    }
  }

  /** A name the CSV format carries unchanged: no comma, no line break. */
  predicate CsvSafeName(name: string) {
    ',' !in name && '\n' !in name && '\r' !in name
  }

  predicate CsvSafe(d: StudentData) {
    WellFormed(d) && CsvSafeName(d.firstName) && CsvSafeName(d.lastName)
  }

  lemma CsvLineRoundTrip(d: StudentData)
    requires CsvSafe(d)
    ensures CsvRecord(CsvLine(d)) == Some([d])
  {
    var f := CsvFields(d);
    IntTextNumber(d.id);
    IntTextNumber(d.age);
    GradeTextNumber(d.grade);
    NumberTextLacks(f[0], ',');
    NumberTextLacks(f[3], ',');
    NumberTextLacks(f[4], ',');
    SplitJoin(f, ",");
    ParseIntText(d.id);
    ParseIntText(d.age);
    ParseGradeText(d.grade);
  }

  lemma {:induction false} CsvRecordsRoundTrip(students: seq<StudentData>)
    requires forall k :: 0 <= k < |students| ==> CsvSafe(students[k])
    ensures CsvRecords(CsvBody(students)) == Some(students)
  {
    if students != [] {
      var n := |students| - 1;
      var init := students[..n];
      assert forall k :: 0 <= k < |init| ==> init[k] == students[k];
      CsvRecordsRoundTrip(init);
      CsvRecordsStep(students);
    }
  }

  /** The last line's record extends the records of the lines before it. */
  lemma CsvRecordsStep(students: seq<StudentData>)
    requires students != []
    requires CsvRecords(CsvBody(students[..|students| - 1])) == Some(students[..|students| - 1])
    requires CsvSafe(students[|students| - 1])
    ensures CsvRecords(CsvBody(students)) == Some(students)
  {
    var n := |students| - 1;
    CsvLineRoundTrip(students[n]);
    PrefixStep(students, n);
    assert students[..n + 1] == students;
    CsvRecordsSnoc(CsvBody(students[..n]), CsvLine(students[n]), students[..n], [students[n]]);
  }

  lemma CsvRecordsSnoc(lines: seq<string>, line: string, init: seq<StudentData>, last: seq<StudentData>)
    requires CsvRecords(lines) == Some(init)
    ensures CsvRecord(line) == Some(last) ==> CsvRecords(lines + [line]) == Some(init + last)
    ensures CsvRecord(line).None? ==> CsvRecords(lines + [line]).None?
  {
    assert (lines + [line])[..|lines|] == lines;
  }

  /**
   * Importing the CSV export of a list gives the list back, ids included,
   * when no name holds a comma or a line break.
   */
  lemma CsvRoundTrip(students: seq<StudentData>)
    requires forall k :: 0 <= k < |students| ==> CsvSafe(students[k])
    ensures CsvImport(CsvLines(students)) == Some(students)
  {
    CsvRecordsRoundTrip(students);
    assert CsvLines(students)[1..] == CsvBody(students);
  }

  /** A short line is skipped and a bad number aborts: the two ways a line is not a student. */
  lemma CsvRecordFailures(line: string)
    ensures |Split(line, ",")| < 5 ==> CsvRecord(line) == Some([])
    ensures |Split(line, ",")| >= 5 && ParseInt(Split(line, ",")[0]).None? ==> CsvRecord(line).None?
  {
  }

  // ---------------------------------------------------------------- JSON

  /** A JSON string: the text between double quotes, unescaped. */
  function Quoted(s: string): string {
    "\"" + s + "\""
  }

  function JsonMember(key: string, value: string): string {
    Quoted(key) + ":" + value
  }

  function JsonMembers(d: StudentData): seq<string> {
    [JsonMember("id", IntText(d.id)),
     JsonMember("firstName", Quoted(d.firstName)),
     JsonMember("lastName", Quoted(d.lastName)),
     JsonMember("age", IntText(d.age)),
     JsonMember("grade", GradeText(d.grade))]
  }

  /** One object line, `  {"id":..,"firstName":"..",..}`. */
  function JsonObject(d: StudentData): string {
    "  {" + Join(JsonMembers(d), ",") + "}"
  }

  /** The objects of the students, in list order. */
  function JsonObjects(students: seq<StudentData>): (r: seq<string>)
    ensures |r| == |students|
  {
    seq(|students|, k requires 0 <= k < |students| => JsonObject(students[k]))
  }

  lemma JsonObjectsAt(students: seq<StudentData>, k: nat)
    requires k < |students|
    ensures JsonObjects(students)[k] == JsonObject(students[k])
  {
  }

  /** An object line: the object, then a comma unless it is the last one. */
  function CommaLine(text: string, last: bool): string {
    if last then text else text + ","
  }

  /** The first `n` object lines. */
  function CommaLines(objects: seq<string>, n: nat): (r: seq<string>)
    requires n <= |objects|
    ensures |r| == n
  {
    if n == 0 then []
    else CommaLines(objects, n - 1) + [CommaLine(objects[n - 1], n == |objects|)]
  }

  /** The object lines between the brackets. */
  function Bracketed(objects: seq<string>): seq<string> {
    ["["] + CommaLines(objects, |objects|) + ["]"]
  }

  /** The file `exportToJSON` writes. */
  function JsonLines(students: seq<StudentData>): seq<string> {
    Bracketed(JsonObjects(students))
  }

  lemma {:induction false} CommaLinesShape(objects: seq<string>, n: nat)
    requires n <= |objects|
    ensures forall k :: 0 <= k < n ==> CommaLines(objects, n)[k] == CommaLine(objects[k], k == |objects| - 1)
  {
    if n > 0 {
      CommaLinesShape(objects, n - 1);
    }
  }

  lemma BracketedShape(objects: seq<string>)
    ensures var r := Bracketed(objects);
      |r| == |objects| + 2 && r[0] == "[" && r[|r| - 1] == "]"
      && forall k :: 0 <= k < |objects| ==> r[k + 1] == CommaLine(objects[k], k == |objects| - 1)
  {
    CommaLinesShape(objects, |objects|);
  }

  /**
   * The JSON file opens with `[` and closes with `]`, holds one object per
   * student in list order, and every object but the last is followed by a comma.
   */
  lemma JsonShape(students: seq<StudentData>)
    ensures var r := JsonLines(students);
      |r| == |students| + 2 && r[0] == "[" && r[|r| - 1] == "]"
      && forall k :: 0 <= k < |students| ==> r[k + 1] == CommaLine(JsonObject(students[k]), k == |students| - 1)
  {
    var objects := JsonObjects(students);
    BracketedShape(objects);
    forall k | 0 <= k < |students|
      ensures objects[k] == JsonObject(students[k])
    {
      JsonObjectsAt(students, k);
    }
  }

  /** Names go into the JSON text verbatim: a quote inside a name is not escaped. */
  lemma JsonShowsNames(d: StudentData)
    ensures Contains(JsonObject(d), JsonMember("firstName", Quoted(d.firstName)))
    ensures Contains(JsonObject(d), JsonMember("lastName", Quoted(d.lastName)))
  {
    var f := JsonMembers(d);
    assert Join([f[3], f[4]], ",") == f[3] + "," + f[4];
    JoinCons(f[2], [f[3], f[4]], ",");
    JoinCons(f[1], [f[2], f[3], f[4]], ",");
    JoinCons(f[0], [f[1], f[2], f[3], f[4]], ",");
    assert f == [f[0], f[1], f[2], f[3], f[4]];
    var body := Join(f, ",");
    var tail := f[3] + "," + f[4];
    assert body == f[0] + "," + (f[1] + "," + (f[2] + "," + tail));
    ContainsMiddle("", f[1], "");
    ContainsMiddle("", f[2], "");
    assert "" + f[1] + "" == f[1] && "" + f[2] + "" == f[2];
    ContainsSecondField(f[0], f[1], f[2] + "," + tail, f[1]);
    ContainsSecondField(f[1], f[2], tail, f[2]);
    ContainsPrefixed(f[0] + ",", f[1] + "," + (f[2] + "," + tail), f[2]);
    ContainsPrefixed("  {", body, f[1]);
    ContainsPrefixed("  {", body, f[2]);
    ContainsSuffixed("  {" + body, "}", f[1]);
    ContainsSuffixed("  {" + body, "}", f[2]);
  }

  /** `exportToJSON`: writes the file line by line; false when the path cannot be opened. */
  method ExportToJson(fs: FileSystem, students: seq<StudentData>, filename: string) returns (ok: bool)
    modifies fs
    ensures fs.readOnly == old(fs.readOnly)
    ensures ok <==> filename !in fs.readOnly
    ensures ok ==> fs.files == old(fs.files)[filename := JsonLines(students)]
    ensures !ok ==> fs.files == old(fs.files)
  {
    if filename in fs.readOnly {
      return false;
    }
    var lines := JsonText(students);
    fs.files := fs.files[filename := lines];
    ok := true;
  }

  /** The lines the JSON writer prints, one `println` at a time. */
  method JsonText(students: seq<StudentData>) returns (lines: seq<string>)
    ensures lines == JsonLines(students)
  {
    ghost var all := JsonObjects(students);
    var objects := [];
    var i := 0;
    while i < |students|
      invariant 0 <= i <= |students|
      invariant objects == all[..i]
    {
      var text := JsonObject(students[i]);
      JsonObjectsAt(students, i);
      PrefixStep(all, i);
      objects := objects + [text];
      i := i + 1;
    }
    assert all[..i] == all;
    lines := BracketLines(objects);
  }

  /** The writer's loop: `[`, each object with a comma unless it is the last, then `]`. */
  method BracketLines(objects: seq<string>) returns (lines: seq<string>)
    ensures lines == Bracketed(objects)
  {
    lines := ["["];
    var i := 0;
    while i < |objects|
      invariant 0 <= i <= |objects|
      invariant lines == ["["] + CommaLines(objects, i)
    {
      lines := lines + [CommaLine(objects[i], i == |objects| - 1)];
      i := i + 1;
    }
    lines := lines + ["]"];
  }

  /** `importFromJSON` reads the file but parses nothing: no students, or `None` when it is missing. */
  method ImportFromJson(fs: FileSystem, filename: string) returns (r: Option<seq<StudentData>>)
    ensures r == if filename in fs.files then Some([]) else None
  {
    if filename !in fs.files {
      return None;
    }
    r := Some([]);
  }
}
