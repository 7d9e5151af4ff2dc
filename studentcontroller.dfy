/**
 * The HTTP handler of `/students`: the routing on method, path and decoded query,
 * the validation of every parameter before the table is touched, and the
 * status and text each case sends back. A request is a value; sending a
 * response is returning it, and `None` is the exchange left unanswered.
 */
module StudentControllerModel {
  import opened Wrappers
  import opened JavaText
  import opened StudentModel
  import opened Sql
  import opened StudentDaoModel
  import opened QueryString
  import opened FileManagerModel
  import opened Http

  /** The handler a request reaches. */
  datatype Route =
    | ListAll | SearchRoute | SortRoute | PageRoute | StatisticsRoute | ExportRoute | GetById
    | AddRoute | ImportRoute | UpdateRoute | DeleteRoute | NotAllowed | Unrouted

  /** The query contains `word` anywhere, in a key or in a value. */
  predicate QueryMentions(req: Request, word: string) {
    req.query.Some? && Contains(req.query.value, word)
  }

  /**
   * `handle`: the `switch` on the method, then the path tests in order; a
   * recognised method on a path it does not know falls through unanswered.
   */
  function RouteOf(req: Request): Route {
    if req.verb == "GET" then
      if req.path == "/students" then
        if QueryMentions(req, "search") then SearchRoute
        else if QueryMentions(req, "sort") then SortRoute
        else if QueryMentions(req, "page") then PageRoute
        else ListAll
      else if req.path == "/students/statistics" then StatisticsRoute
      else if req.path == "/students/export" then ExportRoute
      else if StartsWith(req.path, "/students/") then GetById
      else Unrouted
    else if req.verb == "POST" then
      if req.path == "/students" then AddRoute
      else if req.path == "/students/import" then ImportRoute
      else Unrouted
    else if req.verb == "PUT" then
      if StartsWith(req.path, "/students/") then UpdateRoute else Unrouted
    else if req.verb == "DELETE" then
      if StartsWith(req.path, "/students/") then DeleteRoute else Unrouted
    else NotAllowed
  }

  /** The routes whose handler only reads the table and writes no file. */
  predicate ReadOnly(route: Route) {
    route in {ListAll, SearchRoute, SortRoute, PageRoute, StatisticsRoute, GetById, NotAllowed, Unrouted}
  }

  // ---------------------------------------------------------------- search

  /** The columns `criteria.matches("first_name|last_name|age|grade")` lets through. */
  const SearchColumns: set<string> := {"first_name", "last_name", "age", "grade"}

  /** The value as the DAO receives it: an `Integer` for age, a `Double` for grade, else the text. */
  function TypedValue(col: Column, value: string): Option<SqlValue> {
    if col == AgeColumn then
      match ParseInt(value)
      case Some(n) => Some(Integer(n))
      case None => None
    else if col == GradeColumn then
      match ParseGrade(value)
      case Some(h) => Some(Decimal(h))
      case None => None
    else Some(Text(value))
  }

  /** The checks of `handleSearchStudents`, in order; success gives what reaches the DAO. */
  function SearchQuery(params: map<string, string>): Result<(Column, SqlValue), Response> {
    if "search" !in params || "value" !in params then
      Failure(Response(400, "Missing search criteria or value"))
    else
      var col := ColumnNamed(params["search"]);
      if col.None? || col.value == IdColumn then Failure(Response(400, "Invalid search criteria"))
      else
        match TypedValue(col.value, params["value"])
        case None => Failure(Response(400, "Invalid value for numeric field"))
        case Some(v) => Success((col.value, v))
  }

  /**
   * A search reaches the table exactly when both parameters are there, the
   * criterion is one of the four allowed names and a numeric value parses.
   */
  lemma SearchQueryAccepts(params: map<string, string>)
    ensures SearchQuery(params).Success? <==>
      "search" in params && "value" in params && params["search"] in SearchColumns
      && (params["search"] == "age" ==> ParseInt(params["value"]).Some?)
      && (params["search"] == "grade" ==> ParseGrade(params["value"]).Some?)
  {
    if "search" in params && "value" in params {
      var criteria, value := params["search"], params["value"];
      var col := ColumnNamed(criteria);
      if col == Some(AgeColumn) {
        assert criteria == "age";
      } else if col == Some(GradeColumn) {
        assert criteria == "grade";
      } else if col == Some(FirstNameColumn) || col == Some(LastNameColumn) {
        assert criteria in SearchColumns && criteria != "age" && criteria != "grade";
      } else {
        assert criteria !in SearchColumns;
      }
    }
  }

  /**
   * The column spliced into the SQL text of an accepted search is the very
   * name that was sent, and the value has the column's type; every refusal
   * is a 400.
   */
  lemma SearchQueryTyped(params: map<string, string>)
    ensures SearchQuery(params).Success? ==>
      var (col, v) := SearchQuery(params).value;
      ColumnName(col) == params["search"] && Comparable(col, v)
      && (v.Text? ==> v.text == params["value"])
    ensures SearchQuery(params).Failure? ==> SearchQuery(params).error.status == 400
  {
  }

  /** The response to a search request with this query. */
  function SearchAnswer(rows: seq<StudentData>, query: string): Response {
    match SearchQuery(QueryParams(Some(query)))
    case Failure(e) => e
    case Success(cv) => Response(200, ListText(Search(rows, cv.0, cv.1)))
  }

  // ---------------------------------------------------------------- sort

  /** The checks of `handleSortStudents`: an exact column name, `asc` or `desc` in any case. */
  function SortQuery(params: map<string, string>): Result<(Column, Direction), Response> {
    if "sort" !in params || "order" !in params then
      Failure(Response(400, "Missing sort field or order"))
    else
      var col := ColumnNamed(params["sort"]);
      var order := params["order"];
      if col.None? then Failure(Response(400, "Invalid sort field"))
      else if EqualsIgnoreCase(order, "asc") then Success((col.value, Asc))
      else if EqualsIgnoreCase(order, "desc") then Success((col.value, Desc))
      else Failure(Response(400, "Invalid sort order (use asc or desc)"))
  }

  /**
   * An accepted sort splices the requested column name and `order.toUpperCase()`
   * into the SQL text; that upper-cased order is always exactly `ASC` or
   * `DESC`, whatever mix of cases was sent.
   */
  lemma SortQuerySplices(params: map<string, string>)
    requires SortQuery(params).Success?
    ensures var (col, dir) := SortQuery(params).value;
      ColumnName(col) == params["sort"] && ToUpperCase(params["order"]) == DirectionName(dir)
  {
    var order := params["order"];
    if EqualsIgnoreCase(order, "asc") {
      UpperOfIgnoreCase(order, "asc");
      assert ToUpperCase("asc") == "ASC";
    } else {
      UpperOfIgnoreCase(order, "desc");
      assert ToUpperCase("desc") == "DESC";
    }
  }

  // ---------------------------------------------------------------- pagination

  /** `(page - 1) * size` as Java computes it in `int`: the product wraps around. */
  function PageOffset32(page: int, size: int): int {
    Wrap32((page - 1) * size)
  }

  /** The offset of a page counted from 1, without wrap-around. */
  function PageOffset(page: int, size: int): int {
    (page - 1) * size
  }

  /** The checks of `handlePaginatedStudents`; success gives the offset and the limit. */
  function PageQuery(params: map<string, string>): Result<(int, int), Response> {
    if "page" !in params || "size" !in params then
      Failure(Response(400, "Missing page or size parameter"))
    else
      match (ParseInt(params["page"]), ParseInt(params["size"]))
      case (Some(page), Some(size)) =>
        if page < 1 || size < 1 then Failure(Response(400, "Page and size must be positive integers"))
        else Success((PageOffset32(page, size), size))
      case _ => Failure(Response(400, "Invalid page or size value"))
  }

  /**
   * A page reaches the table exactly when both numbers parse and are at least 1;
   * the offset handed on is the `int` product, which is the true offset whenever
   * that fits in an `int`.
   */
  lemma PageQueryAccepts(params: map<string, string>)
    ensures PageQuery(params).Success? <==>
      "page" in params && "size" in params
      && ParseInt(params["page"]).Some? && ParseInt(params["size"]).Some?
      && ParseInt(params["page"]).value >= 1 && ParseInt(params["size"]).value >= 1
    ensures PageQuery(params).Success? ==>
      var page, size := ParseInt(params["page"]).value, ParseInt(params["size"]).value;
      && PageQuery(params).value == (PageOffset32(page, size), size)
      && (PageOffset(page, size) <= INT_MAX ==> PageQuery(params).value.0 == PageOffset(page, size))
    ensures PageQuery(params).Failure? ==> PageQuery(params).error.status == 400
  {
    if PageQuery(params).Success? {
      var page, size := ParseInt(params["page"]).value, ParseInt(params["size"]).value;
      if PageOffset(page, size) <= INT_MAX {
        PageOffsetAgrees(page, size);
      }
    }
  }

  /** Without overflow the wrapped offset is the true one. */
  lemma PageOffsetAgrees(page: int, size: int)
    requires page >= 1 && size >= 1 && PageOffset(page, size) <= INT_MAX
    ensures PageOffset32(page, size) == PageOffset(page, size) >= 0
  {
    MulMonotone(size, 0, page - 1);
  }

  /**
   * Page `page` of size `size` holds the rows from `(page - 1) * size` up to
   * `page * size`, cut at the end of the table; pages past the end are empty.
   */
  lemma PageWindow(rows: seq<StudentData>, page: int, size: int)
    requires page >= 1 && size >= 1
    ensures var lo := PageOffset(page, size);
      lo >= 0 && lo + size == page * size
      && Page(rows, lo, size) == if lo >= |rows| then [] else rows[lo..Min(page * size, |rows|)]
  {
    var lo := PageOffset(page, size);
    MulMonotone(size, 0, page - 1);
    assert lo + size == page * size;
  }

  function Min(a: int, b: int): int {
    if a <= b then a else b
  }

  /**
   * As written, the offset wraps: page 2^30 + 1 of size 4 starts at offset
   * 0, so a request for a page far past the end of a non-empty table gets
   * its first rows back instead of none.
   */
  lemma PageOffsetWraps(rows: seq<StudentData>)
    requires 1 <= |rows| <= INT_MAX
    ensures PageOffset32(0x4000_0001, 4) == 0
    ensures Page(rows, PageOffset32(0x4000_0001, 4), 4) != []
    ensures Page(rows, PageOffset(0x4000_0001, 4), 4) == []
  {
    assert (0x4000_0001 - 1) * 4 == 0x1_0000_0000;
    assert Page(rows, 0, 4)[0] == rows[0];
  }

  /** The response to a pagination request with this query. */
  function PageAnswer(rows: seq<StudentData>, query: string): Response {
    match PageQuery(QueryParams(Some(query)))
    case Failure(e) => e
    case Success(ol) => Response(200, ListText(Page(rows, ol.0, ol.1)))
  }

  // ---------------------------------------------------------------- ids and bodies

  /** A path under `/students/` has at least the pieces `""` and `"students"`. */
  lemma StudentPathPieces(path: string)
    requires StartsWith(path, "/students/")
    ensures |Split(path, "/")| >= 2
  {
    var rest := path[10..];
    assert path == "" + "/" + ("students" + "/" + rest);
    SplitRawAfterMarked("", "/", "students" + "/" + rest);
    SplitRawAfterMarked("students", "/", rest);
    var raw := SplitRaw(path, "/");
    assert raw[1] == "students";
  }

  /** `Integer.parseInt` of the last `/`-piece of the path; `None` is the NumberFormatException. */
  function PathId(path: string): Option<int>
    requires StartsWith(path, "/students/")
  {
    StudentPathPieces(path);
    var parts := Split(path, "/");
    ParseInt(parts[|parts| - 1])
  }

  /** The path a client builds for an id leads back to that id. */
  lemma PathIdText(id: int)
    requires IsInt32(id)
    ensures StartsWith("/students/" + IntText(id), "/students/")
    ensures PathId("/students/" + IntText(id)) == Some(id)
  {
    var t := IntText(id);
    var path := "/students/" + t;
    assert path[..10] == "/students/";
    IntTextNumber(id);
    NumberTextLacks(t, '/');
    assert Join(["", "students", t], "/") == path by {
      JoinCons("students", [t], "/");
      JoinCons("", ["students", t], "/");
    }
    SplitJoin(["", "students", t], "/");
    ParseIntText(id);
  }

  /**
   * The four form fields of an add or update: a missing one is reported
   * first, then an age or grade that does not parse. The new student has the
   * given id and the names exactly as sent.
   */
  function FormStudent(params: map<string, string>, id: int, invalid: string): Result<StudentData, Response> {
    if "firstName" !in params || "lastName" !in params || "age" !in params || "grade" !in params then
      Failure(Response(400, "Missing required fields"))
    else
      match (ParseInt(params["age"]), ParseGrade(params["grade"]))
      case (Some(age), Some(grade)) => Success(StudentData(id, params["firstName"], params["lastName"], age, grade))
      case _ => Failure(Response(400, invalid))
  }

  /** The response to a lookup by id. */
  function ByIdAnswer(rows: seq<StudentData>, path: string): Response
    requires StartsWith(path, "/students/")
  {
    match PathId(path)
    case None => Response(400, "Invalid student ID")
    case Some(id) =>
      match FindById(rows, id)
      case Some(d) => Response(200, RecordText(d))
      case None => Response(404, "Student not found")
  }

  // ---------------------------------------------------------------- statistics

  const TotalKey: string := "totalStudents\":"
  const AverageKey: string := "averageGrade\":"

  /** `{"totalStudents":%d,"averageGrade":%.2f}`. */
  function StatisticsText(total: int, average: int): string {
    "{\"" + TotalKey + IntText(total) + ",\"" + AverageKey + GradeText(average) + "}"
  }

  // ---------------------------------------------------------------- files

  datatype Format = Csv | Json

  /** The `format` and `filename` parameters; the format is compared lower-cased. */
  function FileRequest(params: map<string, string>): Result<(Format, string), Response> {
    if "format" !in params || "filename" !in params then
      Failure(Response(400, "Missing format or filename parameter"))
    else
      var format := ToLowerAscii(params["format"]);
      if format == "csv" then Success((Csv, params["filename"]))
      else if format == "json" then Success((Json, params["filename"]))
      else Failure(Response(400, "Unsupported format. Use 'csv' or 'json'"))
  }

  /** `Import completed. %d students imported successfully`. */
  function ImportedText(count: int): string {
    "Import completed. " + IntText(count) + " students imported successfully"
  }

  // ---------------------------------------------------------------- every answer of a handler

  predicate AddAnswer(resp: Response) {
    resp in {Response(400, "Missing required fields"), Response(400, "Invalid age or grade value"),
             Response(201, "Student added successfully"), Response(500, "Failed to add student")}
  }

  predicate UpdateAnswer(resp: Response) {
    resp in {Response(400, "Missing required fields"), Response(400, "Invalid ID, age or grade value"),
             Response(200, "Student updated successfully"), Response(404, "Student not found or update failed")}
  }

  predicate DeleteAnswer(resp: Response) {
    resp in {Response(400, "Invalid student ID"), Response(200, "Student deleted successfully"),
             Response(404, "Student not found")}
  }

  predicate FileRequestRefusal(resp: Response) {
    resp in {Response(400, "Missing format or filename parameter"),
             Response(400, "Unsupported format. Use 'csv' or 'json'")}
  }

  predicate ExportAnswer(resp: Response) {
    FileRequestRefusal(resp) || resp in {Response(500, "Export failed"), Response(200, "Export completed successfully")}
  }

  ghost predicate ImportAnswer(resp: Response) {
    FileRequestRefusal(resp) || resp == Response(500, "Import failed")
    || (resp.status == 200 && exists count: nat :: resp.body == ImportedText(count))
  }

  // ---------------------------------------------------------------- what each route does

  /** `handleSortStudents` over `rows`: the refusal, or every row once in the requested order. */
  ghost predicate Sorted(rows: seq<StudentData>, query: string, resp: Response) {
    match SortQuery(QueryParams(Some(query)))
    case Failure(e) => resp == e
    case Success(cd) =>
      resp.status == 200
      && exists sorted :: resp.body == ListText(sorted) && SortedBy(sorted, cd.0, cd.1) && multiset(sorted) == multiset(rows)
  }

  /** `handleAddStudent`: the table before and after, and the answer. */
  predicate Added(rows: seq<StudentData>, nextId: int, body: string, rows': seq<StudentData>, nextId': int, resp: Response) {
    match FormStudent(QueryParams(Some(body)), 0, "Invalid age or grade value")
    case Failure(e) => resp == e && rows' == rows && nextId' == nextId
    case Success(s) =>
      var after := AddOutcome(rows, nextId, s);
      rows' == after.0 && nextId' == after.1
      && resp == if after.2 then Response(201, "Student added successfully") else Response(500, "Failed to add student")
  }

  /** `handleUpdateStudent`: the rows before and after, and the answer; the id sequence is not touched. */
  predicate Updated(rows: seq<StudentData>, path: string, body: string, rows': seq<StudentData>, resp: Response)
    requires StartsWith(path, "/students/")
  {
    match PathId(path)
    case None => resp == Response(400, "Invalid ID, age or grade value") && rows' == rows
    case Some(id) =>
      match FormStudent(QueryParams(Some(body)), id, "Invalid ID, age or grade value")
      case Failure(e) => resp == e && rows' == rows
      case Success(s) =>
        if HasId(rows, id) && StoredRow(s).Some? then
          rows' == Replace(rows, StoredRow(s).value) && resp == Response(200, "Student updated successfully")
        else
          rows' == rows && resp == Response(404, "Student not found or update failed")
  }

  /** `handleDeleteStudent`: the rows before and after, and the answer. */
  predicate Deleted(rows: seq<StudentData>, path: string, rows': seq<StudentData>, resp: Response)
    requires StartsWith(path, "/students/")
  {
    match PathId(path)
    case None => resp == Response(400, "Invalid student ID") && rows' == rows
    case Some(id) =>
      rows' == Remove(rows, id)
      && resp == if HasId(rows, id) then Response(200, "Student deleted successfully") else Response(404, "Student not found")
  }

  /** `handleExportStudents` of `rows`: the files before and after, and the answer. */
  predicate Exported(rows: seq<StudentData>, files: map<string, seq<string>>, readOnly: set<string>, query: Option<string>,
                     files': map<string, seq<string>>, resp: Response)
  {
    match FileRequest(QueryParams(query))
    case Failure(e) => resp == e && files' == files
    case Success(fr) =>
      var name := fr.1;
      var lines := if fr.0 == Csv then CsvLines(rows) else JsonLines(rows);
      if name in readOnly then
        files' == files && resp == Response(500, "Export failed")
      else
        files' == files[name := lines] && resp == Response(200, "Export completed successfully")
  }

  /** `handleImportStudents` reading from `files`: the table before and after, and the answer. */
  predicate Imported(files: map<string, seq<string>>, rows: seq<StudentData>, nextId: int, body: string,
                     rows': seq<StudentData>, nextId': int, resp: Response)
  {
    match FileRequest(QueryParams(Some(body)))
    case Failure(e) => resp == e && rows' == rows && nextId' == nextId
    case Success(fr) =>
      var read := ImportRead(files, fr.0, fr.1);
      if read.None? then
        resp == Response(500, "Import failed") && rows' == rows && nextId' == nextId
      else
        var after := AddEach(rows, nextId, read.value);
        rows' == after.0 && nextId' == after.1 && resp == Response(200, ImportedText(after.2))
  }

  /** The handler with its table and the disk its files live on. */
  class StudentController {
    const dao: StudentDao
    const fs: FileSystem

    predicate Valid()
      reads dao
    {
      dao.Valid()
    }

    constructor (dao: StudentDao, fs: FileSystem)
      ensures this.dao == dao && this.fs == fs
    {
      this.dao := dao;
      this.fs := fs;
    }

    /**
     * `handle`: exactly the request's route runs. A method other than the
     * four gets 405, a known method on an unknown path gets nothing, only
     * adds, updates, deletes and imports change the table, and only exports
     * change the files.
     */
    method Handle(req: Request) returns (r: Option<Response>)
      requires Valid()
      modifies dao, fs
      ensures Valid()
      ensures r.None? <==> RouteOf(req) == Unrouted
      ensures RouteOf(req) == NotAllowed ==> r == Some(Response(405, "Method Not Allowed"))
      ensures ReadOnly(RouteOf(req)) ==>
        dao.rows == old(dao.rows) && dao.nextId == old(dao.nextId) && fs.files == old(fs.files)
      ensures RouteOf(req) == ListAll ==> r == Some(Response(200, ListText(dao.rows)))
      ensures RouteOf(req) == SearchRoute ==> r == Some(SearchAnswer(dao.rows, req.query.value))
      ensures RouteOf(req) == PageRoute ==> r == Some(PageAnswer(dao.rows, req.query.value))
      ensures RouteOf(req) == GetById ==> r == Some(ByIdAnswer(dao.rows, req.path))
      ensures RouteOf(req) == StatisticsRoute ==>
        r == Some(Response(200, StatisticsText(|dao.rows|, AverageGrade(dao.rows))))
      ensures RouteOf(req) == SortRoute ==> r.Some? && Sorted(dao.rows, req.query.value, r.value)
      ensures RouteOf(req) == ExportRoute ==>
        && r.Some? && Exported(dao.rows, old(fs.files), old(fs.readOnly), req.query, fs.files, r.value)
        && dao.rows == old(dao.rows) && dao.nextId == old(dao.nextId) && fs.readOnly == old(fs.readOnly)
      ensures RouteOf(req) == AddRoute ==>
        && r.Some? && Added(old(dao.rows), old(dao.nextId), req.body, dao.rows, dao.nextId, r.value)
        && fs.files == old(fs.files)
      ensures RouteOf(req) == ImportRoute ==>
        && r.Some? && Imported(fs.files, old(dao.rows), old(dao.nextId), req.body, dao.rows, dao.nextId, r.value)
        && fs.files == old(fs.files)
      ensures RouteOf(req) == UpdateRoute ==>
        && r.Some? && Updated(old(dao.rows), req.path, req.body, dao.rows, r.value)
        && dao.nextId == old(dao.nextId) && fs.files == old(fs.files)
      ensures RouteOf(req) == DeleteRoute ==>
        && r.Some? && Deleted(old(dao.rows), req.path, dao.rows, r.value)
        && dao.nextId == old(dao.nextId) && fs.files == old(fs.files)
    {
      var route := RouteOf(req);
      var resp: Response;
      match route {
      case ListAll =>
        resp := HandleGetAll();
      case SearchRoute =>
        resp := HandleSearch(req.query.value);
      case SortRoute =>
        resp := HandleSort(req.query.value);
      case PageRoute =>
        resp := HandlePaginated(req.query.value);
      case StatisticsRoute =>
        resp := HandleStatistics();
      case ExportRoute =>
        resp := HandleExport(req.query);
      case GetById =>
        resp := HandleGetById(req.path);
      case AddRoute =>
        resp := HandleAdd(req.body);
      case ImportRoute =>
        resp := HandleImport(req.body);
      case UpdateRoute =>
        resp := HandleUpdate(req.path, req.body);
      case DeleteRoute =>
        resp := HandleDelete(req.path);
      case NotAllowed =>
        resp := Response(405, "Method Not Allowed");
      case Unrouted =>
        return None;
      }
      r := Some(resp);
    }

    /** `handleGetAllStudents`: every row, as `List.toString` prints it. */
    method HandleGetAll() returns (resp: Response)
      ensures resp == Response(200, ListText(dao.rows))
    {
      var students := dao.GetAllStudents();
      resp := Response(200, ListText(students));
    }

    /** `handleGetStudentById`. */
    method HandleGetById(path: string) returns (resp: Response)
      requires StartsWith(path, "/students/")
      ensures resp == ByIdAnswer(dao.rows, path)
    {
      match PathId(path)
      case None =>
        resp := Response(400, "Invalid student ID");
      case Some(id) =>
        var found := dao.GetStudentById(id);
        if found.Some? {
          resp := Response(200, RecordText(found.value));
        } else {
          resp := Response(404, "Student not found");
        }
    }

    /** `handleSearchStudents`. */
    method HandleSearch(query: string) returns (resp: Response)
      ensures resp == SearchAnswer(dao.rows, query)
    {
      var params := ParseQuery(Some(query));
      match SearchQuery(params)
      case Failure(e) =>
        resp := e;
      case Success(cv) =>
        var results := dao.SearchStudents(cv.0, cv.1);
        resp := Response(200, ListText(results));
    }

    /** `handleSortStudents`: every row once, in the requested order. */
    method HandleSort(query: string) returns (resp: Response)
      ensures Sorted(dao.rows, query, resp)
    {
      var params := ParseQuery(Some(query));
      match SortQuery(params)
      case Failure(e) =>
        resp := e;
      case Success(cd) =>
        var results := dao.SortStudents(cd.0, cd.1);
        resp := Response(200, ListText(results));
    }

    /** `handlePaginatedStudents`. */
    method HandlePaginated(query: string) returns (resp: Response)
      ensures resp == PageAnswer(dao.rows, query)
    {
      var params := ParseQuery(Some(query));
      match PageQuery(params)
      case Failure(e) =>
        resp := e;
      case Success(ol) =>
        var results := dao.GetStudentsPaginated(ol.0, ol.1);
        resp := Response(200, ListText(results));
    }

    /** `handleGetStatistics`. */
    method HandleStatistics() returns (resp: Response)
      requires Valid()
      ensures resp == Response(200, StatisticsText(|dao.rows|, AverageGrade(dao.rows)))
    {
      var average := dao.GetAverageGrade();
      var total := dao.GetStudentCount();
      resp := Response(200, StatisticsText(total, average));
    }

    /** `handleAddStudent`: the body's fields become a student with id 0, which the table numbers. */
    method HandleAdd(body: string) returns (resp: Response)
      requires Valid()
      modifies dao
      ensures Valid()
      ensures Added(old(dao.rows), old(dao.nextId), body, dao.rows, dao.nextId, resp)
      ensures AddAnswer(resp)
    {
      var params := ParseQuery(Some(body));
      match FormStudent(params, 0, "Invalid age or grade value")
      case Failure(e) =>
        resp := e;
      case Success(s) =>
        var ok := dao.AddStudent(s);
        if ok {
          resp := Response(201, "Student added successfully");
        } else {
          resp := Response(500, "Failed to add student");
        }
    }

    /** `handleUpdateStudent`: a bad id and a bad number share one message. */
    method HandleUpdate(path: string, body: string) returns (resp: Response)
      requires Valid() && StartsWith(path, "/students/")
      modifies dao
      ensures Valid() && dao.nextId == old(dao.nextId)
      ensures Updated(old(dao.rows), path, body, dao.rows, resp)
      ensures UpdateAnswer(resp)
    {
      match PathId(path)
      case None =>
        resp := Response(400, "Invalid ID, age or grade value");
      case Some(id) =>
        var params := ParseQuery(Some(body));
        match FormStudent(params, id, "Invalid ID, age or grade value")
        case Failure(e) =>
          resp := e;
        case Success(s) =>
          var ok := dao.UpdateStudent(s);
          if ok {
            resp := Response(200, "Student updated successfully");
          } else {
            resp := Response(404, "Student not found or update failed");
          }
    }

    /** `handleDeleteStudent`. */
    method HandleDelete(path: string) returns (resp: Response)
      requires Valid() && StartsWith(path, "/students/")
      modifies dao
      ensures Valid() && dao.nextId == old(dao.nextId)
      ensures Deleted(old(dao.rows), path, dao.rows, resp)
      ensures DeleteAnswer(resp)
    {
      match PathId(path)
      case None =>
        resp := Response(400, "Invalid student ID");
      case Some(id) =>
        var ok := dao.DeleteStudent(id);
        if ok {
          resp := Response(200, "Student deleted successfully");
        } else {
          resp := Response(404, "Student not found");
        }
    }

    /** `handleExportStudents`: the whole table goes to the named file. */
    method HandleExport(query: Option<string>) returns (resp: Response)
      modifies fs
      ensures fs.readOnly == old(fs.readOnly)
      ensures Exported(dao.rows, old(fs.files), fs.readOnly, query, fs.files, resp)
      ensures ExportAnswer(resp)
    {
      var params := ParseQuery(query);
      match FileRequest(params)
      case Failure(e) =>
        resp := e;
      case Success(fr) =>
        var students := dao.GetAllStudents();
        var ok;
        if fr.0 == Csv {
          ok := ExportToCsv(fs, students, fr.1);
        } else {
          ok := ExportToJson(fs, students, fr.1);
        }
        if ok {
          resp := Response(200, "Export completed successfully");
        } else {
          resp := Response(500, "Export failed");
        }
    }

    /**
     * `handleImportStudents`: every record read is offered to `addStudent`,
     * and the count is how many of those calls returned true; an unreadable
     * or malformed file is a 500.
     */
    method HandleImport(body: string) returns (resp: Response)
      requires Valid()
      modifies dao
      ensures Valid()
      ensures Imported(fs.files, old(dao.rows), old(dao.nextId), body, dao.rows, dao.nextId, resp)
      ensures ImportAnswer(resp)
    {
      var params := ParseQuery(Some(body));
      match FileRequest(params)
      case Failure(e) =>
        resp := e;
      case Success(fr) =>
        var read;
        if fr.0 == Csv {
          read := ImportFromCsv(fs, fr.1);
        } else {
          read := ImportFromJson(fs, fr.1);
        }
        if read.None? {
          resp := Response(500, "Import failed");
        } else {
          var count := AddAll(read.value);
          resp := Response(200, ImportedText(count));
        }
    }

    /** The loop of `handleImportStudents`: one `addStudent` per record, counting the successes. */
    method AddAll(students: seq<StudentData>) returns (count: nat)
      requires Valid()
      modifies dao
      ensures Valid()
      ensures (dao.rows, dao.nextId, count) == AddEach(old(dao.rows), old(dao.nextId), students)
    {
      count := 0;
      var i := 0;
      while i < |students|
        invariant 0 <= i <= |students| && Valid()
        invariant (dao.rows, dao.nextId, count) == AddEach(old(dao.rows), old(dao.nextId), students[..i])
      {
        assert students[..i + 1][..i] == students[..i];
        var ok := dao.AddStudent(students[i]);
        if ok {
          count := count + 1;
        }
        i := i + 1;
      }
      assert students[..i] == students;
    }
  }

  /** What the import reads from the named file, as `FileManager` parses it. */
  function ImportRead(files: map<string, seq<string>>, format: Format, name: string): Option<seq<StudentData>> {
    if name !in files then None
    else if format == Csv then CsvImport(files[name])
    else Some([])
  }

  /**
   * Importing the CSV export of the table into an empty table numbered from
   * 1 adds every student again, with fresh ids, and reports how many.
   */
  lemma ImportOfExport(students: seq<StudentData>, name: string)
    requires forall k :: 0 <= k < |students| ==> CsvSafe(students[k]) && Admissible(students[k])
    requires |students| <= INT_MAX
    ensures var read := ImportRead(map[name := CsvLines(students)], Csv, name);
      read == Some(students)
      && var after := AddEach([], 1, students);
      after.2 == |students| && |after.0| == |students|
  {
    CsvRoundTrip(students);
    AddEachAdmissible([], 1, students);
    AllAdmissibleCount(students);
    AddEachCount([], 1, students);
  }

  lemma {:induction false} AllAdmissibleCount(students: seq<StudentData>)
    requires forall k :: 0 <= k < |students| ==> Admissible(students[k])
    ensures CountStored(students) == |students|
  {
    if students != [] {
      AllAdmissibleCount(students[..|students| - 1]);
    }
  }
}
