/**
 * The requests the desktop client sends and the way it reads the answers:
 * the form bodies of `addStudent`, `updateStudent` and `login`, and the
 * text tests that turn a response into success or failure.
 */
module ApiServiceCalls {
  import opened Wrappers
  import opened JavaText
  import opened StudentModel
  import opened QueryString
  import opened UrlEncoding
  import opened Http
  import opened StudentControllerModel
  import opened UserControllerModel

  // ---------------------------------------------------------------- request bodies

  /** The four form fields: the names URL-encoded, the age with `%d`, the grade as given. */
  function StudentForm(d: StudentData, gradeText: string): seq<(string, string)> {
    [("firstName", UrlEncode(d.firstName)), ("lastName", UrlEncode(d.lastName)),
     ("age", IntText(d.age)), ("grade", gradeText)]
  }

  /** `addStudent`'s body, its grade written with `%.2f` under `Locale.US`. */
  function AddBody(d: StudentData): string {
    FormBody(StudentForm(d, GradeText(d.grade)))
  }

  /** `%.2f` under a platform locale whose decimal separator is `separator`. */
  function LocaleGradeText(h: int, separator: char): string {
    ReplaceChar(GradeText(h), '.', separator)
  }

  /** `updateStudent`'s body, formatted without a locale, so in the platform's. */
  function UpdateBody(d: StudentData, separator: char): string {
    FormBody(StudentForm(d, LocaleGradeText(d.grade, separator)))
  }

  /** Under a locale with a decimal point the two bodies agree. */
  lemma UpdateBodyWithPoint(d: StudentData)
    ensures UpdateBody(d, '.') == AddBody(d)
  {
    assert LocaleGradeText(d.grade, '.') == GradeText(d.grade);
  }

  /** The parameters the server reads from a student form with a plain grade text. */
  lemma FormReadsBack(d: StudentData, gradeText: string)
    requires d.firstName != "" && d.lastName != "" && PlainToken(gradeText)
    ensures QueryParams(Some(FormBody(StudentForm(d, gradeText))))
      == map["firstName" := UrlEncode(d.firstName), "lastName" := UrlEncode(d.lastName),
             "age" := IntText(d.age), "grade" := gradeText]
  {
    EncodedPlain(d.firstName);
    EncodedPlain(d.lastName);
    IntTextNumber(d.age);
    NumberTextLacks(IntText(d.age), '&');
    NumberTextLacks(IntText(d.age), '=');
    FormParams(UrlEncode(d.firstName), UrlEncode(d.lastName), IntText(d.age), gradeText);
  }

  lemma FormParams(first: string, last: string, age: string, grade: string)
    requires PlainToken(first) && PlainToken(last) && PlainToken(age) && PlainToken(grade)
    ensures QueryParams(Some(FormBody([("firstName", first), ("lastName", last), ("age", age), ("grade", grade)])))
      == map["firstName" := first, "lastName" := last, "age" := age, "grade" := grade]
  {
    var entries := [("firstName", first), ("lastName", last), ("age", age), ("grade", grade)];
    ParseFormBody(entries);
    var e1, e2, e3 := entries[..1], entries[..2], entries[..3];
    assert e1[..0] == [] && e2[..1] == e1 && e3[..2] == e2 && entries[..3] == e3;
    assert EntriesMap(e1) == map["firstName" := first];
    assert EntriesMap(e2) == map["firstName" := first, "lastName" := last];
    assert EntriesMap(e3) == map["firstName" := first, "lastName" := last, "age" := age];
  }

  /** The student the server builds from a form: the names arrive still URL-encoded. */
  function Received(d: StudentData, id: int): StudentData {
    StudentData(id, UrlEncode(d.firstName), UrlEncode(d.lastName), d.age, d.grade)
  }

  /**
   * An add body passes the server's field checks whatever the names hold,
   * but the server keeps the names as they were sent, URL-encoded.
   */
  lemma AddBodyReachesServer(d: StudentData, id: int, invalid: string)
    requires d.firstName != "" && d.lastName != "" && IsInt32(d.age)
    ensures FormStudent(QueryParams(Some(AddBody(d))), id, invalid) == Success(Received(d, id))
  {
    GradeTextNumber(d.grade);
    NumberTextLacks(GradeText(d.grade), '&');
    NumberTextLacks(GradeText(d.grade), '=');
    FormReadsBack(d, GradeText(d.grade));
    ParseIntText(d.age);
    ParseGradeText(d.grade);
    FormFields(UrlEncode(d.firstName), UrlEncode(d.lastName), IntText(d.age), GradeText(d.grade), Received(d, id), invalid);
  }

  /** Four present fields whose numbers parse make the student they spell. */
  lemma FormFields(first: string, last: string, age: string, grade: string, s: StudentData, invalid: string)
    requires ParseInt(age) == Some(s.age) && ParseGrade(grade) == Some(s.grade)
    requires s.firstName == first && s.lastName == last
    ensures FormStudent(map["firstName" := first, "lastName" := last, "age" := age, "grade" := grade], s.id, invalid)
      == Success(s)
  {
  }

  /**
   * Under a locale with a decimal comma the update body carries a grade
   * such as `15,50`, which the server refuses with a 400.
   */
  lemma UpdateWithCommaRejected(d: StudentData, id: int)
    requires d.firstName != "" && d.lastName != ""
    ensures FormStudent(QueryParams(Some(UpdateBody(d, ','))), id, "Invalid ID, age or grade value")
      == Failure(Response(400, "Invalid ID, age or grade value"))
  {
    var t := LocaleGradeText(d.grade, ',');
    assert PlainToken(t) && ParseGrade(t) == None by {
      CommaGradeText(d.grade);
    }
    FormReadsBack(d, t);
  }

  /** The grade written with a decimal comma is a plain form value that does not parse. */
  lemma CommaGradeText(h: int)
    ensures var t := LocaleGradeText(h, ',');
      PlainToken(t) && ParseGrade(t) == None
  {
    var g := GradeText(h);
    var t := LocaleGradeText(h, ',');
    GradeTextNumber(h);
    GradeTextPoint(h);
    var k :| 0 <= k < |g| && g[k] == '.';
    assert t[k] == ',';
    assert '&' !in t && '=' !in t by {
      forall i | 0 <= i < |t|
        ensures t[i] != '&' && t[i] != '='
      {
        assert IsNumberChar(g[i]);
      }
    }
    ParseGradeComma(t);
  }

  /** A space in a name reaches the server as `+`, which is what gets stored. */
  lemma SpaceStoredAsPlus(d: StudentData, id: int, a: string, b: string)
    requires d.firstName == a + " " + b && d.lastName != "" && IsInt32(d.age)
    ensures FormStudent(QueryParams(Some(AddBody(d))), id, "Invalid age or grade value")
      == Success(Received(d, id).(firstName := UrlEncode(a) + "+" + UrlEncode(b)))
    ensures Received(d, id).firstName != d.firstName
  {
    AddBodyReachesServer(d, id, "Invalid age or grade value");
    SpaceAsPlus(a, b);
    EncodedPlain(d.firstName);
    assert d.firstName[|a|] == ' ';
  }

  /** The field checks followed by `URLDecoder.decode` of both names, which the server leaves out. */
  function DecodedFormStudent(params: map<string, string>, id: int, invalid: string): Result<StudentData, Response> {
    match FormStudent(params, id, invalid)
    case Failure(e) => Failure(e)
    case Success(s) =>
      match (UrlDecode(s.firstName), UrlDecode(s.lastName))
      case (Some(first), Some(last)) => Success(s.(firstName := first, lastName := last))
      case _ => Failure(Response(400, invalid))
  }

  /** With the names decoded on arrival, the server builds exactly the student the client sent. */
  lemma AddBodyRoundTrip(d: StudentData, id: int, invalid: string)
    requires d.firstName != "" && d.lastName != "" && IsInt32(d.age)
    ensures DecodedFormStudent(QueryParams(Some(AddBody(d))), id, invalid) == Success(d.(id := id))
  {
    AddBodyReachesServer(d, id, invalid);
    UrlRoundTrip(d.firstName);
    UrlRoundTrip(d.lastName);
  }

  /** `login`'s body: both fields URL-encoded. */
  function LoginBody(username: string, password: string): string {
    FormBody([("username", UrlEncode(username)), ("password", UrlEncode(password))])
  }

  /** The server compares the encoded name and password with the stored ones. */
  lemma LoginComparesEncoded(users: map<string, string>, username: string, password: string)
    requires username != "" && password != ""
    ensures Credentials(users, QueryParams(Some(LoginBody(username, password))))
      <==> UrlEncode(username) in users && users[UrlEncode(username)] == UrlEncode(password)
  {
    var entries := [("username", UrlEncode(username)), ("password", UrlEncode(password))];
    EncodedPlain(username);
    EncodedPlain(password);
    ParseFormBody(entries);
    assert entries[..1][..0] == [];
  }

  // ---------------------------------------------------------------- reading the answers

  /** The response arrived and contains `phrase`; the client's tests all take this form. */
  predicate Says(response: Option<string>, phrase: string) {
    response.Some? && Contains(response.value, phrase)
  }

  /** `addStudent`: the other messages it tests for all lead to false as well. */
  predicate AddSucceeded(response: Option<string>) {
    Says(response, "Student added successfully")
  }

  /** `updateStudent`, likewise. */
  predicate UpdateSucceeded(response: Option<string>) {
    Says(response, "Student updated successfully")
  }

  /** `deleteStudent`, `exportStudents` and `importStudents`. */
  predicate Acknowledged(response: Option<string>) {
    Says(response, "successfully")
  }

  /** `login`. */
  predicate LoginSucceeded(response: Option<string>) {
    Says(response, "successful")
  }

  /** `register`. */
  predicate RegisterSucceeded(response: Option<string>) {
    Says(response, "Registration successful")
  }

  /** `isServerRunning`. */
  predicate ServerRunning(response: Option<string>) {
    Says(response, "running")
  }

  lemma SaysEnd(h: string, t: string)
    ensures Says(Some(h + t), t)
  {
    ContainsMiddle(h, t, "");
    assert h + t + "" == h + t;
  }

  lemma SaysWhole(t: string)
    ensures Says(Some(t), t)
  {
    ContainsMiddle("", t, "");
    assert "" + t + "" == t;
  }

  /** `s` does not contain `phrase`, as one of `phrase`'s characters is missing from it. */
  lemma Unsaid(s: string, phrase: string, c: char)
    requires c in phrase && c !in s
    ensures !Says(Some(s), phrase)
  {
    NotContainsWithout(s, phrase, c);
  }

  lemma AddTexts()
    ensures AddSucceeded(Some("Student added successfully"))
    ensures !AddSucceeded(Some("Missing required fields"))
    ensures !AddSucceeded(Some("Invalid age or grade value"))
    ensures !AddSucceeded(Some("Failed to add student"))
  {
    var t := "Student added successfully";
    SaysWhole(t);
    Unsaid("Missing required fields", t, 'y');
    Unsaid("Invalid age or grade value", t, 'y');
    Unsaid("Failed to add student", t, 'y');
  }

  /** The client reports an add as done exactly when the server answered 201. */
  lemma AddVerdict(resp: Response)
    requires AddAnswer(resp)
    ensures AddSucceeded(Some(resp.body)) <==> resp.status == 201
  {
    AddTexts();
  }

  lemma UpdateTexts()
    ensures UpdateSucceeded(Some("Student updated successfully"))
    ensures !UpdateSucceeded(Some("Missing required fields"))
  {
    var t := "Student updated successfully";
    SaysWhole(t);
    Unsaid("Missing required fields", t, 'y');
  }

  lemma UpdateRefusalTexts()
    ensures !UpdateSucceeded(Some("Invalid ID, age or grade value"))
    ensures !UpdateSucceeded(Some("Student not found or update failed"))
  {
    var t := "Student updated successfully";
    Unsaid("Invalid ID, age or grade value", t, 'y');
    Unsaid("Student not found or update failed", t, 'y');
  }

  /** The client reports an update as done exactly when the server answered 200. */
  lemma UpdateVerdict(resp: Response)
    requires UpdateAnswer(resp)
    ensures UpdateSucceeded(Some(resp.body)) <==> resp.status == 200
  {
    UpdateTexts();
    UpdateRefusalTexts();
  }

  lemma DeleteTexts()
    ensures Acknowledged(Some("Student deleted successfully"))
    ensures !Acknowledged(Some("Invalid student ID"))
    ensures !Acknowledged(Some("Student not found"))
  {
    var t := "successfully";
    SaysEnd("Student deleted ", t);
    assert "Student deleted " + t == "Student deleted successfully";
    Refusal("Invalid student ID");
    Refusal("Student not found");
  }

  /** The client reports a deletion as done exactly when the server answered 200. */
  lemma DeleteVerdict(resp: Response)
    requires DeleteAnswer(resp)
    ensures Acknowledged(Some(resp.body)) <==> resp.status == 200
  {
    DeleteTexts();
  }

  /** The refusals of a bad `format` or `filename` read as failures. */
  lemma RefusalTexts()
    ensures !Acknowledged(Some("Missing format or filename parameter"))
    ensures !Acknowledged(Some("Unsupported format. Use 'csv' or 'json'"))
  {
    Refusal("Missing format or filename parameter");
    Refusal("Unsupported format. Use 'csv' or 'json'");
  }

  /** A message without the `y` of "successfully" does not read as a success. */
  lemma Refusal(message: string)
    requires 'y' !in message
    ensures !Acknowledged(Some(message))
  {
    Unsaid(message, "successfully", 'y');
  }

  lemma ExportTexts()
    ensures Acknowledged(Some("Export completed successfully"))
    ensures !Acknowledged(Some("Export failed"))
  {
    var t := "successfully";
    SaysEnd("Export completed ", t);
    assert "Export completed " + t == "Export completed successfully";
    Refusal("Export failed");
  }

  /** The client reports an export as done exactly when the server answered 200. */
  lemma ExportVerdict(resp: Response)
    requires ExportAnswer(resp)
    ensures Acknowledged(Some(resp.body)) <==> resp.status == 200
  {
    RefusalTexts();
    ExportTexts();
  }

  /**
   * The client reports an import as done exactly when the server answered
   * 200, which includes an import in which no student was added.
   */
  lemma ImportVerdict(resp: Response)
    requires ImportAnswer(resp)
    ensures Acknowledged(Some(resp.body)) <==> resp.status == 200
  {
    RefusalTexts();
    if resp.status == 200 {
      var count: nat :| resp.body == ImportedText(count);
      ImportedAcknowledged(count);
    } else if resp == Response(500, "Import failed") {
      Refusal("Import failed");
    }
  }

  /** Every import count, 0 included, is reported as a success. */
  lemma ImportedAcknowledged(count: nat)
    ensures Acknowledged(Some(ImportedText(count)))
  {
    var head := "Import completed. " + IntText(count) + " students imported ";
    ContainsMiddle(head, "successfully", "");
    assert head + "successfully" + "" == ImportedText(count);
  }

  /** The client reports a login as done exactly when the credentials match. */
  lemma LoginVerdict(users: map<string, string>, body: string)
    ensures LoginSucceeded(Some(LoginAnswer(users, body).body)) <==> Credentials(users, QueryParams(Some(body)))
  {
    LoginAnswerCredentials(users, body);
    LoginTexts();
  }

  lemma LoginTexts()
    ensures LoginSucceeded(Some("Login successful"))
    ensures !LoginSucceeded(Some("Invalid credentials"))
  {
    SaysEnd("Login ", "successful");
    assert "Login " + "successful" == "Login successful";
    Unsaid("Invalid credentials", "successful", 'u');
  }

  /**
   * `register` posts to `/register`, which no user handler serves: the root
   * handler's welcome comes back and the client reports a failure every time.
   */
  lemma RegisterNeverSucceeds()
    ensures ContextOf("/register") == RootContext
    ensures !RegisterSucceeded(Some(WelcomeText))
  {
    RegisterNotMounted();
    NotContainsWithout(WelcomeText, "Registration successful", 'R');
  }

  lemma RegisterTexts()
    ensures RegisterSucceeded(Some("Registration successful"))
  {
    SaysWhole("Registration successful");
  }

  lemma RegisterBlankText()
    ensures !RegisterSucceeded(Some("Username and password are required"))
  {
    Unsaid("Username and password are required", "Registration successful", 'R');
  }

  lemma RegisterRefusalTexts()
    ensures !RegisterSucceeded(Some("User already exists"))
    ensures !RegisterSucceeded(Some("Registration failed"))
  {
    var t := "Registration successful";
    Unsaid("User already exists", t, 'R');
    Unsaid("Registration failed", t, 'u');
  }

  /**
   * With the user handler also mounted at `/register`, a POST there reaches
   * `handleRegister`, and the client reports success exactly when the server
   * answered 200, that is, accepted the registration.
   */
  lemma RegisterVerdictWhenMounted(resp: Response, body: string)
    requires RegisterAnswer(resp)
    ensures MountedContextOf("/register") == LoginContext
    ensures UserRouteOf(Request("POST", "/register", None, body)) == RegisterRoute
    ensures RegisterSucceeded(Some(resp.body)) <==> resp.status == 200
  {
    RegisterMounted("/register");
    RegisterTexts();
    RegisterBlankText();
    RegisterRefusalTexts();
  }

  /** The health answer reads as running; the root handler's welcome does not. */
  lemma HealthVerdict()
    ensures ServerRunning(Some(HealthText))
    ensures !ServerRunning(Some(WelcomeText))
  {
    SaysEnd("Server is ", "running");
    assert "Server is " + "running" == HealthText;
    NotContainsWithout(WelcomeText, "running", 'g');
  }
}
