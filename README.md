# LaplateformeTracker: a verified model of the student tracker's core

LaplateformeTracker keeps a table of students (id, first name, last name, age and a grade out of 20). An HTTP server exposes the table under `/students`, with listing, search, sort, pagination, statistics and CSV/JSON import and export, and handles `/login` for users. A JavaFX desktop client talks to that server. It encodes forms, decodes the server's text answers, validates the add/edit dialog, and shows a dashboard and a grade histogram.

This project models that core in Dafny and proves properties of it:

- `student.dfy` (`StudentModel`): the student value, the `Student` bean with its constructors and setters, and the record text `Student.toString` writes.
- `javatext.dfy` (`JavaText`): the Java text primitives the core depends on.
  - `String.split` on a literal separator, with trailing empty pieces dropped.
  - `trim`, `replace`, `toLowerCase` and `toUpperCase`.
  - `Integer.parseInt` on ASCII digits, and `Double.parseDouble` on decimal texts.
  - `%d` and `%.2f`.
  - Java `int` wrap-around.
- `sql.dfy` (`Sql`) and `studentdao.dfy` (`StudentDaoModel`): the `student` table as a class over its id-ordered rows and its id sequence.
  - Each DAO method gets the meaning of its fixed SQL statement.
  - The table's `CHECK` and `VARCHAR` constraints decide whether an insert or update succeeds. As in PostgreSQL, a `VARCHAR(n)` value that is too long is cut to `n` characters when all it loses are spaces.
- `http.dfy` (`Http`): requests and responses as values, and the server's choice of handler by the longest mounted path prefix.
- `sendresponse.dfy` (`ResponseLength`): the length header `sendResponse` announces, against the bytes it writes.
- `querystring.dfy` (`QueryString`): the hand-written `parseQuery`. `StudentController` and `UserController` hold identical copies of it.
- `studentcontroller.dfy` (`StudentControllerModel`): the routing and the decision ladder of every `/students` handler, over the table.
- `usercontroller.dfy` (`UserControllerModel`): login and registration over a user map that stands for `UserDAO`.
- `filemanager.dfy` (`FileManagerModel`): the CSV and JSON file formats, with a file as a sequence of lines.
- `studentservice.dfy` (`StudentServiceModel`): `isValidStudent`, the guarded operations, the age buckets and the import loops.
- `authservice.dfy` (`AuthenticationModel`): the in-memory login state machine.
- `urlencoding.dfy` (`UrlEncoding`): `URLEncoder.encode` and `URLDecoder.decode` for UTF-8.
- `apiservice.dfy` (`ApiServiceModel`): the client's decoders of the server's record, list and statistics texts.
- `apicalls.dfy` (`ApiServiceCalls`): the client's request bodies and the way it reads each answer.
- `studentdialog.dfy` (`StudentDialogModel`), `analyticsview.dfy` (`AnalyticsViewModel`), `dashboardview.dfy` (`DashboardViewModel`): the desktop client's form check, grade histogram and dashboard state.
- `wrappers.dfy` (`Wrappers`): `Option` and `Result`.

Modelling conventions:

- Grades and averages are integers counting hundredths. The column is `DECIMAL(4,2)` and every output uses `%.2f`, so a grade of 15.5 is 1550.
- Strings are sequences of characters.
- Java `null` becomes `None`, and a caught exception becomes the value the code returns in its `catch` block.
- Where the Java mutates an object or a collection in place, the model has a class with `modifies` clauses and loops with invariants. This covers the DAO, the services, the controllers, the dashboard, the file manager's loops and the student bean.
- Each such method is proved against a specification function, and the lemmas beside that function state what the source promises.

## Model

| member | source | states |
|---|---|---|
| StudentModel.Student.constructor | src/main/java/com/laplateforme/tracker/model/Student.java:13-18 | the four-argument constructor stores the given names, age and grade and leaves the id at its default 0 |
| StudentModel.Student.WithId | src/main/java/com/laplateforme/tracker/model/Student.java:20-26 | the five-argument constructor stores all five values unchanged |
| StudentModel.Student.SetId | src/main/java/com/laplateforme/tracker/model/Student.java:29-30 | `setId` changes the id and nothing else; `getId` then returns the new value |
| StudentModel.Student.SetFirstName | src/main/java/com/laplateforme/tracker/model/Student.java:32-33 | `setFirstName` changes the first name and nothing else; the getter returns the new value |
| StudentModel.Student.SetLastName | src/main/java/com/laplateforme/tracker/model/Student.java:35-36 | `setLastName` changes the last name and nothing else; the getter returns the new value |
| StudentModel.Student.SetAge | src/main/java/com/laplateforme/tracker/model/Student.java:38-39 | `setAge` changes the age and nothing else; the getter returns the new value |
| StudentModel.Student.SetGrade | src/main/java/com/laplateforme/tracker/model/Student.java:41-42 | `setGrade` changes the grade and nothing else; the getter returns the new value |
| StudentModel.RecordBodyFields | src/main/java/com/laplateforme/tracker/model/Student.java:44-48 | the record text after `Student{` is the five `key=value` fields id, firstName, lastName, age, grade in that order, separated by `,` |
| StudentModel.RecordShowsNames | src/main/java/com/laplateforme/tracker/model/Student.java:46 | each name appears in the record text verbatim between quotes: nothing is escaped |
| StudentModel.RecordTexts | src/main/java/com/laplateforme/tracker/controller/StudentController.java:73 | a list body holds one record text per student, in list order |
| JavaText.Wrap32 | src/main/java/com/laplateforme/tracker/controller/StudentController.java:167 | Java `int` arithmetic: the result is an `int`, differs from the exact value by a multiple of 2^32, and is the exact value when that fits |
| JavaText.DropTrailingEmpty | src/main/java/com/laplateforme/tracker/controller/StudentController.java:368-369 | `split` removes exactly the empty pieces at the end: what is kept is a prefix ending in a non-empty piece, and everything dropped is empty |
| JavaText.SplitRawJoin | src/main/java/com/laplateforme/tracker/controller/StudentController.java:368-369 | the pieces `split` cuts, before trailing empties are dropped, joined with the separator give the text back |
| JavaText.SplitRawSingle | src/main/java/com/laplateforme/tracker/controller/StudentController.java:368-370 | `split` gives one piece, the text itself, exactly when the separator does not occur in it |
| JavaText.SplitTwo | src/main/java/com/laplateforme/tracker/controller/StudentController.java:369-371 | `(a + sep + b).split(sep)` is `[a, b]` when the separator occurs only between them |
| JavaText.SplitHead | src/main/java/com/laplateforme/tracker/gui/ApiService.java:347-348 | the first piece of `(a + sep + b).split(sep)` is `a` when no occurrence starts inside `a` |
| JavaText.SplitJoin | src/main/java/com/laplateforme/tracker/gui/ApiService.java:330 | splitting on a separator whose last character is in no part gives back the parts that were joined with it |
| JavaText.TrimStartSpec | src/main/java/com/laplateforme/tracker/service/StudentService.java:108-109 | `trim` drops exactly the leading characters up to U+0020 |
| JavaText.TrimEndSpec | src/main/java/com/laplateforme/tracker/service/StudentService.java:108-109 | `trim` drops exactly the trailing characters up to U+0020 |
| JavaText.BlankMeansTrimmedOnly | src/main/java/com/laplateforme/tracker/service/StudentService.java:108-109 | `s.trim().isEmpty()` holds exactly when every character of `s` is at most U+0020 |
| JavaText.TrimKeeps | src/main/java/com/laplateforme/tracker/gui/StudentDialog.java:133-136 | a text with visible first and last characters is its own trim |
| JavaText.TrimTwice | src/main/java/com/laplateforme/tracker/gui/StudentDialog.java:187-188 | trimming an already trimmed text changes nothing |
| JavaText.RemoveChar | src/main/java/com/laplateforme/tracker/gui/ApiService.java:332-333 | `replace("'", "")` leaves no occurrence of the character |
| JavaText.RemoveAbsent | src/main/java/com/laplateforme/tracker/gui/ApiService.java:332-333 | removing a character the text does not hold returns the text unchanged |
| JavaText.ReplaceChar | src/main/java/com/laplateforme/tracker/gui/ApiService.java:129-133 | replacing one character by another keeps the length and changes exactly the positions that held it |
| JavaText.ToLowerAscii | src/main/java/com/laplateforme/tracker/controller/StudentController.java:295 | `toLowerCase` as far as the comparison with `csv`/`json` sees it: ASCII capitals are lowered, every other character is kept (exact for words without `k`) |
| JavaText.ToUpperCase | src/main/java/com/laplateforme/tracker/controller/StudentController.java:144 | `toUpperCase` raises each character the order check can accept |
| JavaText.UpperOfIgnoreCase | src/main/java/com/laplateforme/tracker/controller/StudentController.java:139-144 | an order equal to `asc` or `desc` ignoring case, with the long s, dotless i, dotted capital I and Kelvin sign matched as `equalsIgnoreCase` matches them, upper-cases to `ASC` or `DESC` |
| JavaText.NatTextValue | src/main/java/com/laplateforme/tracker/model/Student.java:46 | the decimal digits `%d` writes for a non-negative number have that value |
| JavaText.ParseIntText | src/main/java/com/laplateforme/tracker/controller/StudentController.java:79 | `Integer.parseInt` of what `%d` prints for an `int` gives the `int` back |
| JavaText.IntTextNumber | src/main/java/com/laplateforme/tracker/model/Student.java:46 | `%d` writes only digits and `-` |
| JavaText.GradeTextNumber | src/main/java/com/laplateforme/tracker/model/Student.java:46 | `%.2f` writes only digits, `-` and `.` |
| JavaText.GradeTextPoint | src/main/java/com/laplateforme/tracker/model/Student.java:46 | `%.2f` (with `.` as separator) always writes a decimal point |
| JavaText.GradeFigures | src/main/java/com/laplateforme/tracker/model/Student.java:46 | the two decimals `%.2f` writes carry the hundredths, so the text reads back as the same number |
| JavaText.ParseGradeText | src/main/java/com/laplateforme/tracker/controller/StudentController.java:204 | `Double.parseDouble` of what `%.2f` prints gives the same number of hundredths back |
| JavaText.ParseGradeBracket | src/main/java/com/laplateforme/tracker/gui/ApiService.java:335 | a text ending in `]` is not a Java `double` |
| JavaText.ParseGradeComma | src/main/java/com/laplateforme/tracker/controller/StudentController.java:248 | a number written with a decimal comma is not a Java `double` |
| ApiServiceModel.DecodedNamesUnquoted | src/main/java/com/laplateforme/tracker/gui/ApiService.java:332-333 | a decoded name holds no `'`: every quote is removed, not only the enclosing ones |
| ApiServiceModel.DecodedNumbersFit | src/main/java/com/laplateforme/tracker/gui/ApiService.java:331-335 | a decoded id and age are Java `int`s |
| ApiServiceModel.ParseStudentsFromResponse | src/main/java/com/laplateforme/tracker/gui/ApiService.java:301-318 | the loop collects, in response order, the decodings of the `Student{`-pieces that hold `id=` and `firstName=` and decode; an absent or empty response gives the empty list |
| ApiServiceModel.DecodeAppend | src/main/java/com/laplateforme/tracker/gui/ApiService.java:309-316 | decoding is piece by piece: the students of two runs of pieces are the students of each, in order |
| ApiServiceModel.DecodedComeFromFragments | src/main/java/com/laplateforme/tracker/gui/ApiService.java:309-316 | every decoded student comes from a selected piece that decodes to it on its own |
| ApiServiceModel.FieldValueOf | src/main/java/com/laplateforme/tracker/gui/ApiService.java:331 | `part.split("=")[1]` of a `key=value` field is the value |
| ApiServiceModel.UnquoteName | src/main/java/com/laplateforme/tracker/gui/ApiService.java:332-333 | removing every `'` from a quoted name without quotes gives the name |
| ApiServiceModel.ParseParts | src/main/java/com/laplateforme/tracker/gui/ApiService.java:327-337 | a text whose `,`-pieces are the five fields of a record decodes to that record, with whatever its grade segment parses to |
| ApiServiceModel.GradeDigitsOf | src/main/java/com/laplateforme/tracker/gui/ApiService.java:335 | removing `}` from a grade segment keeps a following `]`; the corrected decoder removes both |
| ApiServiceModel.RecordSplit | src/main/java/com/laplateforme/tracker/gui/ApiService.java:330 | a record text split on `,` gives its five fields when no name holds a `,` |
| ApiServiceModel.RecordRoundTrip | src/main/java/com/laplateforme/tracker/gui/ApiService.java:320-342 | `parseStudentFromString` (and `parseStudentFromResponse`) of a `Student.toString` text gives back id, names, age and grade when the names hold no `,`, `=` or `'` |
| ApiServiceModel.BodySelected | src/main/java/com/laplateforme/tracker/gui/ApiService.java:310 | every record body contains both `id=` and `firstName=`, so the client tries to decode it |
| ApiServiceModel.FragmentMiddle | src/main/java/com/laplateforme/tracker/gui/ApiService.java:330-337 | a record followed by `, ` in a list decodes to that record |
| ApiServiceModel.FragmentLast | src/main/java/com/laplateforme/tracker/gui/ApiService.java:335 | the last record of a list, followed by `]`, fails to decode as written and decodes once `]` is removed as well |
| ApiServiceModel.ListTextPieces | src/main/java/com/laplateforme/tracker/controller/StudentController.java:73 | a list body is `[` followed by the record bodies, each introduced by `Student{` |
| ApiServiceModel.ListSplit | src/main/java/com/laplateforme/tracker/gui/ApiService.java:308 | splitting a list body on `Student{` gives `[` and one piece per student, in order |
| ApiServiceModel.ListPiecesDecode | src/main/java/com/laplateforme/tracker/gui/ApiService.java:309-316 | the pieces of a list decode to all its students but the last as written, to all of them when `]` is also removed |
| ApiServiceModel.ListDropsLast | src/main/java/com/laplateforme/tracker/gui/ApiService.java:301-318 | as written, the client decodes a `List.toString` body of students to every student but the last |
| ApiServiceModel.ListDecodesAll | src/main/java/com/laplateforme/tracker/gui/ApiService.java:301-318 | with `]` removed from the grade segment too, a list body decodes to exactly the listed students, in order (the empty list included) |
| ApiServiceModel.StatisticsRoundTrip | src/main/java/com/laplateforme/tracker/gui/ApiService.java:344-357 | `parseStatisticsFromResponse` of the server's statistics text gives back its count and average |
| ApiServiceModel.StatisticsPieces | src/main/java/com/laplateforme/tracker/gui/ApiService.java:347-348 | the two splits cut exactly the count text and the average text out of a statistics body |
| ApiServiceModel.StatisticsWithoutTotal | src/main/java/com/laplateforme/tracker/gui/ApiService.java:354-356 | a response without `totalStudents":` gives the fallback `(0, 0.0)` |
| ApiServiceCalls.UpdateBodyWithPoint | src/main/java/com/laplateforme/tracker/gui/ApiService.java:129-133 | under a locale whose decimal separator is `.`, the update body is the add body |
| ApiServiceCalls.FormReadsBack | src/main/java/com/laplateforme/tracker/gui/ApiService.java:93-97 | the server's `parseQuery` reads back from a student form exactly the four fields, names URL-encoded, age as `%d`, grade as given |
| ApiServiceCalls.FormParams | src/main/java/com/laplateforme/tracker/controller/StudentController.java:365-376 | a four-field form body of plain tokens parses to the map of those four fields |
| ApiServiceCalls.AddBodyReachesServer | src/main/java/com/laplateforme/tracker/controller/StudentController.java:188-206 | an add body passes the server's field checks for any non-empty names, and the server builds the student with the names still URL-encoded |
| ApiServiceCalls.FormFields | src/main/java/com/laplateforme/tracker/controller/StudentController.java:191-206 | four present fields whose age and grade parse make the student they spell |
| ApiServiceCalls.UpdateWithCommaRejected | src/main/java/com/laplateforme/tracker/gui/ApiService.java:129-133 | under a locale with a decimal comma, every update body is refused by the server with 400 "Invalid ID, age or grade value" |
| ApiServiceCalls.SpaceStoredAsPlus | src/main/java/com/laplateforme/tracker/controller/StudentController.java:191-206 | a space in a first name reaches the server as `+` and is stored that way, different from the name the client sent |
| ApiServiceCalls.AddBodyRoundTrip | src/main/java/com/laplateforme/tracker/gui/ApiService.java:93-97 | with the names decoded on arrival, the server builds exactly the student the client sent |
| ApiServiceCalls.LoginComparesEncoded | src/main/java/com/laplateforme/tracker/controller/UserController.java:36-42 | the server compares the URL-encoded name and password the client sends with the stored ones |
| ApiServiceCalls.AddVerdict | src/main/java/com/laplateforme/tracker/gui/ApiService.java:103-120 | `addStudent` is true exactly when the server answered 201 |
| ApiServiceCalls.UpdateVerdict | src/main/java/com/laplateforme/tracker/gui/ApiService.java:139-156 | `updateStudent` is true exactly when the server answered 200 |
| ApiServiceCalls.DeleteVerdict | src/main/java/com/laplateforme/tracker/gui/ApiService.java:163-166 | `deleteStudent` is true exactly when the server answered 200 |
| ApiServiceCalls.ExportVerdict | src/main/java/com/laplateforme/tracker/gui/ApiService.java:225-232 | `exportStudents` is true exactly when the server answered 200 |
| ApiServiceCalls.ImportVerdict | src/main/java/com/laplateforme/tracker/gui/ApiService.java:239-246 | `importStudents` is true exactly when the server answered 200 |
| ApiServiceCalls.ImportedAcknowledged | src/main/java/com/laplateforme/tracker/controller/StudentController.java:357-359 | every import report, including one of 0 students, reads as a success to the client |
| ApiServiceCalls.LoginVerdict | src/main/java/com/laplateforme/tracker/gui/ApiService.java:25-32 | `login` is true exactly when the server found matching credentials |
| ApiServiceCalls.RegisterNeverSucceeds | src/main/java/com/laplateforme/tracker/gui/ApiService.java:39-63 | `/register` is served by the root handler, whose welcome text is not "Registration successful", so `register` is always false |
| ApiServiceCalls.HealthVerdict | src/main/java/com/laplateforme/tracker/gui/ApiService.java:254-257 | the health answer reads as running and the root welcome does not |
| ApiServiceCalls.RegisterVerdictWhenMounted | src/main/java/com/laplateforme/tracker/gui/ApiService.java:39-68 | once `/register` is mounted, a POST there reaches `handleRegister`, and `register` is true exactly when the server answered 200 |
| Http.RegisterNotMounted | src/main/java/com/laplateforme/tracker/server/TrackerHttpServer.java:19-22 | a request for `/register` reaches the root handler: no user handler is mounted for it |
| StudentControllerModel.SearchQueryAccepts | src/main/java/com/laplateforme/tracker/controller/StudentController.java:91-121 | a search reaches the DAO exactly when `search` and `value` are present, the criterion is exactly one of `first_name`, `last_name`, `age`, `grade`, and an age or grade value parses |
| StudentControllerModel.SearchQueryTyped | src/main/java/com/laplateforme/tracker/controller/StudentController.java:102-119 | an accepted search splices the very criterion sent into the SQL and binds a value of the column's type (the text itself for names); every refusal is a 400 |
| StudentControllerModel.SortQuerySplices | src/main/java/com/laplateforme/tracker/controller/StudentController.java:123-146 | an accepted sort splices the requested field and `order.toUpperCase()`, which is always exactly `ASC` or `DESC` |
| StudentControllerModel.PageQueryAccepts | src/main/java/com/laplateforme/tracker/controller/StudentController.java:148-172 | a page request reaches the DAO exactly when page and size both parse and are at least 1, with limit `size` and the offset `(page-1)*size` computed in `int` (wrapping), which is the true offset whenever the product fits in an `int`; every refusal is a 400 |
| StudentControllerModel.PageWindow | src/main/java/com/laplateforme/tracker/controller/StudentController.java:167 | page `p` of size `s` holds the rows from `(p-1)*s` up to `p*s`, cut at the end of the table; pages past the end are empty |
| StudentControllerModel.PageOffsetWraps | src/main/java/com/laplateforme/tracker/controller/StudentController.java:167 | the `int` product wraps: page 2^30+1 of size 4 gets offset 0 and returns the first rows of a non-empty table instead of none |
| StudentControllerModel.StudentPathPieces | src/main/java/com/laplateforme/tracker/controller/StudentController.java:77-79 | a path under `/students/` splits on `/` into at least two pieces, so the last-piece lookup never fails |
| StudentControllerModel.PathIdText | src/main/java/com/laplateforme/tracker/controller/StudentController.java:77-79 | the path `/students/<id>` leads back to that id |
| StudentControllerModel.StudentController.constructor | src/main/java/com/laplateforme/tracker/controller/StudentController.java:18-21 | the controller works on the given table and file store |
| StudentControllerModel.StudentController.Handle | src/main/java/com/laplateforme/tracker/controller/StudentController.java:23-69 | exactly the request's route runs: for every one of the twelve routes the answer, the new table and the new files are those of its handler; another method gets 405, a known method on an unknown path gets no response, only add, update, delete and import change the table and only export changes the files |
| StudentControllerModel.StudentController.HandleGetAll | src/main/java/com/laplateforme/tracker/controller/StudentController.java:71-74 | 200 with every row in id order, as `List.toString` prints them |
| StudentControllerModel.StudentController.HandleGetById | src/main/java/com/laplateforme/tracker/controller/StudentController.java:76-89 | a non-integer id is a 400, a missing row a 404, otherwise 200 with the record text |
| StudentControllerModel.StudentController.HandleSearch | src/main/java/com/laplateforme/tracker/controller/StudentController.java:91-121 | the checks of the search in order, then 200 with the matching rows |
| StudentControllerModel.StudentController.HandleSort | src/main/java/com/laplateforme/tracker/controller/StudentController.java:123-146 | the checks of the sort in order, then 200 with every row once, ordered by the column and direction |
| StudentControllerModel.StudentController.HandlePaginated | src/main/java/com/laplateforme/tracker/controller/StudentController.java:148-172 | the checks of the page request in order, then 200 with the page of the table at the `int`-wrapped offset |
| StudentControllerModel.StudentController.HandleStatistics | src/main/java/com/laplateforme/tracker/controller/StudentController.java:174-181 | 200 with the row count and the average grade in the JSON-like format |
| StudentControllerModel.StudentController.HandleAdd | src/main/java/com/laplateforme/tracker/controller/StudentController.java:183-221 | a missing field or bad number is a 400 and changes nothing; otherwise the DAO insert decides between 201 and 500, storing the row as PostgreSQL's `VARCHAR(50)` columns take it |
| StudentControllerModel.StudentController.HandleUpdate | src/main/java/com/laplateforme/tracker/controller/StudentController.java:223-265 | a bad id, a missing field or a bad number is a 400; otherwise the row with that id is replaced by the row the table stores (200) or, when absent or refused by the table, nothing changes (404) |
| StudentControllerModel.StudentController.HandleDelete | src/main/java/com/laplateforme/tracker/controller/StudentController.java:267-280 | a bad id is a 400; otherwise the row goes and the answer is 200, or 404 when there was no such row |
| StudentControllerModel.StudentController.HandleExport | src/main/java/com/laplateforme/tracker/controller/StudentController.java:282-312 | a missing parameter or unknown format is a 400; otherwise the whole table is written to the file in the format (200) or the write fails (500) |
| StudentControllerModel.StudentController.HandleImport | src/main/java/com/laplateforme/tracker/controller/StudentController.java:314-363 | a missing parameter or unknown format is a 400, an unreadable or malformed file a 500; otherwise every record read is offered to `addStudent` and the count reported is how many were added |
| StudentControllerModel.StudentController.AddAll | src/main/java/com/laplateforme/tracker/controller/StudentController.java:333-337 | one `addStudent` per record in order, counting those that returned true |
| StudentControllerModel.ImportOfExport | src/main/java/com/laplateforme/tracker/controller/StudentController.java:292-337 | importing the CSV export of students that meet the table's constraints into an empty table adds all of them and reports that many |
| StudentControllerModel.AllAdmissibleCount | src/main/java/com/laplateforme/tracker/controller/StudentController.java:333-337 | when every record passes the table's checks, every add succeeds |
| Http.RegisterMounted | src/main/java/com/laplateforme/tracker/server/TrackerHttpServer.java:19-22 | with the user handler also mounted at `/register`, that path reaches the user handler and every other route is unchanged |
| StudentControllerModel.PageOffsetAgrees | src/main/java/com/laplateforme/tracker/controller/StudentController.java:167 | for positive page and size whose product fits in an `int`, the wrapped offset is the true, non-negative offset |
| QueryString.ParseQuery | src/main/java/com/laplateforme/tracker/controller/StudentController.java:365-376 | the loop builds the same map as taking the `&`-pieces left to right and putting each exactly-two-part `key=value` pair; an absent query gives the empty map |
| QueryString.PutPairsKeys | src/main/java/com/laplateforme/tracker/controller/StudentController.java:368-372 | a key is present exactly when some piece splits on `=` into that key and one value |
| QueryString.PutPairsLast | src/main/java/com/laplateforme/tracker/controller/StudentController.java:371 | a repeated key keeps the value of its last piece |
| QueryString.PairTexts | src/main/java/com/laplateforme/tracker/gui/ApiService.java:93-97 | one `key=value` text per entry, in order |
| QueryString.PairTextSplits | src/main/java/com/laplateforme/tracker/controller/StudentController.java:369-371 | a `key=value` text of plain tokens splits back into that key and value |
| QueryString.PutPairTexts | src/main/java/com/laplateforme/tracker/controller/StudentController.java:368-372 | the pieces of a form body of plain tokens put the entries into the map in order |
| QueryString.ParseFormBody | src/main/java/com/laplateforme/tracker/controller/StudentController.java:365-376 | a body of plain keys and values reads back as the map of its entries: values arrive exactly as written, never URL-decoded, and the last duplicate wins |
| UserControllerModel.LoginAnswerCredentials | src/main/java/com/laplateforme/tracker/controller/UserController.java:33-47 | a login is a 200 exactly when the stored password of the given name equals the given one; anything else is a 401 "Invalid credentials" |
| UserControllerModel.RegisterDecisionAccepts | src/main/java/com/laplateforme/tracker/controller/UserController.java:49-79 | a registration inserts exactly when both fields are present and not blank, the name as sent is new and both pass their `VARCHAR` columns, the stored name being new as well; it stores them as sent when they fit, and an existing name is always refused |
| UserControllerModel.UserController.constructor | src/main/java/com/laplateforme/tracker/controller/UserController.java:15-17 | the controller starts over the given user table |
| UserControllerModel.UserController.Handle | src/main/java/com/laplateforme/tracker/controller/UserController.java:20-31 | only POST `/login` and POST `/register` are handled, everything else is a 404; a login answers as `handleLogin` does, a registration answers and changes the users as `handleRegister` does, and nothing else changes the users |
| UserControllerModel.UserController.HandleLogin | src/main/java/com/laplateforme/tracker/controller/UserController.java:33-47 | the login answer for the body, with the users unchanged |
| UserControllerModel.UserController.HandleRegister | src/main/java/com/laplateforme/tracker/controller/UserController.java:49-79 | a refusal (400 blank, 409 duplicate, 500 failed insert) leaves the users unchanged; success adds exactly the stored name with its stored password |
| UserControllerModel.UserController.AddUser | src/main/java/com/laplateforme/tracker/controller/UserController.java:71-72 | the insert succeeds exactly when both values pass their `VARCHAR` columns (longer values only when all they lose are spaces) and the stored name is new, and then adds exactly the stored pair |
| UserControllerModel.StoredUser | src/main/java/com/laplateforme/tracker/dao/UserDAO.java:17-26 | the `INSERT INTO users` goes through exactly when the name passes `VARCHAR(50)`, the password `VARCHAR(100)` and the stored name is not taken; the pair stored is the values as `VARCHAR` keeps them, as sent when they fit |
| UserControllerModel.RegisteredCanLogIn | src/main/java/com/laplateforme/tracker/controller/UserController.java:33-75 | a user who registered can log in with the name and password stored, which are the ones sent when they fit their columns |
| UserControllerModel.PaddedPasswordRefused | src/main/java/com/laplateforme/tracker/controller/UserController.java:33-75 | a password padded with spaces past 100 characters is registered cut to 100, and logging in with the password as sent then fails |
| UrlEncoding.Utf8 | src/main/java/com/laplateforme/tracker/gui/ApiService.java:94-95 | each character is encoded as one to four bytes |
| UrlEncoding.EncodedPlain | src/main/java/com/laplateforme/tracker/gui/ApiService.java:94-95 | `URLEncoder.encode` never writes `&`, `=` or a space, and gives the empty text only for the empty text, so an encoded name is always one plain form field |
| UrlEncoding.UnreservedUnchanged | src/main/java/com/laplateforme/tracker/gui/ApiService.java:94-95 | text made only of letters, digits and `.-*_` is sent unchanged |
| UrlEncoding.EncodeConcat | src/main/java/com/laplateforme/tracker/gui/ApiService.java:94-95 | encoding works character by character |
| UrlEncoding.SpaceAsPlus | src/main/java/com/laplateforme/tracker/gui/ApiService.java:94-95 | a space is sent as `+` |
| UrlEncoding.HexRoundTrip | src/main/java/com/laplateforme/tracker/gui/ApiService.java:94-95 | each hexadecimal digit of an escape reads back as its value |
| UrlEncoding.EncodedTokens | src/main/java/com/laplateforme/tracker/gui/ApiService.java:94-95 | the encoded text reads back as the tokens of its characters: plain characters and escaped UTF-8 bytes |
| UrlEncoding.Utf8Decodes | src/main/java/com/laplateforme/tracker/gui/ApiService.java:94-95 | the bytes of a character form one well-formed UTF-8 sequence that spells it |
| UrlEncoding.DecodeTokensOf | src/main/java/com/laplateforme/tracker/gui/ApiService.java:94-95 | decoding the tokens of a text gives the text |
| UrlEncoding.UrlRoundTrip | src/main/java/com/laplateforme/tracker/gui/ApiService.java:94-95 | `URLDecoder.decode` of `URLEncoder.encode(s)` is `s`: the decoding the server would need |
| AuthenticationModel.AuthenticationService.constructor | src/main/java/com/laplateforme/tracker/service/AuthenticationService.java:10-15 | exactly `admin` with `admin123` and `user` with `user123`, and nobody logged in |
| AuthenticationModel.AuthenticationService.Login | src/main/java/com/laplateforme/tracker/service/AuthenticationService.java:17-23 | succeeds exactly when the name is known and its password equals the given one; success logs that user in, failure leaves the previous session as it was; the users never change |
| AuthenticationModel.AuthenticationService.Logout | src/main/java/com/laplateforme/tracker/service/AuthenticationService.java:25-31 | nobody is logged in afterwards and the users are unchanged |
| AuthenticationModel.AuthenticationService.AddUser | src/main/java/com/laplateforme/tracker/service/AuthenticationService.java:37-43 | succeeds exactly when both values are present and the name is new; then adds exactly that user; never replaces a password and leaves the session alone |
| AuthenticationModel.AddKeepsAccepted | src/main/java/com/laplateforme/tracker/service/AuthenticationService.java:37-43 | adding a user never changes whether the credentials of an existing user are accepted |
| AuthenticationModel.BuiltInAccounts | src/main/java/com/laplateforme/tracker/service/AuthenticationService.java:13-14 | each built-in account logs in with its own password and no other |
| Sql.ColumnNamed | src/main/java/com/laplateforme/tracker/database/DatabaseConnection.java:93-98 | a name denotes a column only if it is exactly that column's name |
| Sql.ColumnNamedName | src/main/java/com/laplateforme/tracker/database/DatabaseConnection.java:93-98 | every column of the `student` table is found again by its own name |
| Sql.DataOnlyBound | src/main/java/com/laplateforme/tracker/dao/StudentDAO.java:19-85 | insert, update, delete, select-by-id and page statements have the same SQL text whatever the student, id, offset or limit, and one `?` per bound value, so data never enters the SQL text |
| Sql.SpliceVerbatim | src/main/java/com/laplateforme/tracker/dao/StudentDAO.java:72-80 | search and sort splice their column, field and order arguments into the SQL text as given; only the search value is bound |
| Sql.Varchar | src/main/java/com/laplateforme/tracker/database/DatabaseConnection.java:95-96 | PostgreSQL's `VARCHAR(n)`: a value is refused exactly when a character past the `n`th is not a space; otherwise what is stored is a prefix of at most `n` characters, the value itself when it fits, and only spaces are cut off |
| Sql.StoredRow | src/main/java/com/laplateforme/tracker/database/DatabaseConnection.java:93-99 | the table lets a row through exactly when both names pass `VARCHAR(50)`, the age is positive and the grade within 0..20; the stored row meets every constraint, keeps id, age and grade, and is the row itself when it already meets them |
| Sql.StoredRowTrims | src/main/java/com/laplateforme/tracker/database/DatabaseConnection.java:95 | a first name of 50 characters and two spaces is stored without the spaces, and with a letter in the last place it is refused |
| Sql.FindById | src/main/java/com/laplateforme/tracker/dao/StudentDAO.java:55-65 | a row with the id when there is one, none exactly when no row has the id |
| Sql.Replace | src/main/java/com/laplateforme/tracker/dao/StudentDAO.java:31-42 | the update keeps the row count; each row with the id takes the new fields and every other row is unchanged |
| Sql.Remove | src/main/java/com/laplateforme/tracker/dao/StudentDAO.java:44-53 | the rows left are exactly the old rows with another id |
| Sql.Search | src/main/java/com/laplateforme/tracker/dao/StudentDAO.java:72-75 | exactly the rows whose column equals the value, with numbers compared by value; a value of the wrong type yields no rows |
| Sql.Page | src/main/java/com/laplateforme/tracker/dao/StudentDAO.java:82-85 | a negative limit or offset yields no rows; otherwise the rows from row `offset` on, `limit` of them or as many as remain |
| Sql.PagesCover | src/main/java/com/laplateforme/tracker/dao/StudentDAO.java:82-85 | the pages of one size, taken one after another, give every row exactly once and in order |
| Sql.AverageGrade | src/main/java/com/laplateforme/tracker/dao/StudentDAO.java:99-109 | the mean grade rounded half up to hundredths, and 0 when there are no rows |
| Sql.AverageWithinScale | src/main/java/com/laplateforme/tracker/dao/StudentDAO.java:99-109 | the average of grades in 0..20 is itself in 0..20 |
| Sql.SumBounds | src/main/java/com/laplateforme/tracker/database/DatabaseConnection.java:98 | the grades of admissible rows sum to between 0 and 20 per row |
| Sql.TextLeqTotal | src/main/java/com/laplateforme/tracker/dao/StudentDAO.java:77-80 | any two texts are ordered one way or the other |
| Sql.TextLeqTrans | src/main/java/com/laplateforme/tracker/dao/StudentDAO.java:77-80 | the text order is transitive |
| Sql.InOrderTotal | src/main/java/com/laplateforme/tracker/dao/StudentDAO.java:77-80 | `ORDER BY` on any column and direction compares any two rows |
| Sql.InOrderTrans | src/main/java/com/laplateforme/tracker/dao/StudentDAO.java:77-80 | `ORDER BY` on any column and direction is transitive |
| Sql.InsertInOrderPermutes | src/main/java/com/laplateforme/tracker/dao/StudentDAO.java:77-80 | inserting a row into an ordered list adds exactly that row |
| Sql.InsertInOrderSorted | src/main/java/com/laplateforme/tracker/dao/StudentDAO.java:77-80 | inserting a row keeps the list in the requested order |
| StudentDaoModel.StudentDao.constructor | src/main/java/com/laplateforme/tracker/database/DatabaseConnection.java:93-98 | an empty table whose id sequence starts at 1 |
| StudentDaoModel.StudentDao.AddStudent | src/main/java/com/laplateforme/tracker/dao/StudentDAO.java:19-29 | true exactly when the table's constraints let the row through and the id sequence is not exhausted; the stored row is appended with the next id, which is spent even when the insert is refused |
| StudentDaoModel.StudentDao.UpdateStudent | src/main/java/com/laplateforme/tracker/dao/StudentDAO.java:31-42 | true exactly when a row has the id and the constraints let the new fields through; then that row takes the fields as stored, otherwise nothing changes |
| StudentDaoModel.StudentDao.DeleteStudent | src/main/java/com/laplateforme/tracker/dao/StudentDAO.java:44-53 | true exactly when a row had the id; afterwards no row has it |
| StudentDaoModel.StudentDao.GetStudentById | src/main/java/com/laplateforme/tracker/dao/StudentDAO.java:55-65 | the row with the id, or none when there is no such row |
| StudentDaoModel.StudentDao.GetAllStudents | src/main/java/com/laplateforme/tracker/dao/StudentDAO.java:67-70 | every row, in id order |
| StudentDaoModel.StudentDao.SearchStudents | src/main/java/com/laplateforme/tracker/dao/StudentDAO.java:72-75 | exactly the rows whose column equals the value (a value of the wrong type matches nothing), listed in table order |
| StudentDaoModel.StudentDao.SortStudents | src/main/java/com/laplateforme/tracker/dao/StudentDAO.java:77-80 | every row exactly once, ordered by the column and direction |
| StudentDaoModel.StudentDao.GetStudentsPaginated | src/main/java/com/laplateforme/tracker/dao/StudentDAO.java:82-85 | the page of at most `limit` rows after the first `offset` |
| StudentDaoModel.StudentDao.GetStudentCount | src/main/java/com/laplateforme/tracker/dao/StudentDAO.java:87-97 | the number of rows |
| StudentDaoModel.StudentDao.GetAverageGrade | src/main/java/com/laplateforme/tracker/dao/StudentDAO.java:99-109 | the rounded mean grade, which is a grade in 0..20 |
| StudentDaoModel.ReplaceKeepsTable | src/main/java/com/laplateforme/tracker/dao/StudentDAO.java:31-42 | an admissible update keeps ids ordered, below the sequence and every row admissible |
| StudentDaoModel.RemoveKeepsTable | src/main/java/com/laplateforme/tracker/dao/StudentDAO.java:44-53 | a delete keeps ids ordered, below the sequence and every row admissible |
| StudentDaoModel.RemoveOrdered | src/main/java/com/laplateforme/tracker/dao/StudentDAO.java:44-53 | a delete keeps the rows in id order |
| StudentDaoModel.AddEachCount | src/main/java/com/laplateforme/tracker/dao/StudentDAO.java:19-29 | after a series of inserts the old rows stay in front, the count of successful inserts is the number of rows added, and each new row has a fresh id from the sequence |
| StudentDaoModel.AddEachNext | src/main/java/com/laplateforme/tracker/dao/StudentDAO.java:19-29 | every insert call spends one id of the sequence until it is exhausted |
| StudentDaoModel.AddEachAdmissible | src/main/java/com/laplateforme/tracker/dao/StudentDAO.java:19-29 | while the sequence lasts, exactly the students the constraints let through are inserted |
| FileManagerModel.CsvBody | src/main/java/com/laplateforme/tracker/utils/FileManager.java:16-20 | one line per student |
| FileManagerModel.ExportToCsv | src/main/java/com/laplateforme/tracker/utils/FileManager.java:13-26 | true exactly when the file can be written; the file then holds the header and one line per student, and no other file changes; on failure nothing changes |
| FileManagerModel.ImportFromCsv | src/main/java/com/laplateforme/tracker/utils/FileManager.java:28-49 | a missing file gives `null`; otherwise the result of reading its lines after the header |
| FileManagerModel.ReadCsvLine | src/main/java/com/laplateforme/tracker/utils/FileManager.java:33-42 | one line: fewer than five fields are skipped, a number that does not parse aborts, otherwise the student it spells |
| FileManagerModel.CsvRecordsAbort | src/main/java/com/laplateforme/tracker/utils/FileManager.java:32-46 | once one line has failed to parse, the whole import returns `null` whatever follows |
| FileManagerModel.CsvRecordsSnoc | src/main/java/com/laplateforme/tracker/utils/FileManager.java:32-43 | each further line appends its student, is skipped, or aborts the import |
| FileManagerModel.CsvRecordFailures | src/main/java/com/laplateforme/tracker/utils/FileManager.java:33-39 | a short line is skipped, and a line whose id is not a number aborts |
| FileManagerModel.CsvLineRoundTrip | src/main/java/com/laplateforme/tracker/utils/FileManager.java:17-19 | reading a written line gives back the student, when names hold no comma or line break and the grade has at most two decimals |
| FileManagerModel.CsvRecordsRoundTrip | src/main/java/com/laplateforme/tracker/utils/FileManager.java:16-43 | reading the written lines gives back the students in order |
| FileManagerModel.CsvRoundTrip | src/main/java/com/laplateforme/tracker/utils/FileManager.java:13-49 | importing an exported CSV file gives back the list that was exported |
| FileManagerModel.JsonObjects | src/main/java/com/laplateforme/tracker/utils/FileManager.java:54-58 | one object per student |
| FileManagerModel.JsonObjectsAt | src/main/java/com/laplateforme/tracker/utils/FileManager.java:54-58 | object k is the object of student k |
| FileManagerModel.CommaLines | src/main/java/com/laplateforme/tracker/utils/FileManager.java:54-61 | one line per object |
| FileManagerModel.CommaLinesShape | src/main/java/com/laplateforme/tracker/utils/FileManager.java:59-60 | each object is followed by a comma, except the last |
| FileManagerModel.BracketedShape | src/main/java/com/laplateforme/tracker/utils/FileManager.java:53-62 | the objects, comma-separated, between a `[` line and a `]` line |
| FileManagerModel.JsonShape | src/main/java/com/laplateforme/tracker/utils/FileManager.java:51-68 | the JSON file is `[`, one object per student in order with a comma after all but the last, then `]` |
| FileManagerModel.JsonShowsNames | src/main/java/com/laplateforme/tracker/utils/FileManager.java:56-58 | both names appear verbatim and unescaped between quotes |
| FileManagerModel.ExportToJson | src/main/java/com/laplateforme/tracker/utils/FileManager.java:51-68 | true exactly when the file can be written; the file then holds the JSON lines and no other file changes; on failure nothing changes |
| FileManagerModel.JsonText | src/main/java/com/laplateforme/tracker/utils/FileManager.java:53-62 | the loop writes exactly the bracketed, comma-separated objects |
| FileManagerModel.BracketLines | src/main/java/com/laplateforme/tracker/utils/FileManager.java:53-62 | the lines written around the objects are the bracketed list |
| FileManagerModel.ImportFromJson | src/main/java/com/laplateforme/tracker/utils/FileManager.java:70-82 | a missing file gives `null`; any existing file gives the empty list, whatever it holds |
| StudentServiceModel.ValidFitsTable | src/main/java/com/laplateforme/tracker/service/StudentService.java:106-112 | a student the service accepts, with names of at most 50 characters, meets every constraint of the table |
| StudentServiceModel.ServiceStricterThanTable | src/main/java/com/laplateforme/tracker/service/StudentService.java:106-112 | the table admits age 150 and a blank name, which the service refuses |
| StudentServiceModel.InvalidNotAdded | src/main/java/com/laplateforme/tracker/service/StudentService.java:19-24 | an invalid or missing student is refused and the table and its id sequence are untouched |
| StudentServiceModel.ValidAdded | src/main/java/com/laplateforme/tracker/service/StudentService.java:19-24 | a valid student whose names fit is appended under the next id |
| StudentServiceModel.InvalidFileAddsNothing | src/main/java/com/laplateforme/tracker/service/StudentService.java:79-88 | importing a file of invalid students leaves the table as it was |
| StudentServiceModel.AddEachKeepsRows | src/main/java/com/laplateforme/tracker/service/StudentService.java:79-88 | an import only appends, at most one row per student read |
| StudentServiceModel.AgeRangeBuckets | src/main/java/com/laplateforme/tracker/service/StudentService.java:114-119 | each label is given exactly to its range of ages: under 18, 18 to 24, 25 to 34, 35 and over |
| StudentServiceModel.LabelsDistinct | src/main/java/com/laplateforme/tracker/service/StudentService.java:114-119 | the four labels are different |
| StudentServiceModel.AgeCountsCount | src/main/java/com/laplateforme/tracker/service/StudentService.java:62-72 | the count under a label is the number of students in that range, and a label is present exactly when that number is positive |
| StudentServiceModel.AgeCountsKeys | src/main/java/com/laplateforme/tracker/service/StudentService.java:62-72 | the statistics hold only the four labels |
| StudentServiceModel.InRangeTotal | src/main/java/com/laplateforme/tracker/service/StudentService.java:114-119 | every student is in exactly one range |
| StudentServiceModel.AgeStatisticsTotal | src/main/java/com/laplateforme/tracker/service/StudentService.java:62-72 | the counts of the statistics sum to the number of students |
| StudentServiceModel.StudentService.constructor | src/main/java/com/laplateforme/tracker/service/StudentService.java:14-17 | the service over a table and a file system |
| StudentServiceModel.StudentService.AddStudent | src/main/java/com/laplateforme/tracker/service/StudentService.java:19-24 | the table is asked only for a valid student, and the outcome is that of the table |
| StudentServiceModel.StudentService.UpdateStudent | src/main/java/com/laplateforme/tracker/service/StudentService.java:26-31 | true exactly when the student is valid, its id positive, a row has that id and the constraints let the fields through; then that row takes the fields as stored, otherwise nothing changes |
| StudentServiceModel.StudentService.DeleteStudent | src/main/java/com/laplateforme/tracker/service/StudentService.java:33-35 | true exactly when the id is positive and a row had it; a non-positive id never reaches the table |
| StudentServiceModel.StudentService.GetStudentById | src/main/java/com/laplateforme/tracker/service/StudentService.java:37-39 | the row with a positive id, `null` for a non-positive one |
| StudentServiceModel.StudentService.GetStudentsPaginated | src/main/java/com/laplateforme/tracker/service/StudentService.java:53-56 | the rows from `(page - 1) * pageSize` on, at most `pageSize` of them, with the offset computed in `int` (wrapping); the true page whenever the product fits in an `int` |
| StudentServiceModel.StudentService.CalculateClassAverage | src/main/java/com/laplateforme/tracker/service/StudentService.java:58-60 | the table's rounded mean grade |
| StudentServiceModel.StudentService.GetAgeStatistics | src/main/java/com/laplateforme/tracker/service/StudentService.java:62-72 | for each range that holds a student, how many students it holds |
| StudentServiceModel.StudentService.ExportToCsv | src/main/java/com/laplateforme/tracker/service/StudentService.java:74-77 | the whole table written as CSV, true exactly when the file can be written |
| StudentServiceModel.StudentService.ExportToJson | src/main/java/com/laplateforme/tracker/service/StudentService.java:90-93 | the whole table written as JSON, true exactly when the file can be written |
| StudentServiceModel.StudentService.ImportFromCsv | src/main/java/com/laplateforme/tracker/service/StudentService.java:79-88 | true exactly when the file reads; then each student read is added in turn as `addStudent` would, and otherwise nothing changes |
| StudentServiceModel.StudentService.ImportFromJson | src/main/java/com/laplateforme/tracker/service/StudentService.java:95-104 | true exactly when the file exists; the table never changes |
| StudentServiceModel.StudentService.AddAll | src/main/java/com/laplateforme/tracker/service/StudentService.java:82-84 | the students are added one after another as `addStudent` would |
| StudentServiceModel.StudentService.GetAllStudents | src/main/java/com/laplateforme/tracker/service/StudentService.java:41-43 | every row of the table, in id order |
| StudentServiceModel.StudentService.SearchStudents | src/main/java/com/laplateforme/tracker/service/StudentService.java:45-47 | exactly the rows whose column equals the value, as the table finds them, with no check of its own |
| StudentServiceModel.StudentService.SortStudents | src/main/java/com/laplateforme/tracker/service/StudentService.java:49-51 | every row once, in the order asked for, as the table sorts them |
| StudentDialogModel.CreateStudent | src/main/java/com/laplateforme/tracker/gui/StudentDialog.java:186-198 | the only failure is the "Invalid number format" message |
| StudentDialogModel.DialogResult | src/main/java/com/laplateforme/tracker/gui/StudentDialog.java:100-107 | a student only when Save was pressed |
| StudentDialogModel.LadderOrder | src/main/java/com/laplateforme/tracker/gui/StudentDialog.java:131-184 | each error is shown exactly when every earlier check passed and its own failed: empty first name, last name, age, grade; then an age that is not an `int` or not in 1..150; then a grade that is not a number or not in 0..20; the form passes exactly when none applies |
| StudentDialogModel.ValidateFormOrder | src/main/java/com/laplateforme/tracker/gui/StudentDialog.java:131-184 | the same order over the trimmed fields of a form and the parsed age and grade |
| StudentDialogModel.DialogStudent | src/main/java/com/laplateforme/tracker/gui/StudentDialog.java:100-107 | a student comes out exactly when Save was pressed and the form passed; it is then built without a number error, with id 0, the trimmed non-blank names, an age in 1..150 and a grade in 0..20 |
| StudentDialogModel.DialogAgainstService | src/main/java/com/laplateforme/tracker/gui/StudentDialog.java:159-168 | a student from the dialog is valid for the service exactly when its age is not 150 |
| AnalyticsViewModel.LabelsDistinct | src/main/java/com/laplateforme/tracker/gui/AnalyticsView.java:159-163 | the four band keys are different |
| AnalyticsViewModel.Unbanded | src/main/java/com/laplateforme/tracker/gui/AnalyticsView.java:165-176 | a grade is counted in no band exactly when it is below 0, above 20, or in a gap between bands |
| AnalyticsViewModel.CountIn | src/main/java/com/laplateforme/tracker/gui/AnalyticsView.java:165-176 | no band counts more students than there are |
| AnalyticsViewModel.Tally | src/main/java/com/laplateforme/tracker/gui/AnalyticsView.java:159-163 | the distribution always has exactly the four bands as keys |
| AnalyticsViewModel.TallySnoc | src/main/java/com/laplateforme/tracker/gui/AnalyticsView.java:165-176 | one more student raises its own band's count by one and no other |
| AnalyticsViewModel.TallyTotal | src/main/java/com/laplateforme/tracker/gui/AnalyticsView.java:158-179 | the counts plus the students in no band make up all students |
| AnalyticsViewModel.CalculateGradeDistribution | src/main/java/com/laplateforme/tracker/gui/AnalyticsView.java:158-179 | each band maps to the number of students whose grade it holds |
| DashboardViewModel.SearchField | src/main/java/com/laplateforme/tracker/gui/DashboardView.java:295-308 | always a column the server searches on |
| DashboardViewModel.EveryColumnOffered | src/main/java/com/laplateforme/tracker/gui/DashboardView.java:111-112 | every column the server searches on can be picked from the criteria box, and "All" searches first names |
| DashboardViewModel.PageCount | src/main/java/com/laplateforme/tracker/gui/DashboardView.java:315-318 | at least one page |
| DashboardViewModel.PageCountFits | src/main/java/com/laplateforme/tracker/gui/DashboardView.java:315-318 | the least number of 10-row pages that hold the rows, and at least one |
| DashboardViewModel.StatusShort | src/main/java/com/laplateforme/tracker/gui/DashboardView.java:320-329 | the status line takes its short form exactly when nothing is filtered out |
| DashboardViewModel.Dashboard.constructor | src/main/java/com/laplateforme/tracker/gui/DashboardView.java:44-45 | no students, one page, status "Ready" |
| DashboardViewModel.Dashboard.ApplyFilters | src/main/java/com/laplateforme/tracker/gui/DashboardView.java:310-313 | the table shows the full list again; nothing else changes |
| DashboardViewModel.Dashboard.UpdatePagination | src/main/java/com/laplateforme/tracker/gui/DashboardView.java:315-318 | the page count follows the filtered list |
| DashboardViewModel.Dashboard.UpdateStatus | src/main/java/com/laplateforme/tracker/gui/DashboardView.java:320-329 | the status compares the filtered count with the full count |
| DashboardViewModel.Dashboard.DataLoaded | src/main/java/com/laplateforme/tracker/gui/DashboardView.java:246-253 | the loaded list is shown unfiltered, with its page count and the status "Showing N students" |
| DashboardViewModel.Dashboard.PerformSearch | src/main/java/com/laplateforme/tracker/gui/DashboardView.java:263-293 | a blank term shows the full list and sends nothing; any other term shows "Searching..." and sends the trimmed term for the column the criteria selects |
| DashboardViewModel.Dashboard.SearchCompleted | src/main/java/com/laplateforme/tracker/gui/DashboardView.java:263-293 | the results are shown with their page count and "Search completed. Found N students." |
| DashboardViewModel.Dashboard.Clear | src/main/java/com/laplateforme/tracker/gui/DashboardView.java:126-132 | the full list is shown again with its page count and short status |
| AnalyticsViewModel.TallyStep | src/main/java/com/laplateforme/tracker/gui/AnalyticsView.java:166-175 | one pass of the loop, raising the count of the student's band if it has one, keeps the tally of the students seen so far |
| ResponseLength.BytesCoverUnits | src/main/java/com/laplateforme/tracker/controller/StudentController.java:381-383 | a text never has fewer UTF-8 bytes than UTF-16 units, and has as many exactly when every character is ASCII |
| ResponseLength.SentAsWritten | src/main/java/com/laplateforme/tracker/controller/StudentController.java:378-384 | with `length()` announced and `getBytes()` written, an answer reaches the client exactly when its text is ASCII (the same code is at UserController.java:92-97) |
| ResponseLength.AccentedRecordLost | src/main/java/com/laplateforme/tracker/controller/StudentController.java:71-88 | the record of a student whose first name has a non-ASCII character, such as "Émile", never reaches the client |
| ResponseLength.SentByByteCount | src/main/java/com/laplateforme/tracker/controller/StudentController.java:381 | with the byte count announced instead, every answer reaches the client, and its UTF-8 reading gives back the text sent |
| ResponseLength.ReadBytes | src/main/java/com/laplateforme/tracker/gui/ApiService.java:286-297 | reading the UTF-8 bytes of a text gives the text back |
| ResponseLength.EncodedAscii | src/main/java/com/laplateforme/tracker/gui/ApiService.java:272-279 | a URL-encoded text is ASCII, so the client's own `Content-Length` of `postData.length()` is its byte count |

## Left out

- Network and I/O.
  - `ApiService.makeRequest` is not modelled: a request body goes in and a response text comes back as plain values.
  - The exchange behind `sendResponse` is not modelled. A handler's answer is a `Response(status, text)` value, and the rest of the model takes it to reach the client intact. `ResponseLength` models only the length header against the bytes written, a mismatch listed under "## Findings". It assumes UTF-8 is the default charset on both sides.
  - Reading request bodies is not modelled: the body is a string field of the request.
  - Percent-decoding of the URI is not modelled: the query of a GET request is a string field holding the text `URI.getQuery()` returns, already decoded, so a `%26` or `%3D` sent by a client arrives as `&` or `=` and `parseQuery` splits there, while `+` stays `+`. POST bodies are raw text and are not decoded; the client-side lemmas in `ApiServiceCalls` are about those bodies.
  - Real files are not modelled: a disk is a map from file name to lines, and a set of names that cannot be written.
  - `TrackerHttpServer.main` and its startup are not part of this model. Only its handler table (`Http.ContextOf`) is.
- Threads and widgets. `new Thread` and `Platform.runLater` in `DashboardView`, `AnalyticsView` and `StudentDialog` are left out, and so is every label, button and chart call.
  - A dashboard search hands back its request, and its answer arrives through `Dashboard.SearchCompleted`.
  - The "Loading data...", "Search failed" and error statuses are not modelled.
  - Reloading when the pager's page index changes is not modelled.
- `DatabaseConnection` is not part of this model: the JDBC singleton, driver loading and the `CREATE` statements. Its `CHECK` and `VARCHAR` constraints appear as `Sql.Admissible` (what a stored row satisfies) and as what PostgreSQL does on a write, `Sql.Varchar`, `Sql.StoredRow` and `UserControllerModel.StoredUser`. Lengths are counted in characters, as PostgreSQL counts them.
- `UserDAO` is a map from user name to password inside `UserControllerModel.UserController`.
- `ConsoleUI`, `LoginView`, `RegisterView` and `StudentTrackerApp` are not part of this model. They are menus and forms around the operations modelled here.
- `HttpServerTest` and `test_add_student` need a live server and are not modelled. The health test expects the body `OK`, but the health handler answers "Server is running" (`ApiServiceCalls.HealthVerdict` uses that text).
- Logging is left out everywhere.
- Locale.
  - `String.format` without a locale (`Student.toString`, the statistics text, the CSV export) is modelled with `.` as the decimal separator.
  - Only `updateStudent`'s body takes the separator as a parameter, because there the difference is a finding.
- JavaText.ParseGrade: `Double.parseDouble` is modelled on decimal texts with at most two significant decimals. Further decimals must be zeros; other texts read as not a number. Exponents, `NaN`, `Infinity` and hexadecimal forms are left out, because grades are kept exactly in hundredths. So for a grade such as `15.555` or `1e1` the model's add answers 400 where the source stores the value rounded to `DECIMAL(4,2)` and answers 201, and the model's search answers 400 where the source answers 200 with the matches.
- JavaText.ParseInt: accepts an optional sign and ASCII digits only. `Integer.parseInt` reads digits through `Character.digit`, so it also accepts other Unicode decimal digits ("٤٢" is 42). On such a text, which can reach the server through the decoded query or a CSV field, the model answers 400 or aborts the import where the source goes on.
- JavaText.ToLowerAscii: lowers ASCII letters only. Java's `toLowerCase` also maps the Kelvin sign to `k` and `İ` to `i` plus a combining dot. That is exact for the only use, the comparison with `csv` and `json`, but not `toLowerCase` in general.
- Ids, ages and counts are unbounded integers. The `int` range is stated with `JavaText.IsInt32` where a value comes from `Integer.parseInt` or the id sequence. The one place where `int` wrap-around changes an answer, the page offset `(page - 1) * size` of the pagination handler and of the service, is computed with `JavaText.Wrap32` (`StudentControllerModel.PageOffset32`), as the source computes it.
- Sql.AverageGrade: `AVG(grade)` is a `double` in Java. The model keeps it as the two-decimal value `%.2f` shows, rounded half up, rather than the full floating-point mean.
- StudentDaoModel.StudentDao.SearchStudents: takes a column of the table. The SQL error an unknown column name causes (an empty list) is not modelled. The controller passes only allow-listed names.
- StudentDaoModel.StudentDao.SortStudents: takes a column and a direction, so an unknown field or order text (an SQL error, hence an empty list) is not modelled. The controller passes only allow-listed values.
- StudentDaoModel.StudentDao.SearchStudents: lists the matches in table (id) order. That order is the model's choice: `SELECT * FROM student WHERE col = ?` has no `ORDER BY`, so the database may return the same matches in another order. Only the set of matches is the source's.
- StudentDaoModel.StudentDao.SortStudents: names are compared by code point (`Sql.TextLeq`), which is the database's `C` collation. `ORDER BY first_name` follows the collation of the database, which the code leaves to the server's locale; under an ordinary `en_US` or `fr_FR` collation "alice" sorts before "Bob" and "Émile" next to "Emile". The sort proofs use only that the order is total and transitive (`Sql.TextLeqTotal`, `Sql.TextLeqTrans`).
- StudentControllerModel.StudentController.HandleSort: inherits the code-point order on names of `StudentDaoModel.StudentDao.SortStudents`.
- StudentServiceModel.StudentService.SortStudents: inherits the code-point order on names of `StudentDaoModel.StudentDao.SortStudents`.
- StudentDaoModel.StudentDao.SortStudents: states sortedness and permutation only. The database's order among rows with equal keys is not fixed.
- ApiServiceModel.ListDecodesAll: requires names without `{`. That is stronger than needed: only the text `Student{` inside a name breaks the split.
- UrlEncoding.UrlDecode: Dafny characters are Unicode scalar values, not UTF-16 code units, so surrogate pairs are not modelled. The decoder also does not reject overlong UTF-8 sequences.
- `null` names inside a student are not modelled: a student's names are always strings. A `null` student is `None`.
- DashboardViewModel.PageCount: `Math.ceil((double) n / 10)` is computed in integers, which is exact for every list size an `int` can hold.
- The JSON import is modelled exactly as written: it parses nothing and always yields an empty list for an existing file.

## Findings

| source | as written | input that shows it | evidently intended | confidence | as-written member | corrected member |
|---|---|---|---|---|---|---|
| src/main/java/com/laplateforme/tracker/controller/StudentController.java:167 | `(page - 1) * size` is computed in 32-bit `int` and wraps | page 1073741825 with size 4 gives offset 0, so a page far past the end returns the first rows | the offset of page `page`, so pages past the end are empty | not executed | StudentControllerModel.PageOffsetWraps | StudentControllerModel.PageWindow |
| src/main/java/com/laplateforme/tracker/gui/ApiService.java:335 | the grade segment only has `}` removed, so the last record of a `List.toString` body keeps a trailing `]` and fails to parse | the body `[Student{id=1, firstName='A', lastName='B', age=20, grade=15.00}]` decodes to an empty list | every listed student is decoded | not executed | ApiServiceModel.ListDropsLast | ApiServiceModel.ListDecodesAll |
| src/main/java/com/laplateforme/tracker/gui/ApiService.java:129-133 | `updateStudent` formats the grade without `Locale.US`, unlike `addStudent` | under a French locale a grade of 15.5 is sent as `15,50`, and the server answers 400 "Invalid ID, age or grade value" | the same `Locale.US` body as `addStudent`, which the server accepts | not executed | ApiServiceCalls.UpdateWithCommaRejected | ApiServiceCalls.UpdateBodyWithPoint |
| src/main/java/com/laplateforme/tracker/controller/StudentController.java:365-376 | the client URL-encodes names but the server's `parseQuery` never decodes them | first name `Ana Maria` is stored as `Ana+Maria` | the server stores the name the client sent | not executed | ApiServiceCalls.SpaceStoredAsPlus | ApiServiceCalls.AddBodyRoundTrip |
| src/main/java/com/laplateforme/tracker/server/TrackerHttpServer.java:21 | the user handler is mounted only at `/login`, so a POST to `/register` reaches the root handler | `register("bob", "pw")` gets "Welcome to the Student Tracker API" and returns false | `/register` is served by `UserController.handleRegister` | not executed | ApiServiceCalls.RegisterNeverSucceeds | ApiServiceCalls.RegisterVerdictWhenMounted |
| src/main/java/com/laplateforme/tracker/controller/StudentController.java:381-383 | `sendResponse` announces `response.length()`, the UTF-16 units, and then writes `response.getBytes()`, the UTF-8 bytes; the fixed-length stream refuses more bytes than announced (the same code is at UserController.java:92-97) | `GET /students/1` for a student named `Émile`: the record has one UTF-8 byte more than the units announced (`É` is two bytes), so it never reaches the client and `getAllStudents` returns an empty list | the header announces the byte count, and every answer arrives | not executed | ResponseLength.SentAsWritten | ResponseLength.SentByByteCount |
