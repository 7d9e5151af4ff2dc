/**
 * The desktop client's side of the HTTP conversation: the decoders that turn
 * the server's response texts back into students and statistics, the form
 * bodies it sends, and the way it classifies the server's answers.
 */
module ApiServiceModel {
  import opened Wrappers
  import opened JavaText
  import opened StudentModel
  import opened QueryString
  import opened StudentControllerModel

  // ---------------------------------------------------------------- one record

  /** `part.split("=")[1]`; `None` where Java would index past the end. */
  function FieldValue(part: string): Option<string> {
    var kv := Split(part, "=");
    if |kv| >= 2 then Some(kv[1]) else None
  }

  /**
   * The grade segment with every `}` removed (`replace("}", "")`); the
   * corrected decoder also removes every `]`.
   */
  function GradeDigits(g: string, stripBracket: bool): string {
    var t := RemoveChar(g, '}');
    if stripBracket then RemoveChar(t, ']') else t
  }

  /**
   * Decodes one record fragment: split on `,`, take the text after the first
   * `=` of each of the first five pieces, drop every `'` from the names and
   * parse the numbers. Any index past the end or unparseable number, which
   * the client catches as an exception, gives `None`.
   */
  function ParseRecord(s: string, stripBracket: bool): Option<StudentData> {
    var parts := Split(s, ",");
    if |parts| < 5 then None
    else
      var id, first, last, age, grade :=
        FieldValue(parts[0]), FieldValue(parts[1]), FieldValue(parts[2]), FieldValue(parts[3]), FieldValue(parts[4]);
      if id.None? || first.None? || last.None? || age.None? || grade.None? then None
      else
        var i, a, g := ParseInt(id.value), ParseInt(age.value), ParseGrade(GradeDigits(grade.value, stripBracket));
        if i.None? || a.None? || g.None? then None
        else Some(StudentData(i.value, RemoveChar(first.value, '\''), RemoveChar(last.value, '\''), a.value, g.value))
  }

  /** `parseStudentFromString`, as written. */
  function ParseStudentFromString(s: string): Option<StudentData> {
    ParseRecord(s, false)
  }

  /** `parseStudentFromResponse`: an absent or empty response decodes to nothing. */
  function StudentFromResponse(response: Option<string>): Option<StudentData> {
    if response.None? || response.value == "" then None else ParseStudentFromString(response.value)
  }

  /** A decoded name never holds a `'`: every one is removed, not only the enclosing quotes. */
  lemma DecodedNamesUnquoted(s: string, stripBracket: bool)
    ensures var r := ParseRecord(s, stripBracket);
      r.Some? ==> '\'' !in r.value.firstName && '\'' !in r.value.lastName
  {
  }

  /** Decoded numbers are Java `int`s. */
  lemma DecodedNumbersFit(s: string, stripBracket: bool)
    ensures var r := ParseRecord(s, stripBracket);
      r.Some? ==> IsInt32(r.value.id) && IsInt32(r.value.age)
  {
  }

  // ---------------------------------------------------------------- lists

  /** The fragments the client tries to decode. */
  predicate Selected(fragment: string) {
    Contains(fragment, "id=") && Contains(fragment, "firstName=")
  }

  /** What one fragment contributes to the list. */
  function Decoded(fragment: string, stripBracket: bool): seq<StudentData> {
    var r := ParseRecord(fragment, stripBracket);
    if Selected(fragment) && r.Some? then [r.value] else []
  }

  /** The fragments decoded in order, the ones that fail skipped. */
  function DecodeFragments(fragments: seq<string>, stripBracket: bool): seq<StudentData> {
    Gather(fragments, fragment => Decoded(fragment, stripBracket))
  }

  /** `f` of each element, concatenated in order. */
  function Gather<T, U>(xs: seq<T>, f: T -> seq<U>): seq<U> {
    if xs == [] then [] else Gather(xs[..|xs| - 1], f) + f(xs[|xs| - 1])
  }

  lemma GatherStep<T, U>(xs: seq<T>, i: nat, f: T -> seq<U>)
    requires i < |xs|
    ensures Gather(xs[..i + 1], f) == Gather(xs[..i], f) + f(xs[i])
  {
    PrefixStep(xs, i);
  }

  lemma {:induction false} GatherAppend<T, U>(a: seq<T>, b: seq<T>, f: T -> seq<U>)
    ensures Gather(a + b, f) == Gather(a, f) + Gather(b, f)
  {
    if b == [] {
      assert a + b == a;
    } else {
      var n := |b| - 1;
      assert (a + b)[..|a + b| - 1] == a + b[..n];
      GatherAppend(a, b[..n], f);
    }
  }

  /** The list a response decodes to. */
  function StudentsFromResponse(response: Option<string>, stripBracket: bool): seq<StudentData> {
    if response.None? || response.value == "" then []
    else DecodeFragments(Split(response.value, "Student{"), stripBracket)
  }

  /** `parseStudentsFromResponse`, as written. */
  method ParseStudentsFromResponse(response: Option<string>) returns (students: seq<StudentData>)
    ensures students == StudentsFromResponse(response, false)
  {
    students := [];
    if response.None? || response.value == "" {
      return;
    }
    var fragments := Split(response.value, "Student{");
    var i := 0;
    while i < |fragments|
      invariant 0 <= i <= |fragments|
      invariant students == DecodeFragments(fragments[..i], false)
    {
      var fragment := fragments[i];
      DecodeStep(fragments, i, false);
      if Contains(fragment, "id=") && Contains(fragment, "firstName=") {
        var student := ParseStudentFromString(fragment);
        if student.Some? {
          students := students + [student.value];
        }
      }
      i := i + 1;
    }
    assert fragments[..i] == fragments;
  }

  lemma DecodeStep(fragments: seq<string>, i: nat, stripBracket: bool)
    requires i < |fragments|
    ensures DecodeFragments(fragments[..i + 1], stripBracket)
      == DecodeFragments(fragments[..i], stripBracket) + Decoded(fragments[i], stripBracket)
  {
    GatherStep(fragments, i, fragment => Decoded(fragment, stripBracket));
  }

  /** Decoding is fragment by fragment: results keep the order of the response. */
  lemma DecodeAppend(a: seq<string>, b: seq<string>, stripBracket: bool)
    ensures DecodeFragments(a + b, stripBracket) == DecodeFragments(a, stripBracket) + DecodeFragments(b, stripBracket)
  {
    GatherAppend(a, b, fragment => Decoded(fragment, stripBracket));
  }

  /** Every decoded student comes from a selected fragment that parses on its own. */
  lemma DecodedComeFromFragments(fragments: seq<string>, stripBracket: bool, d: StudentData)
    requires d in DecodeFragments(fragments, stripBracket)
    ensures exists k :: 0 <= k < |fragments| && Selected(fragments[k]) && ParseRecord(fragments[k], stripBracket) == Some(d)
  {
    var k := DecodedIndex(fragments, stripBracket, d);
    assert Selected(fragments[k]) && ParseRecord(fragments[k], stripBracket) == Some(d);
  }

  /** The fragment a decoded student was decoded from. */
  lemma {:induction false} DecodedIndex(fragments: seq<string>, stripBracket: bool, d: StudentData) returns (k: nat)
    requires d in DecodeFragments(fragments, stripBracket)
    ensures k < |fragments| && d in Decoded(fragments[k], stripBracket)
  {
    assert fragments != [];
    var n := |fragments| - 1;
    DecodeStep(fragments, n, stripBracket);
    assert fragments[..n + 1] == fragments;
    if d in DecodeFragments(fragments[..n], stripBracket) {
      k := DecodedIndex(fragments[..n], stripBracket, d);
      assert fragments[..n][k] == fragments[k];
    } else {
      k := n;
    }
  }
  // ---------------------------------------------------------------- round trips

  /** A name the record text carries through intact: no `,`, `=` or `'` inside. */
  predicate DecodableName(name: string) {
    ',' !in name && '=' !in name && '\'' !in name
  }

  predicate Decodable(d: StudentData) {
    WellFormed(d) && DecodableName(d.firstName) && DecodableName(d.lastName)
  }

  lemma Join5(p: seq<string>, sep: string)
    requires |p| == 5
    ensures Join(p, sep) == p[0] + sep + (p[1] + sep + (p[2] + sep + (p[3] + sep + p[4])))
  {
    assert Join(p[3..], sep) == p[3] + sep + p[4];
    assert p[2..] == [p[2]] + p[3..];
    JoinCons(p[2], p[3..], sep);
    assert p[1..] == [p[1]] + p[2..];
    JoinCons(p[1], p[2..], sep);
    assert p == [p[0]] + p[1..];
    JoinCons(p[0], p[1..], sep);
  }

  lemma FieldValueOf(key: string, value: string)
    requires '=' !in key && '=' !in value && value != ""
    ensures FieldValue(Field(key, value)) == Some(value)
  {
    NotContainsWithout(value, "=", '=');
    SplitTwo(key, "=", 0, value);
  }

  lemma UnquoteName(name: string)
    requires '\'' !in name
    ensures RemoveChar(Quote(name), '\'') == name
  {
    RemoveConcat("'" + name, "'", '\'');
    RemoveConcat("'", name, '\'');
    RemoveAbsent(name, '\'');
  }

  /** The five fields of a record text, after whatever precedes the `id` key. */
  predicate RecordParts(parts: seq<string>, d: StudentData, idKey: string, gradeValue: string) {
    |parts| >= 5
    && parts[0] == Field(idKey, IntText(d.id))
    && parts[1] == Field(" firstName", Quote(d.firstName))
    && parts[2] == Field(" lastName", Quote(d.lastName))
    && parts[3] == Field(" age", IntText(d.age))
    && parts[4] == Field(" grade", gradeValue)
  }

  /** The record's fields come back; the grade is whatever its segment parses to. */
  lemma ParseParts(s: string, stripBracket: bool, d: StudentData, idKey: string, gradeValue: string)
    requires Decodable(d) && '=' !in idKey && '=' !in gradeValue && gradeValue != ""
    requires RecordParts(Split(s, ","), d, idKey, gradeValue)
    ensures var g := ParseGrade(GradeDigits(gradeValue, stripBracket));
      ParseRecord(s, stripBracket) == if g.Some? then Some(d.(grade := g.value)) else None
  {
    PartsValues(Split(s, ","), d, idKey, gradeValue);
    assert ParseInt(IntText(d.id)) == Some(d.id) by { ParseIntText(d.id); }
    assert ParseInt(IntText(d.age)) == Some(d.age) by { ParseIntText(d.age); }
    assert RemoveChar(Quote(d.firstName), '\'') == d.firstName by { UnquoteName(d.firstName); }
    assert RemoveChar(Quote(d.lastName), '\'') == d.lastName by { UnquoteName(d.lastName); }
  }

  /** Each of the five parts yields the text after its `=`. */
  lemma PartsValues(parts: seq<string>, d: StudentData, idKey: string, gradeValue: string)
    requires Decodable(d) && '=' !in idKey && '=' !in gradeValue && gradeValue != ""
    requires RecordParts(parts, d, idKey, gradeValue)
    ensures FieldValue(parts[0]) == Some(IntText(d.id))
    ensures FieldValue(parts[1]) == Some(Quote(d.firstName))
    ensures FieldValue(parts[2]) == Some(Quote(d.lastName))
    ensures FieldValue(parts[3]) == Some(IntText(d.age))
    ensures FieldValue(parts[4]) == Some(gradeValue)
  {
    IntTextNumber(d.id);
    IntTextNumber(d.age);
    NumberTextLacks(IntText(d.id), '=');
    NumberTextLacks(IntText(d.age), '=');
    FieldValueOf(idKey, IntText(d.id));
    FieldValueOf(" firstName", Quote(d.firstName));
    FieldValueOf(" lastName", Quote(d.lastName));
    FieldValueOf(" age", IntText(d.age));
    FieldValueOf(" grade", gradeValue);
  }

  /** The grade segment of the last record of a list: `}` and then `]`. */
  lemma GradeDigitsOf(h: int, tail: string, stripBracket: bool)
    requires tail == "" || tail == "]"
    ensures GradeDigits(GradeText(h) + "}" + tail, stripBracket) == GradeText(h) + (if stripBracket then "" else tail)
  {
    var t := GradeText(h);
    GradeTextNumber(h);
    NumberTextLacks(t, '}');
    NumberTextLacks(t, ']');
    DropBrace(t, tail);
    if stripBracket {
      DropBracket(t, tail);
    }
  }

  /** Removing `}` from a brace-free text, a `}` and a tail without `}` leaves text and tail. */
  lemma DropBrace(t: string, tail: string)
    requires '}' !in t && (tail == "" || tail == "]")
    ensures RemoveChar(t + "}" + tail, '}') == t + tail
  {
    RemoveConcat(t + "}", tail, '}');
    RemoveConcat(t, "}", '}');
    RemoveAbsent(t, '}');
    RemoveAbsent(tail, '}');
  }

  /** Removing `]` from a bracket-free text and a tail of at most `]` leaves the text. */
  lemma DropBracket(t: string, tail: string)
    requires ']' !in t && (tail == "" || tail == "]")
    ensures RemoveChar(t + tail, ']') == t
  {
    RemoveConcat(t, tail, ']');
    RemoveAbsent(t, ']');
    assert RemoveChar(tail, ']') == "";
    assert t + "" == t;
  }

  /** A record's text with `head` before and `tail` after, neither holding a `,`, splits into its five fields. */
  lemma RecordSplit(d: StudentData, head: string, tail: string)
    requires Decodable(d) && ',' !in head && ',' !in tail
    ensures var f := RecordFields(d);
      Split(head + RecordBody(d) + tail, ",") == [head + f[0], f[1], f[2], f[3], f[4] + tail]
  {
    var f := RecordFields(d);
    var p := [head + f[0], f[1], f[2], f[3], f[4] + tail];
    RecordJoin(d, head, tail);
    FieldsLackComma(d);
    assert forall k :: 0 <= k < 5 ==> ',' !in p[k];
    SplitJoin(p, ",");
  }

  lemma RecordJoin(d: StudentData, head: string, tail: string)
    ensures var f := RecordFields(d);
      Join([head + f[0], f[1], f[2], f[3], f[4] + tail], ",") == head + RecordBody(d) + tail
  {
    var f := RecordFields(d);
    RecordBodyFields(d);
    JoinFramed(head, f[0], f[1], f[2], f[3], f[4], tail, ",");
  }

  /** Text before the first and after the last of five joined pieces frames the join. */
  lemma JoinFramed(head: string, a0: string, a1: string, a2: string, a3: string, a4: string, tail: string, sep: string)
    ensures Join([head + a0, a1, a2, a3, a4 + tail], sep)
      == head + (a0 + sep + (a1 + sep + (a2 + sep + (a3 + sep + a4)))) + tail
  {
    var p := [head + a0, a1, a2, a3, a4 + tail];
    Join5(p, sep);
    var r3 := a3 + sep + a4;
    assert p[3] + sep + p[4] == r3 + tail;
    var r2 := a2 + sep + r3;
    assert p[2] + sep + (r3 + tail) == r2 + tail;
    var r1 := a1 + sep + r2;
    assert p[1] + sep + (r2 + tail) == r1 + tail;
    assert p[0] + sep + (r1 + tail) == head + (a0 + sep + r1) + tail;
  }

  lemma FieldsLackComma(d: StudentData)
    requires Decodable(d)
    ensures forall k :: 0 <= k < 5 ==> ',' !in RecordFields(d)[k]
  {
    IntTextNumber(d.id);
    IntTextNumber(d.age);
    GradeTextNumber(d.grade);
    NumberTextLacks(IntText(d.id), ',');
    NumberTextLacks(IntText(d.age), ',');
    NumberTextLacks(GradeText(d.grade), ',');
  }

  /** `parseStudentFromString` inverts `Student.toString` for decodable names. */
  lemma RecordRoundTrip(d: StudentData)
    requires Decodable(d)
    ensures ParseStudentFromString(RecordText(d)) == Some(d)
    ensures StudentFromResponse(Some(RecordText(d))) == Some(d)
  {
    var f := RecordFields(d);
    RecordSplit(d, "Student{", "");
    assert RecordText(d) == "Student{" + RecordBody(d) + "";
    assert "Student{" + f[0] == Field("Student{id", IntText(d.id));
    assert f[4] + "" == Field(" grade", GradeText(d.grade) + "}" + "");
    GradeTextNumber(d.grade);
    NumberTextLacks(GradeText(d.grade), '=');
    ParseParts(RecordText(d), false, d, "Student{id", GradeText(d.grade) + "}" + "");
    GradeDigitsOf(d.grade, "", false);
    assert GradeText(d.grade) + "" == GradeText(d.grade);
    ParseGradeText(d.grade);
  }

  /** A record's body is always one of the fragments the client decodes. */
  lemma BodySelected(d: StudentData, tail: string)
    ensures Selected(RecordBody(d) + tail)
  {
    BodyHasId(d, tail);
    BodyHasFirstName(d, tail);
  }

  lemma BodyHasId(d: StudentData, tail: string)
    ensures Contains(RecordBody(d) + tail, "id=")
  {
    var f := RecordFields(d);
    RecordBodyFields(d);
    assert f[0] == "" + "id=" + IntText(d.id);
    ContainsMiddle("", "id=", IntText(d.id));
    ContainsSuffixed(f[0], ",", "id=");
    ContainsSuffixed(f[0] + ",", f[1] + "," + (f[2] + "," + (f[3] + "," + f[4])), "id=");
    ContainsSuffixed(RecordBody(d), tail, "id=");
  }

  lemma BodyHasFirstName(d: StudentData, tail: string)
    ensures Contains(RecordBody(d) + tail, "firstName=")
  {
    var f := RecordFields(d);
    var rest := f[2] + "," + (f[3] + "," + f[4]);
    RecordBodyFields(d);
    assert f[1] == " " + "firstName=" + Quote(d.firstName);
    ContainsMiddle(" ", "firstName=", Quote(d.firstName));
    ContainsSecondField(f[0], f[1], rest, "firstName=");
    ContainsSuffixed(RecordBody(d), tail, "firstName=");
  }

  /** A record followed by `, `: the split has a sixth, blank piece. */
  lemma RecordSplitOpen(d: StudentData)
    requires Decodable(d)
    ensures Split(RecordBody(d) + ", ", ",") == RecordFields(d) + [" "]
  {
    var f := RecordFields(d);
    var p := f + [" "];
    RecordBodyFields(d);
    assert p == [p[0]] + p[1..];
    JoinCons(p[0], p[1..], ",");
    Join5(p[1..], ",");
    assert Join(p, ",") == RecordBody(d) + ", ";
    FieldsLackComma(d);
    SplitJoin(p, ",");
  }

  /** A record that another follows decodes, by either decoder. */
  lemma FragmentMiddle(d: StudentData, stripBracket: bool)
    requires Decodable(d)
    ensures Decoded(RecordBody(d) + ", ", stripBracket) == [d]
  {
    var fragment := RecordBody(d) + ", ";
    var g := GradeText(d.grade) + "}" + "";
    RecordSplitOpen(d);
    assert RecordFields(d)[4] == Field(" grade", g);
    GradeTextNumber(d.grade);
    NumberTextLacks(GradeText(d.grade), '=');
    ParseParts(fragment, stripBracket, d, "id", g);
    GradeDigitsOf(d.grade, "", stripBracket);
    assert GradeText(d.grade) + "" == GradeText(d.grade);
    ParseGradeText(d.grade);
    BodySelected(d, ", ");
  }

  /**
   * The last record of a list is followed by `]`: the grade segment keeps it
   * once `}` is gone, so as written the record is lost, while the corrected
   * decoder recovers it.
   */
  lemma FragmentLast(d: StudentData, stripBracket: bool)
    requires Decodable(d)
    ensures Decoded(RecordBody(d) + "]", stripBracket) == if stripBracket then [d] else []
  {
    var fragment := RecordBody(d) + "]";
    var g := GradeText(d.grade) + "}" + "]";
    RecordSplit(d, "", "]");
    assert "" + RecordBody(d) + "]" == fragment;
    assert "" + RecordFields(d)[0] == Field("id", IntText(d.id));
    assert RecordFields(d)[4] + "]" == Field(" grade", g);
    GradeTextNumber(d.grade);
    NumberTextLacks(GradeText(d.grade), '=');
    ParseParts(fragment, stripBracket, d, "id", g);
    GradeDigitsOf(d.grade, "]", stripBracket);
    if stripBracket {
      assert GradeText(d.grade) + "" == GradeText(d.grade);
      ParseGradeText(d.grade);
      BodySelected(d, "]");
    } else {
      ParseGradeBracket(GradeText(d.grade));
    }
  }

  /** A student whose record text survives a list response: no `{` in the names either. */
  predicate Listable(d: StudentData) {
    Decodable(d) && '{' !in d.firstName && '{' !in d.lastName
  }

  /** The record bodies of a list, in order. */
  function Bodies(students: seq<StudentData>): (r: seq<string>)
    ensures |r| == |students|
  {
    seq(|students|, k requires 0 <= k < |students| => RecordBody(students[k]))
  }

  /**
   * The pieces of a non-empty list's text between the `Student{` markers:
   * each record's body followed by `, `, the last one by `]`.
   */
  function Pieces(bodies: seq<string>): (r: seq<string>)
    requires bodies != []
    ensures |r| == |bodies|
  {
    if |bodies| == 1 then [bodies[0] + "]"]
    else [bodies[0] + ", "] + Pieces(bodies[1..])
  }

  lemma {:induction false} PiecesAt(bodies: seq<string>, k: nat)
    requires k < |bodies|
    ensures Pieces(bodies)[k] == bodies[k] + (if k == |bodies| - 1 then "]" else ", ")
  {
    if k > 0 {
      PiecesAt(bodies[1..], k - 1);
    }
  }

  /** The records' texts joined by `, ` and closed by `]`, seen from the `Student{` markers. */
  lemma {:induction false} MarkedTail(texts: seq<string>, bodies: seq<string>)
    requires |texts| == |bodies| && bodies != []
    requires forall k :: 0 <= k < |texts| ==> texts[k] == "Student{" + bodies[k]
    ensures Join(texts, ", ") + "]" == "Student{" + Join(Pieces(bodies), "Student{")
  {
    var m := "Student{";
    if |bodies| == 1 {
      assert (m + bodies[0]) + "]" == m + (bodies[0] + "]");
    } else {
      var tail := Join(texts[1..], ", ") + "]";
      var rest := Join(Pieces(bodies[1..]), m);
      assert texts == [texts[0]] + texts[1..];
      JoinCons(texts[0], texts[1..], ", ");
      MarkedTail(texts[1..], bodies[1..]);
      assert tail == m + rest;
      JoinCons(bodies[0] + ", ", Pieces(bodies[1..]), m);
      calc {
        Join(texts, ", ") + "]";
        m + bodies[0] + ", " + tail;
        m + (bodies[0] + ", " + m + rest);
      }
    }
  }

  /** `[` then the pieces, joined by the marker the client splits on. */
  lemma ListTextPieces(students: seq<StudentData>)
    requires students != []
    ensures ListText(students) == Join(["["] + Pieces(Bodies(students)), "Student{")
  {
    var texts := RecordTexts(students);
    var bodies := Bodies(students);
    forall k | 0 <= k < |texts|
      ensures texts[k] == "Student{" + bodies[k]
    {
      assert texts[k] == RecordText(students[k]);
    }
    BracketedPieces(texts, bodies);
  }

  lemma BracketedPieces(texts: seq<string>, bodies: seq<string>)
    requires |texts| == |bodies| && bodies != []
    requires forall k :: 0 <= k < |texts| ==> texts[k] == "Student{" + bodies[k]
    ensures "[" + Join(texts, ", ") + "]" == Join(["["] + Pieces(bodies), "Student{")
  {
    MarkedTail(texts, bodies);
    Bracket(Join(texts, ", "), Join(Pieces(bodies), "Student{"), "Student{");
    JoinCons("[", Pieces(bodies), "Student{");
  }

  lemma Bracket(j: string, q: string, m: string)
    requires j + "]" == m + q
    ensures "[" + j + "]" == "[" + m + q
  {
    assert "[" + j + "]" == "[" + (j + "]");
  }

  lemma BodyLacksBrace(d: StudentData)
    requires Listable(d)
    ensures '{' !in RecordBody(d)
  {
    RecordBodyFields(d);
    IntTextNumber(d.id);
    IntTextNumber(d.age);
    GradeTextNumber(d.grade);
    NumberTextLacks(IntText(d.id), '{');
    NumberTextLacks(IntText(d.age), '{');
    NumberTextLacks(GradeText(d.grade), '{');
  }

  /** The client's split of a list response recovers the pieces. */
  lemma ListSplit(students: seq<StudentData>)
    requires students != [] && forall k :: 0 <= k < |students| ==> Listable(students[k])
    ensures Split(ListText(students), "Student{") == ["["] + Pieces(Bodies(students))
  {
    var bodies := Bodies(students);
    forall k | 0 <= k < |bodies|
      ensures '{' !in bodies[k]
    {
      BodyLacksBrace(students[k]);
    }
    ListTextPieces(students);
    SplitPieces(bodies);
  }

  lemma SplitPieces(bodies: seq<string>)
    requires bodies != [] && forall k :: 0 <= k < |bodies| ==> '{' !in bodies[k]
    ensures Split(Join(["["] + Pieces(bodies), "Student{"), "Student{") == ["["] + Pieces(bodies)
  {
    var p := ["["] + Pieces(bodies);
    PiecesLackBrace(bodies);
    MarkerMarked();
    SplitJoin(p, "Student{");
  }

  lemma MarkerMarked()
    ensures Marked("Student{") && "Student{"[|"Student{"| - 1] == '{'
  {
  }

  lemma PiecesLackBrace(bodies: seq<string>)
    requires bodies != [] && forall k :: 0 <= k < |bodies| ==> '{' !in bodies[k]
    ensures var p := ["["] + Pieces(bodies);
      p[|p| - 1] != "" && forall k :: 0 <= k < |p| ==> '{' !in p[k]
  {
    var p := ["["] + Pieces(bodies);
    forall k | 0 <= k < |p|
      ensures '{' !in p[k]
    {
      if k > 0 {
        PiecesAt(bodies, k - 1);
      }
    }
    PiecesAt(bodies, |bodies| - 1);
  }

  lemma DecodeOne(fragment: string, stripBracket: bool)
    ensures DecodeFragments([fragment], stripBracket) == Decoded(fragment, stripBracket)
  {
    DecodeAppend([], [fragment], stripBracket);
    assert [] + [fragment] == [fragment];
  }

  /** Each middle piece contributes its element; the last one contributes `last`. */
  lemma {:induction false} GatherPieces<U>(bodies: seq<string>, xs: seq<U>, last: seq<U>, f: string -> seq<U>)
    requires |bodies| == |xs| + 1
    requires forall k :: 0 <= k < |xs| ==> f(bodies[k] + ", ") == [xs[k]]
    requires f(bodies[|bodies| - 1] + "]") == last
    ensures Gather(Pieces(bodies), f) == xs + last
  {
    if xs == [] {
      GatherAppend([], Pieces(bodies), f);
      assert [] + Pieces(bodies) == Pieces(bodies);
      assert Pieces(bodies)[..0] == [];
    } else {
      GatherHead(bodies, f);
      GatherPieces(bodies[1..], xs[1..], last, f);
      assert xs == [xs[0]] + xs[1..];
    }
  }

  /** The first of several pieces is decoded first. */
  lemma GatherHead<U>(bodies: seq<string>, f: string -> seq<U>)
    requires |bodies| >= 2
    ensures Gather(Pieces(bodies), f) == f(bodies[0] + ", ") + Gather(Pieces(bodies[1..]), f)
  {
    var head := bodies[0] + ", ";
    var p := Pieces(bodies[1..]);
    assert Pieces(bodies) == [head] + p;
    GatherAppend([head], p, f);
    assert Gather([head], f) == f(head) by {
      assert [head][..0] == [];
    }
  }

  /** The pieces of a list response decode as the records they came from. */
  lemma ListPiecesDecode(students: seq<StudentData>, stripBracket: bool)
    requires students != [] && forall k :: 0 <= k < |students| ==> Decodable(students[k])
    ensures DecodeFragments(Pieces(Bodies(students)), stripBracket)
      == if stripBracket then students else students[..|students| - 1]
  {
    var bodies := Bodies(students);
    var n := |students| - 1;
    var f := fragment => Decoded(fragment, stripBracket);
    var xs := students[..n];
    forall k | 0 <= k < n
      ensures f(bodies[k] + ", ") == [xs[k]]
    {
      FragmentMiddle(students[k], stripBracket);
    }
    var last := if stripBracket then [students[n]] else [];
    FragmentLast(students[n], stripBracket);
    GatherPieces(bodies, xs, last, f);
    if stripBracket {
      TakeLast(students);
    }
  }

  /**
   * As written, the client decodes a list response (`List.toString` of the
   * students) to every student but the last.
   */
  lemma ListDropsLast(students: seq<StudentData>)
    requires students != [] && forall k :: 0 <= k < |students| ==> Listable(students[k])
    ensures StudentsFromResponse(Some(ListText(students)), false) == students[..|students| - 1]
  {
    ListSplit(students);
    assert ListText(students)[0] == '[';
    ResponseFromPieces(ListText(students), Pieces(Bodies(students)), false);
    ListPiecesDecode(students, false);
  }

  /** A response that splits into the opening `[` and further pieces decodes to those pieces' students. */
  lemma ResponseFromPieces(text: string, pieces: seq<string>, stripBracket: bool)
    requires text != "" && Split(text, "Student{") == ["["] + pieces
    ensures StudentsFromResponse(Some(text), stripBracket) == DecodeFragments(pieces, stripBracket)
  {
    DecodeAppend(["["], pieces, stripBracket);
    DecodeOne("[", stripBracket);
    assert Decoded("[", stripBracket) == [];
  }

  /** With `]` also removed from the grade segment, a list response decodes to the whole list. */
  lemma ListDecodesAll(students: seq<StudentData>)
    requires forall k :: 0 <= k < |students| ==> Listable(students[k])
    ensures StudentsFromResponse(Some(ListText(students)), true) == students
  {
    if students == [] {
      assert ListText(students) == "[]";
      SplitRawSingle("[]", "Student{");
      DecodeOne("[]", true);
    } else {
      ListSplit(students);
      assert ListText(students)[0] == '[';
      ResponseFromPieces(ListText(students), Pieces(Bodies(students)), true);
      ListPiecesDecode(students, true);
    }
  }

  lemma TakeLast<T>(s: seq<T>)
    requires s != []
    ensures s[..|s| - 1] + [s[|s| - 1]] == s
  {
  }

  // ---------------------------------------------------------------- statistics

  /** The two numbers the client shows: the student count and the average grade in hundredths. */
  datatype Statistics = Statistics(total: int, average: int)

  /** What the client falls back to on any failure: `totalStudents` 0 and `averageGrade` 0.0. */
  const NoStatistics: Statistics := Statistics(0, 0)

  /**
   * `parseStatisticsFromResponse`: the text after `totalStudents":` up to
   * the first `,`, and the text after `averageGrade":` up to the first `}`.
   * An absent response, an index past the end or a number that does not
   * parse gives the fallback.
   */
  function StatisticsFrom(response: Option<string>): Statistics {
    if response.None? then NoStatistics
    else
      var r := response.value;
      var a, b := Split(r, TotalKey), Split(r, AverageKey);
      if |a| < 2 || |b| < 2 then NoStatistics
      else
        var t, u := Split(a[1], ","), Split(b[1], "}");
        if |t| < 1 || |u| < 1 then NoStatistics
        else
          match (ParseInt(t[0]), ParseGrade(u[0]))
          case (Some(total), Some(average)) => Statistics(total, average)
          case _ => NoStatistics
  }

  /** The statistics text of the server decodes to the count and average it was built from. */
  lemma StatisticsRoundTrip(total: int, average: int)
    requires IsInt32(total)
    ensures StatisticsFrom(Some(StatisticsText(total, average))) == Statistics(total, average)
  {
    var n, g := IntText(total), GradeText(average);
    IntTextNumber(total);
    GradeTextNumber(average);
    StatisticsPieces(n, g);
    ParseIntText(total);
    ParseGradeText(average);
  }

  /** The pieces the decoder cuts from a statistics text with number texts `n` and `g`. */
  lemma StatisticsPieces(n: string, g: string)
    requires NumberText(n) && NumberText(g) && n != "" && g != ""
    ensures var r := "{\"" + TotalKey + n + ",\"" + AverageKey + g + "}";
      var a, b := Split(r, TotalKey), Split(r, AverageKey);
      |a| == 2 && |b| == 2 && |Split(a[1], ",")| >= 1 && Split(a[1], ",")[0] == n
      && |Split(b[1], "}")| >= 1 && Split(b[1], "}")[0] == g
  {
    var r := "{\"" + TotalKey + n + ",\"" + AverageKey + g + "}";
    var tail := "\"" + AverageKey + g + "}";
    TotalPiece(n, tail);
    assert r == "{\"" + TotalKey + (n + "," + tail);
    NumberTextLacks(n, ',');
    SplitHead(n, ",", 0, tail);
    AveragePiece("{\"" + TotalKey + n + ",\"", g);
    assert r == "{\"" + TotalKey + n + ",\"" + AverageKey + (g + "}");
    NumberTextLacks(g, '}');
    assert g + "}" == g + "}" + "";
    SplitHead(g, "}", 0, "");
  }

  lemma TotalPiece(n: string, tail: string)
    requires NumberText(n) && 'S' !in tail
    ensures Split("{\"" + TotalKey + (n + "," + tail), TotalKey) == ["{\"", n + "," + tail]
  {
    NumberTextLacks(n, 'S');
    assert 'S' !in n + "," + tail;
    NotContainsWithout(n + "," + tail, TotalKey, 'S');
    SplitTwo("{\"", TotalKey, 5, n + "," + tail);
  }

  lemma AveragePiece(head: string, g: string)
    requires 'G' !in head && NumberText(g)
    ensures Split(head + AverageKey + (g + "}"), AverageKey) == [head, g + "}"]
  {
    NumberTextLacks(g, 'G');
    assert 'G' !in g + "}";
    NotContainsWithout(g + "}", AverageKey, 'G');
    SplitTwo(head, AverageKey, 7, g + "}");
  }

  /** A response without the count key gives the fallback, whatever else it holds. */
  lemma StatisticsWithoutTotal(r: string)
    requires !Contains(r, TotalKey)
    ensures StatisticsFrom(Some(r)) == NoStatistics
  {
    SplitRawSingle(r, TotalKey);
  }
}
