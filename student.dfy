/**
 * The student record: the mutable bean with its five fields, and the
 * canonical text `toString` writes, which is also what the server sends.
 */
module StudentModel {
  import opened JavaText

  /** The five fields of a student at one moment; `grade` is in hundredths. */
  datatype StudentData = StudentData(id: int, firstName: string, lastName: string, age: int, grade: int)

  /** The `int` fields fit in 32 bits, as they do in any Java `Student`. */
  predicate WellFormed(d: StudentData) {
    IsInt32(d.id) && IsInt32(d.age)
  }

  /** The bean: every setter writes one field. */
  class Student {
    var id: int
    var firstName: string
    var lastName: string
    var age: int
    var grade: int

    /** The four-argument constructor: the id keeps its default, 0. */
    constructor (firstName: string, lastName: string, age: int, grade: int)
      ensures Data() == StudentData(0, firstName, lastName, age, grade)
    {
      this.id := 0;
      this.firstName := firstName;
      this.lastName := lastName;
      this.age := age;
      this.grade := grade;
    }

    /** The five-argument constructor stores every value unchanged. */
    constructor WithId(id: int, firstName: string, lastName: string, age: int, grade: int)
      ensures Data() == StudentData(id, firstName, lastName, age, grade)
    {
      this.id := id;
      this.firstName := firstName;
      this.lastName := lastName;
      this.age := age;
      this.grade := grade;
    }

    function Data(): StudentData
      reads this
    {
      StudentData(id, firstName, lastName, age, grade)
    }

    function GetId(): int reads this { id }
    function GetFirstName(): string reads this { firstName }
    function GetLastName(): string reads this { lastName }
    function GetAge(): int reads this { age }
    function GetGrade(): int reads this { grade }

    method SetId(v: int)
      modifies this
      ensures Data() == old(Data()).(id := v) && GetId() == v
    {
      id := v;
    }

    method SetFirstName(v: string)
      modifies this
      ensures Data() == old(Data()).(firstName := v) && GetFirstName() == v
    {
      firstName := v;
    }

    method SetLastName(v: string)
      modifies this
      ensures Data() == old(Data()).(lastName := v) && GetLastName() == v
    {
      lastName := v;
    }

    method SetAge(v: int)
      modifies this
      ensures Data() == old(Data()).(age := v) && GetAge() == v
    {
      age := v;
    }

    method SetGrade(v: int)
      modifies this
      ensures Data() == old(Data()).(grade := v) && GetGrade() == v
    {
      grade := v;
    }

    /** `toString()`: the canonical record text of the current fields. */
    function ToString(): string
      reads this
    {
      RecordText(Data())
    }
  }

  /**
   * What follows `Student{` in the record text, closing brace included: the
   * five `name=value` fields of the format, separated by `,`.
   */
  function RecordBody(d: StudentData): string {
    Join(RecordFields(d), ",")
  }

  function RecordFields(d: StudentData): seq<string> {
    [Field("id", IntText(d.id)),
     Field(" firstName", Quote(d.firstName)),
     Field(" lastName", Quote(d.lastName)),
     Field(" age", IntText(d.age)),
     Field(" grade", GradeText(d.grade) + "}")]
  }

  function Field(key: string, value: string): string {
    key + "=" + value
  }

  function Quote(name: string): string {
    "'" + name + "'"
  }

  /** `Student.toString()`: `Student{id=.., firstName='..', lastName='..', age=.., grade=..}`. */
  function RecordText(d: StudentData): string {
    "Student{" + RecordBody(d)
  }

  /** `List.toString()` of a list of students: `[a, b, c]`. */
  function ListText(students: seq<StudentData>): string {
    "[" + Join(RecordTexts(students), ", ") + "]"
  }

  function RecordTexts(students: seq<StudentData>): (r: seq<string>)
    ensures |r| == |students|
    ensures forall k :: 0 <= k < |r| ==> r[k] == RecordText(students[k])
  {
    if students == [] then [] else [RecordText(students[0])] + RecordTexts(students[1..])
  }

  /** The body written out field by field. */
  lemma RecordBodyFields(d: StudentData)
    ensures var f := RecordFields(d);
      RecordBody(d) == f[0] + "," + (f[1] + "," + (f[2] + "," + (f[3] + "," + f[4])))
  {
    var f := RecordFields(d);
    assert Join([f[3], f[4]], ",") == f[3] + "," + f[4];
    JoinCons(f[2], [f[3], f[4]], ",");
    JoinCons(f[1], [f[2], f[3], f[4]], ",");
    JoinCons(f[0], [f[1], f[2], f[3], f[4]], ",");
    assert f == [f[0], f[1], f[2], f[3], f[4]];
  }

  /** An occurrence inside the second of several `,`-separated fields. */
  lemma ContainsSecondField(f0: string, f1: string, rest: string, t: string)
    requires Contains(f1, t)
    ensures Contains(f0 + "," + (f1 + "," + rest), t)
  {
    ContainsSuffixed(f1, ",", t);
    ContainsSuffixed(f1 + ",", rest, t);
    ContainsPrefixed(f0 + ",", f1 + "," + rest, t);
  }

  /** Names are written verbatim between quotes: nothing is escaped. */
  lemma RecordShowsNames(d: StudentData)
    ensures Contains(RecordText(d), Quote(d.firstName))
    ensures Contains(RecordText(d), Quote(d.lastName))
  {
    var f := RecordFields(d);
    RecordBodyFields(d);
    ContainsMiddle(" firstName=", Quote(d.firstName), "");
    ContainsMiddle(" lastName=", Quote(d.lastName), "");
    assert " lastName=" + Quote(d.lastName) + "" == f[2];
    assert " firstName=" + Quote(d.firstName) + "" == f[1];
    var tail := f[3] + "," + f[4];
    ContainsSecondField(f[1], f[2], tail, Quote(d.lastName));
    ContainsPrefixed(f[0] + ",", f[1] + "," + (f[2] + "," + tail), Quote(d.lastName));
    ContainsSecondField(f[0], f[1], f[2] + "," + tail, Quote(d.firstName));
    ContainsPrefixed("Student{", RecordBody(d), Quote(d.firstName));
    ContainsPrefixed("Student{", RecordBody(d), Quote(d.lastName));
  }
}
