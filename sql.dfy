/**
 * The `student` table as the SQL statements of the data-access object see
 * it: the statement texts with their bound parameters, and what the fixed
 * SQL of each statement means over the rows, kept in id order.
 */
module Sql {
  import opened Wrappers
  import opened JavaText
  import opened StudentModel

  // ---------------------------------------------------------------- columns and values

  datatype Column = IdColumn | FirstNameColumn | LastNameColumn | AgeColumn | GradeColumn

  function ColumnName(c: Column): string {
    match c
    case IdColumn => "id"
    case FirstNameColumn => "first_name"
    case LastNameColumn => "last_name"
    case AgeColumn => "age"
    case GradeColumn => "grade"
  }

  /** The column an exact name denotes. */
  function ColumnNamed(name: string): (r: Option<Column>)
    ensures r.Some? ==> ColumnName(r.value) == name
  {
    if name == "id" then Some(IdColumn)
    else if name == "first_name" then Some(FirstNameColumn)
    else if name == "last_name" then Some(LastNameColumn)
    else if name == "age" then Some(AgeColumn)
    else if name == "grade" then Some(GradeColumn)
    else None
  }

  lemma ColumnNamedName(c: Column)
    ensures ColumnNamed(ColumnName(c)) == Some(c)
  {
  }

  datatype Direction = Asc | Desc

  function DirectionName(d: Direction): string {
    if d == Asc then "ASC" else "DESC"
  }

  /** A bound parameter: a Java `String`, `Integer` or `Double` (in hundredths). */
  datatype SqlValue = Text(text: string) | Integer(n: int) | Decimal(hundredths: int)

  // ---------------------------------------------------------------- statements

  /**
   * A prepared statement: the text around its `?` placeholders, and the
   * values bound to them in order.
   */
  datatype Statement = Statement(pieces: seq<string>, params: seq<SqlValue>) {
    function Sql(): string {
      Join(pieces, "?")
    }
  }

  /** One value per `?`: a text of n + 1 pieces has n placeholders. */
  predicate WellBound(st: Statement) {
    |st.pieces| == |st.params| + 1
  }

  function InsertStatement(d: StudentData): Statement {
    Statement(["INSERT INTO student (first_name, last_name, age, grade) VALUES (", ", ", ", ", ", ", ")"],
      [Text(d.firstName), Text(d.lastName), Integer(d.age), Decimal(d.grade)])
  }

  function UpdateStatement(d: StudentData): Statement {
    Statement(["UPDATE student SET first_name = ", ", last_name = ", ", age = ", ", grade = ", " WHERE id = ", ""],
      [Text(d.firstName), Text(d.lastName), Integer(d.age), Decimal(d.grade), Integer(d.id)])
  }

  function DeleteStatement(id: int): Statement {
    Statement(["DELETE FROM student WHERE id = ", ""], [Integer(id)])
  }

  function SelectByIdStatement(id: int): Statement {
    Statement(["SELECT * FROM student WHERE id = ", ""], [Integer(id)])
  }

  function SearchStatement(criteria: string, value: SqlValue): Statement {
    Statement(["SELECT * FROM student WHERE " + criteria + " = ", ""], [value])
  }

  function SortStatement(field: string, order: string): Statement {
    Statement(["SELECT * FROM student ORDER BY " + field + " " + order], [])
  }

  /** The placeholders come as `LIMIT ? OFFSET ?`, so the limit is bound first. */
  function PageStatement(offset: int, limit: int): Statement {
    Statement(["SELECT * FROM student ORDER BY id LIMIT ", " OFFSET ", ""], [Integer(limit), Integer(offset)])
  }

  /**
   * Student data reach the database only as bound parameters: the text of
   * every data-carrying statement is the same whatever the data, and it has
   * one placeholder per parameter.
   */
  lemma DataOnlyBound(a: StudentData, b: StudentData, i: int, j: int)
    ensures InsertStatement(a).Sql() == InsertStatement(b).Sql() && WellBound(InsertStatement(a))
    ensures UpdateStatement(a).Sql() == UpdateStatement(b).Sql() && WellBound(UpdateStatement(a))
    ensures DeleteStatement(i).Sql() == DeleteStatement(j).Sql() && WellBound(DeleteStatement(i))
    ensures SelectByIdStatement(i).Sql() == SelectByIdStatement(j).Sql() && WellBound(SelectByIdStatement(i))
    ensures PageStatement(i, j).Sql() == PageStatement(j, i).Sql() && WellBound(PageStatement(i, j))
  {
  }

  /**
   * The search and sort texts splice their column and order arguments in
   * verbatim, whatever they are; the value of a search is still bound.
   */
  lemma SpliceVerbatim(criteria: string, value: SqlValue, field: string, order: string)
    ensures Contains(SearchStatement(criteria, value).Sql(), criteria)
    ensures SearchStatement(criteria, value).params == [value]
    ensures Contains(SortStatement(field, order).Sql(), field + " " + order)
    ensures SortStatement(field, order).params == []
  {
    var search := SearchStatement(criteria, value).pieces;
    JoinCons(search[0], [""], "?");
    assert [search[0]] + [""] == search;
    ContainsMiddle("SELECT * FROM student WHERE ", criteria, " = " + "?" + "");
    assert "SELECT * FROM student WHERE " + criteria + (" = " + "?" + "") == search[0] + "?" + "";
    ContainsMiddle("SELECT * FROM student ORDER BY ", field + " " + order, "");
    assert "SELECT * FROM student ORDER BY " + (field + " " + order) + ""
      == "SELECT * FROM student ORDER BY " + field + " " + order;
  }

  // ---------------------------------------------------------------- the table

  /** Row ids strictly increase: the order of `ORDER BY id` and of the primary key. */
  predicate IdOrdered(rows: seq<StudentData>) {
    forall i, j :: 0 <= i < j < |rows| ==> rows[i].id < rows[j].id
  }

  predicate HasId(rows: seq<StudentData>, id: int) {
    exists k :: 0 <= k < |rows| && rows[k].id == id
  }

  /** The `CHECK` and `VARCHAR(50)` constraints of the `student` table. */
  predicate Admissible(d: StudentData) {
    |d.firstName| <= 50 && |d.lastName| <= 50 && d.age > 0 && 0 <= d.grade <= 2000
  }

  predicate AllAdmissible(rows: seq<StudentData>) {
    forall k :: 0 <= k < |rows| ==> Admissible(rows[k])
  }

  /**
   * What PostgreSQL stores into a `VARCHAR(n)` column: a text of at most `n`
   * characters as it is, a longer one cut to `n` characters when all it
   * loses are spaces, and nothing (an error) otherwise.
   */
  function Varchar(t: string, n: nat): (r: Option<string>)
    ensures r.Some? <==> forall k :: n <= k < |t| ==> t[k] == ' '
    ensures r.Some? ==> |r.value| <= n && |r.value| <= |t| && r.value == t[..|r.value|]
    ensures r.Some? ==> forall k :: |r.value| <= k < |t| ==> t[k] == ' '
    ensures |t| <= n ==> r == Some(t)
  {
    if |t| <= n then Some(t)
    else if forall k :: n <= k < |t| ==> t[k] == ' ' then Some(t[..n])
    else None
  }

  /**
   * The row an `INSERT` or `UPDATE` of `d` writes, or nothing when a
   * constraint of the `student` table refuses it: the names go through
   * their `VARCHAR(50)` columns, the id, age and grade are kept.
   */
  function StoredRow(d: StudentData): (r: Option<StudentData>)
    ensures r.Some? <==>
      Varchar(d.firstName, 50).Some? && Varchar(d.lastName, 50).Some? && d.age > 0 && 0 <= d.grade <= 2000
    ensures r.Some? ==> Admissible(r.value)
    ensures r.Some? ==> r.value == d.(firstName := Varchar(d.firstName, 50).value, lastName := Varchar(d.lastName, 50).value)
    ensures Admissible(d) ==> r == Some(d)
  {
    var first, last := Varchar(d.firstName, 50), Varchar(d.lastName, 50);
    if first.Some? && last.Some? && d.age > 0 && 0 <= d.grade <= 2000 then
      Some(d.(firstName := first.value, lastName := last.value))
    else
      None
  }

  /** A first name of 50 letters and two spaces is stored without the spaces; with a letter in their place it is refused. */
  lemma StoredRowTrims(d: StudentData)
    requires |d.firstName| == 52 && d.firstName[50..] == "  " && Admissible(d.(firstName := d.firstName[..50]))
    ensures StoredRow(d) == Some(d.(firstName := d.firstName[..50]))
    ensures StoredRow(d.(firstName := d.firstName[..51] + "x")) == None
  {
    assert d.firstName[50] == ' ' && d.firstName[51] == ' ';
    var e := d.(firstName := d.firstName[..51] + "x");
    assert e.firstName[51] == 'x';
  }

  /** `SELECT * FROM student WHERE id = ?`. */
  function FindById(rows: seq<StudentData>, id: int): (r: Option<StudentData>)
    ensures r.Some? ==> r.value in rows && r.value.id == id
    ensures r.None? ==> !HasId(rows, id)
  {
    if rows == [] then None
    else if rows[0].id == id then Some(rows[0])
    else
      var r := FindById(rows[1..], id);
      assert forall k :: 1 <= k < |rows| ==> rows[k] == rows[1..][k - 1];
      r
  }

  /** `UPDATE .. WHERE id = ?`: the row with that id takes the new fields. */
  function Replace(rows: seq<StudentData>, d: StudentData): (r: seq<StudentData>)
    ensures |r| == |rows|
    ensures forall k :: 0 <= k < |rows| ==> r[k] == (if rows[k].id == d.id then d else rows[k])
  {
    if rows == [] then []
    else [if rows[0].id == d.id then d else rows[0]] + Replace(rows[1..], d)
  }

  /** `DELETE .. WHERE id = ?`: every row with another id, in order. */
  function Remove(rows: seq<StudentData>, id: int): (r: seq<StudentData>)
    ensures forall x :: x in r <==> x in rows && x.id != id
    ensures |r| <= |rows|
  {
    if rows == [] then []
    else (if rows[0].id == id then [] else [rows[0]]) + Remove(rows[1..], id)
  }

  /** Whether the database can compare the column with the value at all. */
  predicate Comparable(col: Column, v: SqlValue) {
    if col == FirstNameColumn || col == LastNameColumn then v.Text? else !v.Text?
  }

  /** `col = ?` for one row, with `int` and `double` compared by value. */
  predicate Matches(d: StudentData, col: Column, v: SqlValue) {
    match col
    case IdColumn => NumericEquals(d.id * 100, v)
    case FirstNameColumn => v == Text(d.firstName)
    case LastNameColumn => v == Text(d.lastName)
    case AgeColumn => NumericEquals(d.age * 100, v)
    case GradeColumn => NumericEquals(d.grade, v)
  }

  /** Compares a number of hundredths with a numeric parameter. */
  predicate NumericEquals(hundredths: int, v: SqlValue) {
    match v
    case Integer(n) => hundredths == n * 100
    case Decimal(h) => hundredths == h
    case Text(_) => false
  }

  /** `SELECT * FROM student WHERE col = ?`; a type error comes back as no rows. */
  function Search(rows: seq<StudentData>, col: Column, v: SqlValue): (r: seq<StudentData>)
    ensures forall x :: x in r <==> x in rows && Comparable(col, v) && Matches(x, col, v)
    ensures |r| <= |rows|
  {
    if !Comparable(col, v) || rows == [] then []
    else
      var last := rows[|rows| - 1];
      Search(rows[..|rows| - 1], col, v) + (if Matches(last, col, v) then [last] else [])
  }

  /** `LIMIT limit OFFSET offset` of the id-ordered rows; a negative bound is an error, so no rows. */
  function Page(rows: seq<StudentData>, offset: int, limit: int): (r: seq<StudentData>)
    ensures offset < 0 || limit < 0 ==> r == []
    ensures 0 <= offset && 0 <= limit ==>
      |r| == (if |rows| <= offset then 0 else if |rows| - offset < limit then |rows| - offset else limit)
      && forall k :: 0 <= k < |r| ==> r[k] == rows[offset + k]
  {
    if offset < 0 || limit < 0 then []
    else
      var lo := if offset < |rows| then offset else |rows|;
      var hi := if offset + limit < |rows| then offset + limit else |rows|;
      rows[lo..hi]
  }

  /** Taking the pages of size `size` one after another gives back every row. */
  lemma {:induction false} PagesCover(rows: seq<StudentData>, size: int, from: nat)
    requires size >= 1 && from <= |rows|
    ensures Pages(rows, size, from) == rows[from..]
    decreases |rows| - from
  {
    if from < |rows| {
      var next := if from + size < |rows| then from + size else |rows|;
      PagesCover(rows, size, next);
      assert rows[from..] == rows[from..next] + rows[next..];
    }
  }

  /** The pages from row `from` on, concatenated. */
  function Pages(rows: seq<StudentData>, size: int, from: nat): seq<StudentData>
    requires size >= 1
    decreases |rows| - from
  {
    if from >= |rows| then [] else Page(rows, from, size) + Pages(rows, size, from + size)
  }

  function SumGrades(rows: seq<StudentData>): int {
    if rows == [] then 0 else SumGrades(rows[..|rows| - 1]) + rows[|rows| - 1].grade
  }

  /**
   * `SELECT AVG(grade)` read as a `double` and shown with two decimals: the
   * mean in hundredths, rounded half up; `NULL` on an empty table reads as 0.
   */
  function AverageGrade(rows: seq<StudentData>): (r: int)
    ensures rows == [] ==> r == 0
    ensures rows != [] ==> 2 * |rows| * r <= 2 * SumGrades(rows) + |rows| < 2 * |rows| * (r + 1)
  {
    if rows == [] then 0
    else
      var n := |rows|;
      var q := (2 * SumGrades(rows) + n) / (2 * n);
      DivBounds(2 * SumGrades(rows) + n, 2 * n);
      q
  }

  lemma DivBounds(a: int, b: int)
    requires b > 0
    ensures b * (a / b) <= a < b * (a / b + 1)
  {
  }

  /** An average of admissible grades is itself a grade. */
  lemma AverageWithinScale(rows: seq<StudentData>)
    requires AllAdmissible(rows)
    ensures 0 <= AverageGrade(rows) <= 2000
  {
    SumBounds(rows);
    if rows != [] {
      var n, r, s := |rows|, AverageGrade(rows), SumGrades(rows);
      if r > 2000 {
        MulMonotone(2 * n, 2001, r);
      } else if r < 0 {
        MulMonotone(2 * n, r + 1, 0);
      }
    }
  }

  lemma MulMonotone(a: int, b: int, c: int)
    requires a > 0 && b <= c
    ensures a * b <= a * c
  {
  }

  lemma {:induction false} SumBounds(rows: seq<StudentData>)
    requires AllAdmissible(rows)
    ensures 0 <= SumGrades(rows) <= 2000 * |rows|
  {
    if rows != [] {
      SumBounds(rows[..|rows| - 1]);
      assert Admissible(rows[|rows| - 1]);
    }
  }

  // ---------------------------------------------------------------- ORDER BY

  /** Text order by character code, as under the `C` collation; the sorts use only that it is total and transitive. */
  predicate TextLeq(a: string, b: string) {
    a == [] || (b != [] && (a[0] < b[0] || (a[0] == b[0] && TextLeq(a[1..], b[1..]))))
  }

  lemma {:induction false} TextLeqTotal(a: string, b: string)
    ensures TextLeq(a, b) || TextLeq(b, a)
  {
    if a != [] && b != [] && a[0] == b[0] {
      TextLeqTotal(a[1..], b[1..]);
    }
  }

  lemma {:induction false} TextLeqTrans(a: string, b: string, c: string)
    requires TextLeq(a, b) && TextLeq(b, c)
    ensures TextLeq(a, c)
  {
    if a != [] && b != [] && c != [] && a[0] == b[0] && b[0] == c[0] {
      TextLeqTrans(a[1..], b[1..], c[1..]);
    }
  }

  /** `x` may come before `y` in `ORDER BY col ASC`. */
  predicate KeyLeq(x: StudentData, y: StudentData, col: Column) {
    match col
    case IdColumn => x.id <= y.id
    case FirstNameColumn => TextLeq(x.firstName, y.firstName)
    case LastNameColumn => TextLeq(x.lastName, y.lastName)
    case AgeColumn => x.age <= y.age
    case GradeColumn => x.grade <= y.grade
  }

  predicate InOrder(x: StudentData, y: StudentData, col: Column, dir: Direction) {
    if dir == Asc then KeyLeq(x, y, col) else KeyLeq(y, x, col)
  }

  lemma InOrderTotal(x: StudentData, y: StudentData, col: Column, dir: Direction)
    ensures InOrder(x, y, col, dir) || InOrder(y, x, col, dir)
  {
    if col == FirstNameColumn {
      TextLeqTotal(x.firstName, y.firstName);
    } else if col == LastNameColumn {
      TextLeqTotal(x.lastName, y.lastName);
    }
  }

  lemma InOrderTrans(x: StudentData, y: StudentData, z: StudentData, col: Column, dir: Direction)
    requires InOrder(x, y, col, dir) && InOrder(y, z, col, dir)
    ensures InOrder(x, z, col, dir)
  {
    if col == FirstNameColumn {
      if dir == Asc {
        TextLeqTrans(x.firstName, y.firstName, z.firstName);
      } else {
        TextLeqTrans(z.firstName, y.firstName, x.firstName);
      }
    } else if col == LastNameColumn {
      if dir == Asc {
        TextLeqTrans(x.lastName, y.lastName, z.lastName);
      } else {
        TextLeqTrans(z.lastName, y.lastName, x.lastName);
      }
    }
  }

  /** The rows as `ORDER BY col dir` may return them. */
  predicate SortedBy(rows: seq<StudentData>, col: Column, dir: Direction) {
    forall i, j :: 0 <= i < j < |rows| ==> InOrder(rows[i], rows[j], col, dir)
  }

  /** Puts `x` before the first row it may precede. */
  function InsertInOrder(x: StudentData, rows: seq<StudentData>, col: Column, dir: Direction): seq<StudentData> {
    if rows == [] || InOrder(x, rows[0], col, dir) then [x] + rows
    else [rows[0]] + InsertInOrder(x, rows[1..], col, dir)
  }

  lemma {:induction false} InsertInOrderPermutes(x: StudentData, rows: seq<StudentData>, col: Column, dir: Direction)
    ensures multiset(InsertInOrder(x, rows, col, dir)) == multiset(rows) + multiset{x}
  {
    if rows != [] && !InOrder(x, rows[0], col, dir) {
      InsertInOrderPermutes(x, rows[1..], col, dir);
      assert rows == [rows[0]] + rows[1..];
    }
  }

  lemma {:induction false} InsertInOrderSorted(x: StudentData, rows: seq<StudentData>, col: Column, dir: Direction)
    requires SortedBy(rows, col, dir)
    ensures SortedBy(InsertInOrder(x, rows, col, dir), col, dir)
  {
    var r := InsertInOrder(x, rows, col, dir);
    if rows == [] {
    } else if InOrder(x, rows[0], col, dir) {
      forall j | 1 <= j < |r|
        ensures InOrder(r[0], r[j], col, dir)
      {
        if j > 1 {
          InOrderTrans(x, rows[0], rows[j - 1], col, dir);
        }
      }
    } else {
      var tail := rows[1..];
      InsertInOrderSorted(x, tail, col, dir);
      InsertInOrderPermutes(x, tail, col, dir);
      var t := InsertInOrder(x, tail, col, dir);
      InOrderTotal(x, rows[0], col, dir);
      forall j | 0 <= j < |t|
        ensures InOrder(rows[0], t[j], col, dir)
      {
        assert t[j] in multiset(t);
        if t[j] != x {
          assert t[j] in multiset(tail);
          var k :| 0 <= k < |tail| && tail[k] == t[j];
          assert rows[k + 1] == t[j];
        }
      }
      assert r == [rows[0]] + t;
    }
  }
}
