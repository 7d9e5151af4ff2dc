/**
 * The data-access object over the `student` table. The table is a field the
 * methods reassign: the rows in id order and the next value of the `SERIAL`
 * id sequence. Every query that reads a result set row by row is a loop.
 */
module StudentDaoModel {
  import opened Wrappers
  import opened JavaText
  import opened StudentModel
  import opened Sql

  class StudentDao {
    var rows: seq<StudentData>
    var nextId: int

    /** Ids are fresh, increasing and below the sequence; every row meets the table's constraints. */
    predicate Valid()
      reads this
    {
      1 <= nextId && IdOrdered(rows) && AllAdmissible(rows)
      && forall k :: 0 <= k < |rows| ==> 1 <= rows[k].id < nextId
    }

    /** An empty, freshly created table. */
    constructor ()
      ensures Valid() && rows == [] && nextId == 1
    {
      rows := [];
      nextId := 1;
    }

    /**
     * `addStudent`: the `INSERT` takes the next id of the sequence, which is
     * spent even when a constraint then rejects the row; past the largest
     * `int` the sequence itself fails. The row stored is `StoredRow(s)`.
     */
    method AddStudent(s: StudentData) returns (ok: bool)
      requires Valid()
      modifies this
      ensures Valid()
      ensures ok <==> StoredRow(s).Some? && old(nextId) <= INT_MAX
      ensures ok ==> rows == old(rows) + [StoredRow(s).value.(id := old(nextId))]
      ensures !ok ==> rows == old(rows)
      ensures nextId == if old(nextId) <= INT_MAX then old(nextId) + 1 else old(nextId)
      ensures (rows, nextId, ok) == AddOutcome(old(rows), old(nextId), s)
    {
      if nextId > INT_MAX {
        return false;
      }
      var id := nextId;
      nextId := nextId + 1;
      var row := StoredRow(s);
      if row.None? {
        return false;
      }
      rows := rows + [row.value.(id := id)];
      ok := true;
    }

    /** `updateStudent`: true exactly when a row has the id and the new fields pass the constraints; that row becomes `StoredRow(s)`. */
    method UpdateStudent(s: StudentData) returns (ok: bool)
      requires Valid()
      modifies this
      ensures Valid() && nextId == old(nextId)
      ensures ok <==> HasId(old(rows), s.id) && StoredRow(s).Some?
      ensures ok ==> rows == Replace(old(rows), StoredRow(s).value)
      ensures !ok ==> rows == old(rows)
    {
      var found := GetStudentById(s.id);
      var row := StoredRow(s);
      if found.None? || row.None? {
        return false;
      }
      ReplaceKeepsTable(rows, row.value, nextId);
      rows := Replace(rows, row.value);
      ok := true;
    }

    /** `deleteStudent`: true exactly when a row had the id; that row is gone. */
    method DeleteStudent(id: int) returns (ok: bool)
      requires Valid()
      modifies this
      ensures Valid() && nextId == old(nextId)
      ensures ok <==> HasId(old(rows), id)
      ensures rows == Remove(old(rows), id) && !HasId(rows, id)
    {
      var found := GetStudentById(id);
      RemoveKeepsTable(rows, id, nextId);
      rows := Remove(rows, id);
      ok := found.Some?;
    }

    /** `getStudentById`: reads the result set until the first row with the id. */
    method GetStudentById(id: int) returns (r: Option<StudentData>)
      ensures r == FindById(rows, id)
    {
      var i := 0;
      while i < |rows| && rows[i].id != id
        invariant 0 <= i <= |rows|
        invariant FindById(rows, id) == FindById(rows[i..], id)
      {
        assert rows[i..][1..] == rows[i + 1..];
        i := i + 1;
      }
      if i == |rows| {
        r := None;
      } else {
        r := Some(rows[i]);
      }
    }

    /** `getAllStudents`: every row, in id order. */
    method GetAllStudents() returns (r: seq<StudentData>)
      ensures r == rows
    {
      r := [];
      var i := 0;
      while i < |rows|
        invariant 0 <= i <= |rows| && r == rows[..i]
      {
        r := r + [rows[i]];
        i := i + 1;
      }
    }

    /**
     * `searchStudents`: the rows whose column equals the value. The query has no
     * `ORDER BY`; the model lists the matches in table order.
     */
    method SearchStudents(col: Column, v: SqlValue) returns (r: seq<StudentData>)
      ensures forall x :: x in r <==> x in rows && Comparable(col, v) && Matches(x, col, v)
      ensures r == Search(rows, col, v)
    {
      r := [];
      if !Comparable(col, v) {
        return;
      }
      var i := 0;
      while i < |rows|
        invariant 0 <= i <= |rows| && r == Search(rows[..i], col, v)
      {
        assert rows[..i + 1][..i] == rows[..i];
        if Matches(rows[i], col, v) {
          r := r + [rows[i]];
        }
        i := i + 1;
      }
      assert rows[..|rows|] == rows;
    }

    /** `sortStudents`: every row once, in the order the column and direction ask for. */
    method SortStudents(col: Column, dir: Direction) returns (r: seq<StudentData>)
      ensures SortedBy(r, col, dir)
      ensures multiset(r) == multiset(rows)
    {
      r := [];
      var i := 0;
      while i < |rows|
        invariant 0 <= i <= |rows|
        invariant SortedBy(r, col, dir)
        invariant multiset(r) == multiset(rows[..i])
      {
        InsertInOrderSorted(rows[i], r, col, dir);
        InsertInOrderPermutes(rows[i], r, col, dir);
        assert rows[..i + 1] == rows[..i] + [rows[i]];
        r := InsertInOrder(rows[i], r, col, dir);
        i := i + 1;
      }
      assert rows[..|rows|] == rows;
    }

    /** `getStudentsPaginated`: at most `limit` rows, skipping the first `offset`. */
    method GetStudentsPaginated(offset: int, limit: int) returns (r: seq<StudentData>)
      ensures r == Page(rows, offset, limit)
    {
      r := [];
      if offset < 0 || limit < 0 || offset >= |rows| {
        return;
      }
      var i := offset;
      while i < |rows| && i < offset + limit
        invariant offset <= i <= |rows| && i <= offset + limit
        invariant r == rows[offset..i]
      {
        assert rows[offset..i + 1] == rows[offset..i] + [rows[i]];
        r := r + [rows[i]];
        i := i + 1;
      }
      assert i == if offset + limit < |rows| then offset + limit else |rows|;
    }

    /** `getStudentCount`: `SELECT COUNT(*)`. */
    method GetStudentCount() returns (n: int)
      ensures n == |rows|
    {
      n := |rows|;
    }

    /** `getAverageGrade` as the statistics show it: the mean grade in hundredths, 0 for no rows. */
    method GetAverageGrade() returns (a: int)
      requires Valid()
      ensures a == AverageGrade(rows) && 0 <= a <= 2000
    {
      AverageWithinScale(rows);
      a := AverageGrade(rows);
    }
  }

  lemma ReplaceKeepsTable(rows: seq<StudentData>, s: StudentData, nextId: int)
    requires IdOrdered(rows) && AllAdmissible(rows) && Admissible(s)
    requires forall k :: 0 <= k < |rows| ==> 1 <= rows[k].id < nextId
    ensures var r := Replace(rows, s);
      IdOrdered(r) && AllAdmissible(r) && forall k :: 0 <= k < |r| ==> 1 <= r[k].id < nextId
  {
  }

  lemma RemoveKeepsTable(rows: seq<StudentData>, id: int, nextId: int)
    requires IdOrdered(rows) && AllAdmissible(rows)
    requires forall k :: 0 <= k < |rows| ==> 1 <= rows[k].id < nextId
    ensures var r := Remove(rows, id);
      IdOrdered(r) && AllAdmissible(r) && forall k :: 0 <= k < |r| ==> 1 <= r[k].id < nextId
  {
    RemoveOrdered(rows, id);
    var r := Remove(rows, id);
    assert forall k :: 0 <= k < |r| ==> r[k] in rows;
  }

  lemma {:induction false} RemoveOrdered(rows: seq<StudentData>, id: int)
    requires IdOrdered(rows)
    ensures IdOrdered(Remove(rows, id))
  {
    if rows != [] {
      var tail := rows[1..];
      RemoveOrdered(tail, id);
      var t := Remove(tail, id);
      forall k | 0 <= k < |t|
        ensures rows[0].id < t[k].id
      {
        assert t[k] in tail;
        var j :| 0 <= j < |tail| && tail[j] == t[k];
        assert rows[j + 1] == t[k];
      }
    }
  }

  /** The rows, the next id and the result of one `addStudent`. */
  function AddOutcome(rows: seq<StudentData>, nextId: int, s: StudentData): (seq<StudentData>, int, bool) {
    if nextId > INT_MAX then (rows, nextId, false)
    else if StoredRow(s).Some? then (rows + [StoredRow(s).value.(id := nextId)], nextId + 1, true)
    else (rows, nextId + 1, false)
  }

  /** `addStudent` of each student in turn: the table it leaves and how many calls returned true. */
  function AddEach(rows: seq<StudentData>, nextId: int, students: seq<StudentData>): (seq<StudentData>, int, nat) {
    if students == [] then (rows, nextId, 0)
    else
      var before := AddEach(rows, nextId, students[..|students| - 1]);
      var after := AddOutcome(before.0, before.1, students[|students| - 1]);
      (after.0, after.1, if after.2 then before.2 + 1 else before.2)
  }

  /** How many of the students the table's constraints let through. */
  function CountStored(students: seq<StudentData>): nat {
    if students == [] then 0
    else CountStored(students[..|students| - 1]) + if StoredRow(students[|students| - 1]).Some? then 1 else 0
  }

  /**
   * The count is the number of rows added: the old rows stay in front, and
   * each inserted student comes with a fresh id, whatever id it carried.
   */
  lemma {:induction false} AddEachCount(rows: seq<StudentData>, nextId: int, students: seq<StudentData>)
    ensures var (r, n, c) := AddEach(rows, nextId, students);
      |r| == |rows| + c && c <= |students| && r[..|rows|] == rows
      && forall k :: |rows| <= k < |r| ==> nextId <= r[k].id < n
  {
    if students != [] {
      var init := students[..|students| - 1];
      AddEachCount(rows, nextId, init);
      AddEachNext(rows, nextId, init);
    }
  }

  lemma {:induction false} AddEachNext(rows: seq<StudentData>, nextId: int, students: seq<StudentData>)
    ensures var n := AddEach(rows, nextId, students).1;
      nextId <= n && (nextId <= INT_MAX + 1 ==> n == if nextId + |students| <= INT_MAX + 1 then nextId + |students| else INT_MAX + 1)
  {
    if students != [] {
      AddEachNext(rows, nextId, students[..|students| - 1]);
    }
  }

  /** While the id sequence lasts, exactly the students the constraints let through are counted. */
  lemma {:induction false} AddEachAdmissible(rows: seq<StudentData>, nextId: int, students: seq<StudentData>)
    requires nextId + |students| <= INT_MAX + 1
    ensures AddEach(rows, nextId, students).2 == CountStored(students)
  {
    if students != [] {
      var init := students[..|students| - 1];
      AddEachAdmissible(rows, nextId, init);
      AddEachNext(rows, nextId, init);
    }
  }
}
