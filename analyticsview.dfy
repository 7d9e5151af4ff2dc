// The grade histogram of the analytics screen: each student's grade falls into
// one of four bands (or none), and the chart shows how many students each band
// holds. Grades are in hundredths, so the band `6-10` is 600..1000.

module AnalyticsViewModel {
  import opened Wrappers
  import opened StudentModel

  /** The four keys of the distribution map. */
  datatype Band = ZeroToFive | SixToTen | ElevenToFifteen | SixteenToTwenty

  /** The key text each band is stored under. */
  function Label(b: Band): string {
    match b
    case ZeroToFive => "0-5"
    case SixToTen => "6-10"
    case ElevenToFifteen => "11-15"
    case SixteenToTwenty => "16-20"
  }

  /** Different bands have different keys, so a map keyed by `Band` is the map keyed by label. */
  lemma LabelsDistinct(b: Band, c: Band)
    ensures Label(b) == Label(c) <==> b == c
  {
    if b != c {
      assert Label(b)[0] != Label(c)[0] || |Label(b)| != |Label(c)| || Label(b)[1] != Label(c)[1];
    }
  }

  /** The band the `if`/`else if` ladder picks for a grade, or none. */
  function BandOf(grade: int): Option<Band> {
    if 0 <= grade <= 500 then Some(ZeroToFive)
    else if 600 <= grade <= 1000 then Some(SixToTen)
    else if 1100 <= grade <= 1500 then Some(ElevenToFifteen)
    else if 1600 <= grade <= 2000 then Some(SixteenToTwenty)
    else None
  }

  /** Only grades in the gaps between bands or outside 0..20 are counted nowhere. */
  lemma Unbanded(grade: int)
    ensures BandOf(grade).None? <==>
      (grade < 0 || 500 < grade < 600 || 1000 < grade < 1100 || 1500 < grade < 1600 || 2000 < grade)
  {
  }

  /** How many of the students have a grade in band `b`. */
  function CountIn(students: seq<StudentData>, b: Band): (n: nat)
    ensures n <= |students|
  {
    if students == [] then 0
    else
      var last := students[|students| - 1];
      CountIn(students[..|students| - 1], b) + (if BandOf(last.grade) == Some(b) then 1 else 0)
  }

  /** How many of the students have a grade in no band. */
  function Missed(students: seq<StudentData>): nat {
    if students == [] then 0
    else
      var last := students[|students| - 1];
      Missed(students[..|students| - 1]) + (if BandOf(last.grade).None? then 1 else 0)
  }

  /** The distribution the chart should show: every band with its count. */
  function Tally(students: seq<StudentData>): (d: map<Band, int>)
    ensures d.Keys == {ZeroToFive, SixToTen, ElevenToFifteen, SixteenToTwenty}
  {
    map[ZeroToFive := CountIn(students, ZeroToFive),
        SixToTen := CountIn(students, SixToTen),
        ElevenToFifteen := CountIn(students, ElevenToFifteen),
        SixteenToTwenty := CountIn(students, SixteenToTwenty)]
  }

  /** The sum of the four counts. */
  function Total(d: map<Band, int>): int
    requires ZeroToFive in d && SixToTen in d && ElevenToFifteen in d && SixteenToTwenty in d
  {
    d[ZeroToFive] + d[SixToTen] + d[ElevenToFifteen] + d[SixteenToTwenty]
  }

  /** One more student raises the count of its own band by one and leaves the other bands alone. */
  lemma {:induction false} TallySnoc(students: seq<StudentData>, s: StudentData)
    ensures forall b :: CountIn(students + [s], b) == CountIn(students, b) + (if BandOf(s.grade) == Some(b) then 1 else 0)
    ensures Missed(students + [s]) == Missed(students) + (if BandOf(s.grade).None? then 1 else 0)
  {
    assert (students + [s])[..|students|] == students;
  }

  /** A map with the four bands as keys is the display of its four values. */
  lemma FourBands(d: map<Band, int>)
    requires d.Keys == {ZeroToFive, SixToTen, ElevenToFifteen, SixteenToTwenty}
    ensures d == map[ZeroToFive := d[ZeroToFive], SixToTen := d[SixToTen],
                     ElevenToFifteen := d[ElevenToFifteen], SixteenToTwenty := d[SixteenToTwenty]]
  {
  }

  /** One pass of the loop: raising the count of the new student's band, if any, keeps the tally. */
  lemma TallyStep(students: seq<StudentData>, s: StudentData, before: map<Band, int>, after: map<Band, int>)
    requires before == Tally(students)
    requires BandOf(s.grade).None? ==> after == before
    requires BandOf(s.grade).Some? ==>
      after == before[BandOf(s.grade).value := before[BandOf(s.grade).value] + 1]
    ensures after == Tally(students + [s])
  {
    TallySnoc(students, s);
    FourBands(after);
  }

  /**
   * The counts add up to the number of students minus those whose grade lies in no band; so the sum never
   * exceeds the number of students.
   */
  lemma {:induction false} TallyTotal(students: seq<StudentData>)
    ensures Total(Tally(students)) + Missed(students) == |students|
    ensures Total(Tally(students)) <= |students|
  {
    if students != [] {
      var init := students[..|students| - 1];
      TallyTotal(init);
      TallySnoc(init, students[|students| - 1]);
      assert init + [students[|students| - 1]] == students;
    }
  }

  /** `calculateGradeDistribution`: four keys set to 0, then one increment per banded student. */
  method CalculateGradeDistribution(students: seq<StudentData>) returns (distribution: map<Band, int>)
    ensures distribution == Tally(students)
  {
    distribution := map[ZeroToFive := 0, SixToTen := 0, ElevenToFifteen := 0, SixteenToTwenty := 0];
    for i := 0 to |students|
      invariant distribution == Tally(students[..i])
    {
      var grade := students[i].grade;
      ghost var before := distribution;
      if 0 <= grade <= 500 {
        distribution := distribution[ZeroToFive := distribution[ZeroToFive] + 1];
      } else if 600 <= grade <= 1000 {
        distribution := distribution[SixToTen := distribution[SixToTen] + 1];
      } else if 1100 <= grade <= 1500 {
        distribution := distribution[ElevenToFifteen := distribution[ElevenToFifteen] + 1];
      } else if 1600 <= grade <= 2000 {
        distribution := distribution[SixteenToTwenty := distribution[SixteenToTwenty] + 1];
      }
      TallyStep(students[..i], students[i], before, distribution);
      assert students[..i + 1] == students[..i] + [students[i]];
    }
    assert students[..|students|] == students;
  }
}
