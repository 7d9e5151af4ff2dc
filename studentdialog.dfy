// The add/edit student dialog of the desktop client: the form check run on
// Save, the student built from the four text fields, and the rule that turns
// the button pressed into the dialog's result. Labels and focus are dropped;
// the widgets are reduced to the four strings they hold.

module StudentDialogModel {
  import opened Wrappers
  import opened JavaText
  import opened StudentModel
  import opened StudentServiceModel

  /** The texts of the first-name, last-name, age and grade fields. */
  datatype Form = Form(firstName: string, lastName: string, age: string, grade: string)

  /** The errors `validateForm` can show, in the order it checks for them. */
  datatype FormError =
    | FirstNameRequired | LastNameRequired | AgeRequired | GradeRequired
    | AgeNotNumber | AgeOutOfRange | GradeNotNumber | GradeOutOfRange

  /** The text of the error label for each error. */
  function Message(e: FormError): string {
    match e
    case FirstNameRequired => "First name is required"
    case LastNameRequired => "Last name is required"
    case AgeRequired => "Age is required"
    case GradeRequired => "Grade is required"
    case AgeNotNumber => "Age must be a valid number"
    case AgeOutOfRange => "Age must be between 1 and 150"
    case GradeNotNumber => "Grade must be a valid number"
    case GradeOutOfRange => "Grade must be between 0 and 20"
  }

  /** What `validateForm` decides: pass (error label hidden) or the error it shows. */
  datatype FormCheck = Passes | Fails(error: FormError)

  /** The message `createStudent` shows when a number does not parse. */
  const InvalidNumberFormat: string := "Invalid number format"

  /**
   * The check ladder of `validateForm` over the four trimmed texts and what
   * `Integer.parseInt` and `Double.parseDouble` make of the age and grade texts
   * (`None` for a NumberFormatException).
   */
  function Ladder(first: string, last: string, ageText: string, gradeText: string,
                  age: Option<int>, grade: Option<int>): (r: FormCheck)
  {
    if first == "" then Fails(FirstNameRequired)
    else if last == "" then Fails(LastNameRequired)
    else if ageText == "" then Fails(AgeRequired)
    else if gradeText == "" then Fails(GradeRequired)
    else match age
      case None => Fails(AgeNotNumber)
      case Some(a) =>
        if a <= 0 || a > 150 then Fails(AgeOutOfRange)
        else match grade
          case None => Fails(GradeNotNumber)
          case Some(g) =>
            if g < 0 || g > 2000 then Fails(GradeOutOfRange) else Passes
  }

  /** The parsed age, as `Integer.parseInt` of the trimmed age text. */
  function AgeOf(f: Form): Option<int> {
    ParseInt(Trim(f.age))
  }

  /** The parsed grade in hundredths, as `Double.parseDouble` of the trimmed grade text. */
  function GradeOf(f: Form): Option<int> {
    ParseGrade(Trim(f.grade))
  }

  /** `validateForm`: the trimmed fields are checked in order and the first failure is shown. */
  function ValidateForm(f: Form): (r: FormCheck)
  {
    Ladder(Trim(f.firstName), Trim(f.lastName), Trim(f.age), Trim(f.grade), AgeOf(f), GradeOf(f))
  }

  /** `createStudent`: the four-argument constructor over the trimmed fields (id stays 0). */
  function CreateStudent(f: Form): (r: Result<StudentData, string>)
    ensures r.Failure? ==> r.error == InvalidNumberFormat
  {
    match (ParseInt(Trim(f.age)), ParseGrade(Trim(f.grade)))
    case (Some(age), Some(grade)) =>
      Success(StudentData(0, Trim(f.firstName), Trim(f.lastName), age, grade))
    case _ => Failure(InvalidNumberFormat)
  }

  /** The result converter: a student only after Save and a passing check, else `null`. */
  function DialogResult(savePressed: bool, f: Form): (r: Option<StudentData>)
    ensures r.Some? ==> savePressed
  {
    if savePressed && ValidateForm(f).Passes? then
      match CreateStudent(f)
      case Success(s) => Some(s)
      case Failure(_) => None
    else None
  }

  /** The age is an `int` from 1 to 150. */
  predicate AgeAccepted(age: Option<int>) {
    age.Some? && 1 <= age.value <= 150
  }

  /** The grade is a number from 0 to 20 (0 to 2000 hundredths). */
  predicate GradeAccepted(grade: Option<int>) {
    grade.Some? && 0 <= grade.value <= 2000
  }

  /** The ladder's order: the first empty text, then the age, then the grade decides. */
  lemma LadderOrder(first: string, last: string, ageText: string, gradeText: string,
                    age: Option<int>, grade: Option<int>)
    ensures var r := Ladder(first, last, ageText, gradeText, age, grade);
      && (r == Fails(FirstNameRequired) <==> first == "")
      && (r == Fails(LastNameRequired) <==> first != "" && last == "")
      && (r == Fails(AgeRequired) <==> first != "" && last != "" && ageText == "")
      && (r == Fails(GradeRequired) <==> first != "" && last != "" && ageText != "" && gradeText == "")
    ensures var r := Ladder(first, last, ageText, gradeText, age, grade);
      var filled := first != "" && last != "" && ageText != "" && gradeText != "";
      && (r == Fails(AgeNotNumber) <==> filled && age.None?)
      && (r == Fails(AgeOutOfRange) <==> filled && age.Some? && !AgeAccepted(age))
      && (r == Fails(GradeNotNumber) <==> filled && AgeAccepted(age) && grade.None?)
      && (r == Fails(GradeOutOfRange) <==> filled && AgeAccepted(age) && grade.Some? && !GradeAccepted(grade))
      && (r == Passes <==> filled && AgeAccepted(age) && GradeAccepted(grade))
  {
  }

  /** The ladder passes exactly when every text is filled and both numbers are accepted. */
  lemma LadderPasses(first: string, last: string, ageText: string, gradeText: string,
                     age: Option<int>, grade: Option<int>)
    ensures Ladder(first, last, ageText, gradeText, age, grade) == Passes <==>
      first != "" && last != "" && ageText != "" && gradeText != "" && AgeAccepted(age) && GradeAccepted(grade)
  {
  }

  /**
   * `validateForm` over a form: an empty trimmed field is reported first (first name,
   * last name, age, grade in that order), then an age that is not an `int` or not in
   * 1..150, then a grade that is not a number or not in 0..20; the form passes exactly
   * when none of these applies.
   */
  lemma {:induction false} ValidateFormOrder(f: Form)
    ensures var r := ValidateForm(f);
      && (r == Fails(FirstNameRequired) <==> Trim(f.firstName) == "")
      && (r == Fails(LastNameRequired) <==> Trim(f.firstName) != "" && Trim(f.lastName) == "")
      && (r == Fails(AgeRequired) <==> Trim(f.firstName) != "" && Trim(f.lastName) != "" && Trim(f.age) == "")
      && (r == Fails(GradeRequired) <==>
            Trim(f.firstName) != "" && Trim(f.lastName) != "" && Trim(f.age) != "" && Trim(f.grade) == "")
    ensures var r := ValidateForm(f);
      var filled := Trim(f.firstName) != "" && Trim(f.lastName) != "" && Trim(f.age) != "" && Trim(f.grade) != "";
      && (r == Fails(AgeNotNumber) <==> filled && AgeOf(f).None?)
      && (r == Fails(AgeOutOfRange) <==> filled && AgeOf(f).Some? && !AgeAccepted(AgeOf(f)))
      && (r == Fails(GradeNotNumber) <==> filled && AgeAccepted(AgeOf(f)) && GradeOf(f).None?)
      && (r == Fails(GradeOutOfRange) <==>
            filled && AgeAccepted(AgeOf(f)) && GradeOf(f).Some? && !GradeAccepted(GradeOf(f)))
      && (r == Passes <==> filled && AgeAccepted(AgeOf(f)) && GradeAccepted(GradeOf(f)))
  {
    LadderOrder(Trim(f.firstName), Trim(f.lastName), Trim(f.age), Trim(f.grade), AgeOf(f), GradeOf(f));
  }

  /**
   * The dialog yields a student exactly when Save was pressed and the form passed;
   * then `createStudent` cannot hit its number-format branch, and the student has
   * id 0, the trimmed (and so non-blank) names, the parsed age in 1..150 and the
   * parsed grade in 0..20.
   */
  lemma {:induction false} DialogStudent(savePressed: bool, f: Form)
    ensures DialogResult(savePressed, f).Some? <==> savePressed && ValidateForm(f).Passes?
    ensures DialogResult(savePressed, f).Some? ==>
      && CreateStudent(f) == Success(DialogResult(savePressed, f).value)
      && DialogResult(savePressed, f).value
         == StudentData(0, Trim(f.firstName), Trim(f.lastName), AgeOf(f).value, GradeOf(f).value)
      && !IsBlank(Trim(f.firstName)) && !IsBlank(Trim(f.lastName))
      && 1 <= AgeOf(f).value <= 150 && 0 <= GradeOf(f).value <= 2000
  {
    if savePressed && ValidateForm(f).Passes? {
      DialogFields(savePressed, f);
      TrimTwice(f.firstName);
      TrimTwice(f.lastName);
    }
  }

  /** After Save on a passing form the dialog yields the student built from the trimmed fields. */
  lemma DialogFields(savePressed: bool, f: Form)
    requires savePressed && ValidateForm(f).Passes?
    ensures DialogResult(savePressed, f).Some?
    ensures CreateStudent(f) == Success(DialogResult(savePressed, f).value)
    ensures DialogResult(savePressed, f).value
         == StudentData(0, Trim(f.firstName), Trim(f.lastName), AgeOf(f).value, GradeOf(f).value)
    ensures Trim(f.firstName) != "" && Trim(f.lastName) != ""
    ensures 1 <= AgeOf(f).value <= 150 && 0 <= GradeOf(f).value <= 2000
  {
    LadderPasses(Trim(f.firstName), Trim(f.lastName), Trim(f.age), Trim(f.grade), AgeOf(f), GradeOf(f));
    var s := StudentData(0, Trim(f.firstName), Trim(f.lastName), AgeOf(f).value, GradeOf(f).value);
    assert CreateStudent(f) == Success(s);
    assert DialogResult(savePressed, f) == Some(s);
  }

  /**
   * The dialog admits age 150, which `StudentService.isValidStudent` refuses;
   * apart from that one age, every student the dialog yields is valid for the service.
   */
  lemma {:induction false} DialogAgainstService(savePressed: bool, f: Form)
    requires DialogResult(savePressed, f).Some?
    ensures IsValidStudent(DialogResult(savePressed, f)) <==> DialogResult(savePressed, f).value.age != 150
  {
    DialogStudent(savePressed, f);
  }
}
