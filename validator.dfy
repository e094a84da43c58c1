/**
 * Field validation of a candidate record: the add form's validator, which
 * reports every failing field, and the edit form's validator, which stops
 * at the first failing field.
 */
module Validator {
  import opened Wrappers
  import opened Strings
  import opened Records

  /** Why a field failed: it was empty, or its content breaks the field's format or range. */
  datatype Reason = Required | Malformed

  // ---------------------------------------------------------------------------
  // the format rules

  /** `/^\d+$/` */
  predicate IsStudentId(s: string) {
    |s| > 0 && AllDigits(s)
  }

  /** `/^[a-zA-Z\s]+$/` */
  predicate IsName(s: string) {
    |s| > 0 && forall i | 0 <= i < |s| :: IsLetter(s[i]) || IsSpace(s[i])
  }

  /** `/^\d{10}$/` */
  predicate IsPhone(s: string) {
    |s| == 10 && AllDigits(s)
  }

  /** The class `[^\s@]`. */
  predicate EmailChar(c: char) {
    c != '@' && !IsSpace(c)
  }

  /** `[^\s@]+` */
  predicate IsEmailPart(t: string) {
    |t| > 0 && forall i | 0 <= i < |t| :: EmailChar(t[i])
  }

  /** `[^\s@]+\.[^\s@]+`: no `@` or whitespace, and a dot with text on both sides. */
  predicate IsDomainPart(t: string) {
    IsEmailPart(t) && exists p | 0 < p < |t| - 1 :: t[p] == '.'
  }

  /** The position of the first `@` in `s`, or `|s|` when there is none. */
  function FirstAt(s: string): (a: nat)
    ensures a <= |s|
    ensures a < |s| ==> s[a] == '@'
    ensures forall k | 0 <= k < a :: s[k] != '@'
  {
    if s == [] || s[0] == '@' then 0 else 1 + FirstAt(s[1..])
  }

  /** `/^[^\s@]+@[^\s@]+\.[^\s@]+$/`, checked by splitting at the `@`. */
  predicate IsEmail(s: string) {
    var a := FirstAt(s);
    a < |s| && IsEmailPart(s[..a]) && IsDomainPart(s[a + 1..])
  }

  /**
   * The same pattern read position by position: `s` has an `@` at `a` and a
   * dot at `p`, with at least one character before the `@`, between the two
   * and after the dot, and no other `@` and no whitespace anywhere.
   */
  predicate EmailAt(s: string, a: int, p: int) {
    && 0 < a && a + 1 < p < |s| - 1
    && s[a] == '@' && s[p] == '.'
    && forall k | 0 <= k < |s| && k != a :: EmailChar(s[k])
  }

  /** Splitting at the first `@` accepts exactly the strings the pattern matches. */
  lemma EmailSplitMatchesPattern(s: string)
    ensures IsEmail(s) <==> exists a, p :: EmailAt(s, a, p)
  {
    var a := FirstAt(s);
    if IsEmail(s) {
      var d := s[a + 1..];
      var q :| 0 < q < |d| - 1 && d[q] == '.';
      forall k | 0 <= k < |s| && k != a ensures EmailChar(s[k]) {
        if k < a { assert s[k] == s[..a][k]; } else { assert s[k] == d[k - a - 1]; }
      }
      assert EmailAt(s, a, a + 1 + q);
    }
    if a', p :| EmailAt(s, a', p) {
      assert a == a';
      assert s[a + 1..][p - a - 1] == '.';
    }
  }

  /** An address put together as `local@host.tld` from three well-formed parts is accepted. */
  lemma EmailFromParts(local: string, host: string, tld: string)
    requires IsEmailPart(local) && IsEmailPart(host) && IsEmailPart(tld)
    ensures IsEmail(local + "@" + host + "." + tld)
  {
    var s := local + "@" + host + "." + tld;
    var a, p := |local|, |local| + 1 + |host|;
    forall k | 0 <= k < |s| && k != a ensures EmailChar(s[k]) {
      if k < a {
        assert s[k] == local[k];
      } else if k < p {
        assert s[k] == host[k - a - 1];
      } else if p < k {
        assert s[k] == tld[k - p - 1];
      }
    }
    assert EmailAt(s, a, p);
    EmailSplitMatchesPattern(s);
  }

  // ---------------------------------------------------------------------------
  // the seven rules

  /** The field is empty: an empty string, or no number in the semester or GPA field. */
  predicate IsBlank(d: Student, f: Field) {
    match f
    case Id => d.id == []
    case Name => d.name == []
    case Email => d.email == []
    case Phone => d.phone == []
    case Course => d.course == []
    case Semester => d.semester.None?
    case Gpa => d.gpa.None?
  }

  /** The rule a field has to satisfy; a GPA is counted in hundredths. */
  predicate Rule(d: Student, f: Field) {
    match f
    case Id => IsStudentId(d.id)
    case Name => IsName(d.name)
    case Email => IsEmail(d.email)
    case Phone => IsPhone(d.phone)
    case Course => d.course != []
    case Semester => d.semester.Some? && 1 <= d.semester.value <= 8
    case Gpa => d.gpa.Some? && 0 <= d.gpa.value <= 400
  }

  /** A candidate record is valid when every field satisfies its rule. */
  predicate IsValid(d: Student) {
    forall f :: Rule(d, f)
  }

  /**
   * The verdict of the add form on one field: no error when the rule holds,
   * the "required" error when the field is empty, the format or range error otherwise.
   */
  function Check(d: Student, f: Field): Option<Reason> {
    match f
    case Id =>
      if d.id == [] then Some(Required) else if !IsStudentId(d.id) then Some(Malformed) else None
    case Name =>
      if d.name == [] then Some(Required) else if !IsName(d.name) then Some(Malformed) else None
    case Email =>
      if d.email == [] then Some(Required) else if !IsEmail(d.email) then Some(Malformed) else None
    case Phone =>
      if d.phone == [] then Some(Required) else if !IsPhone(d.phone) then Some(Malformed) else None
    case Course =>
      if d.course == [] then Some(Required) else None
    case Semester =>
      (match d.semester
       case None => Some(Required)
       case Some(n) => if n < 1 || n > 8 then Some(Malformed) else None)
    case Gpa =>
      (match d.gpa
       case None => Some(Required)
       case Some(h) => if h < 0 || h > 400 then Some(Malformed) else None)
  }

  /**
   * A field passes exactly when its rule holds, and it fails with the
   * "required" reason exactly when it is empty.
   */
  lemma CheckMeaning(d: Student, f: Field)
    ensures Check(d, f) == None <==> Rule(d, f)
    ensures Check(d, f) == Some(Required) <==> IsBlank(d, f)
  {
  }

  /** A record is valid exactly when each of its seven fields passes its rule. */
  lemma AllRules(d: Student)
    ensures IsValid(d) <==> Rule(d, Id) && Rule(d, Name) && Rule(d, Email) && Rule(d, Phone)
                            && Rule(d, Course) && Rule(d, Semester) && Rule(d, Gpa)
  {
  }

  /** The position of a field in the order in which both forms check the fields. */
  function Rank(f: Field): nat {
    match f
    case Id => 0
    case Name => 1
    case Email => 2
    case Phone => 3
    case Course => 4
    case Semester => 5
    case Gpa => 6
  }

  /** The error shown beside field `f`, if any. */
  function ErrorOf(errors: map<Field, Reason>, f: Field): Option<Reason> {
    if f in errors then Some(errors[f]) else None
  }

  // ---------------------------------------------------------------------------
  // the two validators

  /**
   * One block of the add form's validator: field `f` is checked, its error
   * (if any) is recorded beside it, and the running verdict is cleared when
   * it fails. Slots of the other fields are left alone.
   */
  method CheckField(d: Student, f: Field, errors: map<Field, Reason>, isValid: bool)
    returns (errors': map<Field, Reason>, isValid': bool)
    ensures ErrorOf(errors', f) == (if Check(d, f) == None then ErrorOf(errors, f) else Check(d, f))
    ensures forall g | g != f :: ErrorOf(errors', g) == ErrorOf(errors, g)
    ensures isValid' <==> isValid && Rule(d, f)
  {
    CheckMeaning(d, f);
    errors', isValid' := errors, isValid;
    match f
    case Id =>
      if d.id == [] {
        errors', isValid' := errors[Id := Required], false;
      } else if !IsStudentId(d.id) {
        errors', isValid' := errors[Id := Malformed], false;
      }
    case Name =>
      if d.name == [] {
        errors', isValid' := errors[Name := Required], false;
      } else if !IsName(d.name) {
        errors', isValid' := errors[Name := Malformed], false;
      }
    case Email =>
      if d.email == [] {
        errors', isValid' := errors[Email := Required], false;
      } else if !IsEmail(d.email) {
        errors', isValid' := errors[Email := Malformed], false;
      }
    case Phone =>
      if d.phone == [] {
        errors', isValid' := errors[Phone := Required], false;
      } else if !IsPhone(d.phone) {
        errors', isValid' := errors[Phone := Malformed], false;
      }
    case Course =>
      if d.course == [] {
        errors', isValid' := errors[Course := Required], false;
      }
    case Semester =>
      if d.semester.None? {
        errors', isValid' := errors[Semester := Required], false;
      } else if d.semester.value < 1 || d.semester.value > 8 {
        errors', isValid' := errors[Semester := Malformed], false;
      }
    case Gpa =>
      if d.gpa.None? {
        errors', isValid' := errors[Gpa := Required], false;
      } else if d.gpa.value < 0 || d.gpa.value > 400 {
        errors', isValid' := errors[Gpa := Malformed], false;
      }
  }

  /**
   * The add form's validator: every field is checked in turn, an error is
   * recorded beside every failing field, and the verdict is false as soon
   * as one field fails.
   */
  method ValidateForm(d: Student) returns (isValid: bool, errors: map<Field, Reason>)
    ensures isValid <==> IsValid(d)
    ensures forall f :: ErrorOf(errors, f) == Check(d, f)
  {
    isValid := true;
    errors := map[];
    errors, isValid := CheckField(d, Id, errors, isValid);
    errors, isValid := CheckField(d, Name, errors, isValid);
    errors, isValid := CheckField(d, Email, errors, isValid);
    errors, isValid := CheckField(d, Phone, errors, isValid);
    errors, isValid := CheckField(d, Course, errors, isValid);
    errors, isValid := CheckField(d, Semester, errors, isValid);
    errors, isValid := CheckField(d, Gpa, errors, isValid);
    AllRules(d);
  }

  /**
   * A record with a stray `@` in the name, an email without `@` and a
   * five-digit phone number fails on exactly those three fields, each with
   * its format message, while the other four pass.
   */
  lemma ThreeFieldsRejected()
    ensures var d := Student("1001", "R@hul", "bad", "12345", "BCA", Some(4), Some(350));
      && Check(d, Name) == Some(Malformed) && Check(d, Email) == Some(Malformed)
      && Check(d, Phone) == Some(Malformed)
      && Check(d, Id) == None && Check(d, Course) == None
      && Check(d, Semester) == None && Check(d, Gpa) == None
  {
    var d := Student("1001", "R@hul", "bad", "12345", "BCA", Some(4), Some(350));
    assert !IsLetter(d.name[1]) && !IsSpace(d.name[1]);
  }

  /**
   * The edit form's validator: the fields are checked in the fixed order and
   * the first failing one is returned; `None` means the record passed.
   */
  function ValidateEditForm(d: Student): (r: Option<Field>)
    ensures r == None <==> IsValid(d)
    ensures r != None ==> Check(d, r.value) != None && forall g | Rank(g) < Rank(r.value) :: Check(d, g) == None
  {
    AllRules(d);
    if d.id == [] || !IsStudentId(d.id) then Some(Id)
    else if d.name == [] || !IsName(d.name) then Some(Name)
    else if d.email == [] || !IsEmail(d.email) then Some(Email)
    else if d.phone == [] || !IsPhone(d.phone) then Some(Phone)
    else if d.course == [] then Some(Course)
    else if d.semester.None? || d.semester.value < 1 || d.semester.value > 8 then Some(Semester)
    else if d.gpa.None? || d.gpa.value < 0 || d.gpa.value > 400 then Some(Gpa)
    else None
  }

  // ---------------------------------------------------------------------------
  // messages

  /** The message the add form shows beside a failing field. */
  function Message(f: Field, r: Reason): string {
    match (f, r)
    case (Id, Required) => "Student ID is required"
    case (Id, Malformed) => "Student ID must be numeric"
    case (Name, Required) => "Student Name is required"
    case (Name, Malformed) => "Name should contain only letters"
    case (Email, Required) => "Email is required"
    case (Email, Malformed) => "Please enter a valid email address"
    case (Phone, Required) => "Phone number is required"
    case (Phone, Malformed) => "Phone number must be exactly 10 digits"
    case (Course, _) => "Please select a course"
    case (Semester, Required) => "Semester is required"
    case (Semester, Malformed) => "Semester must be between 1 and 8"
    case (Gpa, Required) => "GPA is required"
    case (Gpa, Malformed) => "GPA must be between 0.0 and 4.0"
  }

  /** The alert the edit form shows for the first failing field. */
  function EditAlert(f: Field): string {
    match f
    case Id => "Please enter a valid Student ID (numbers only)"
    case Name => "Please enter a valid name (letters only)"
    case Email => "Please enter a valid email address"
    case Phone => "Phone number must be exactly 10 digits"
    case Course => "Please select a course"
    case Semester => "Semester must be between 1 and 8"
    case Gpa => "GPA must be between 0.0 and 4.0"
  }

  /**
   * Where the edit form's alert names the email, phone, semester or GPA
   * problem it uses the add form's format message, and for the course the
   * add form's only message.
   */
  lemma EditAlertsReuseMessages()
    ensures forall f | f in {Email, Phone, Semester, Gpa} :: EditAlert(f) == Message(f, Malformed)
    ensures EditAlert(Course) == Message(Course, Required)
    ensures EditAlert(Id) != Message(Id, Malformed) && EditAlert(Name) != Message(Name, Malformed)
  {
  }

  /** The add form's error beside the id field, and the edit form's alert, for a taken id. */
  const DuplicateIdMessage: string := "Student ID already exists!"

  /** The edit form's alert after a record was replaced. */
  const UpdatedMessage: string := "Student record updated successfully!"
}
