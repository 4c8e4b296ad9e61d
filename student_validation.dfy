/** The payload rules of the persistence-backed student service: the e-mail
    pattern and the ordered, short-circuiting chain of checks that rejects a
    payload with the first rule it breaks. */
module StudentValidation {
  import opened Wrappers
  import opened JavaText
  import opened Framework
  import opened Exceptions

  /** The fields of a `Student` entity other than its identifier; a field may
      be `null`. */
  datatype StudentData = StudentData(
    firstName: Option<string>,
    lastName: Option<string>,
    email: Option<string>,
    dateOfBirth: Option<Date>)

  const PayloadNullKey: string := "error.student.payload-null"
  const FirstNameRequiredKey: string := "error.student.first-name.required"
  const LastNameRequiredKey: string := "error.student.last-name.required"
  const EmailRequiredKey: string := "error.student.email.required"
  const EmailInvalidKey: string := "error.student.email.invalid"
  const DateOfBirthRequiredKey: string := "error.student.date-of-birth.required"

  /** A character of the class `[^@\s]`. */
  predicate IsEmailPartChar(c: char)
  {
    c != '@' && !IsRegexSpace(c)
  }

  /** A word of `[^@\s]+`. */
  predicate IsEmailPart(s: string)
  {
    s != [] && forall i :: 0 <= i < |s| ==> IsEmailPartChar(s[i])
  }

  /** The language of `^[^@\s]+@[^@\s]+\.[^@\s]+$`: a local part, `@`, a
      domain, `.` and a last part, none of the three parts empty or holding
      `@` or white space. */
  ghost predicate InEmailLanguage(s: string)
  {
    exists local, domain, tld ::
      IsEmailPart(local) && IsEmailPart(domain) && IsEmailPart(tld) &&
      s == local + "@" + domain + "." + tld
  }

  /** `EMAIL_PATTERN.matcher(s).matches()`, decided directly: no white space,
      exactly one `@`, not at the start, and a `.` after it with at least one
      character between them and one after it. */
  predicate MatchesEmailPattern(s: string)
    ensures MatchesEmailPattern(s) ==> |s| >= 5
  {
    && (forall i | 0 <= i < |s| :: !IsRegexSpace(s[i]))
    && exists a | 0 < a < |s| ::
         && s[a] == '@'
         && (forall i | 0 <= i < |s| && i != a :: s[i] != '@')
         && (exists d | a + 1 < d < |s| - 1 :: s[d] == '.')
  }

  /** The direct decision agrees with the pattern's language, both ways. */
  lemma MatchesEmailPatternIff(s: string)
    ensures MatchesEmailPattern(s) <==> InEmailLanguage(s)
  {
    if MatchesEmailPattern(s) {
      var a :| 0 < a < |s| && s[a] == '@'
        && (forall i | 0 <= i < |s| && i != a :: s[i] != '@')
        && (exists d | a + 1 < d < |s| - 1 :: s[d] == '.');
      var d :| a + 1 < d < |s| - 1 && s[d] == '.';
      var local, domain, tld := s[..a], s[a + 1..d], s[d + 1..];
      assert s == local + "@" + domain + "." + tld;
      forall i | 0 <= i < |local|
        ensures IsEmailPartChar(local[i])
      {
        assert local[i] == s[i];
      }
      forall i | 0 <= i < |domain|
        ensures IsEmailPartChar(domain[i])
      {
        assert domain[i] == s[a + 1 + i];
      }
      forall i | 0 <= i < |tld|
        ensures IsEmailPartChar(tld[i])
      {
        assert tld[i] == s[d + 1 + i];
      }
      assert IsEmailPart(local) && IsEmailPart(domain) && IsEmailPart(tld);
      assert InEmailLanguage(s);
    }
    if InEmailLanguage(s) {
      var local, domain, tld :| IsEmailPart(local) && IsEmailPart(domain) && IsEmailPart(tld) &&
        s == local + "@" + domain + "." + tld;
      var a := |local|;
      var d := |local| + 1 + |domain|;
      assert s[a] == '@' && s[d] == '.';
      forall i | 0 <= i < |s|
        ensures !IsRegexSpace(s[i]) && (i != a ==> s[i] != '@')
      {
        if i < a {
          assert s[i] == local[i];
        } else if a < i < d {
          assert s[i] == domain[i - a - 1];
        } else if d < i {
          assert s[i] == tld[i - d - 1];
        }
      }
    }
  }

  /** Every rule `student` breaks, in the order the checks run: the
      accumulate-all reading of the rules. A missing e-mail is not also
      reported as malformed. */
  function Violations(student: Option<StudentData>): seq<AppException>
  {
    match student
    case None => [InvalidStudentData("student", JNull, PayloadNullKey)]
    case Some(s) =>
      (if HasText(s.firstName) then []
       else [InvalidStudentData("firstName", FromString(s.firstName), FirstNameRequiredKey)])
      + (if HasText(s.lastName) then []
         else [InvalidStudentData("lastName", FromString(s.lastName), LastNameRequiredKey)])
      + (if !HasText(s.email) then [InvalidStudentData("email", FromString(s.email), EmailRequiredKey)]
         else if !MatchesEmailPattern(Trim(s.email.value))
         then [InvalidStudentData("email", JString(Trim(s.email.value)), EmailInvalidKey)]
         else [])
      + (if s.dateOfBirth.Some? then []
         else [InvalidStudentData("dateOfBirth", JNull, DateOfBirthRequiredKey)])
  }

  /** A payload every rule accepts. */
  predicate IsAcceptable(s: StudentData)
  {
    && HasText(s.firstName)
    && HasText(s.lastName)
    && HasText(s.email)
    && MatchesEmailPattern(Trim(s.email.value))
    && s.dateOfBirth.Some?
  }

  /** `validateStudent`: the checks run in order and the first failure is
      thrown, always as an `InvalidStudentDataException`. It passes exactly
      when the payload is present and every rule accepts it. */
  function ValidateStudent(student: Option<StudentData>): (r: Outcome<AppException>)
    ensures r.Pass? <==> student.Some? && IsAcceptable(student.value)
    ensures r.Fail? ==> r.error.InvalidStudentData?
  {
    if student.None? then
      Fail(InvalidStudentData("student", JNull, PayloadNullKey))
    else
      var s := student.value;
      if !HasText(s.firstName) then
        Fail(InvalidStudentData("firstName", FromString(s.firstName), FirstNameRequiredKey))
      else if !HasText(s.lastName) then
        Fail(InvalidStudentData("lastName", FromString(s.lastName), LastNameRequiredKey))
      else if !HasText(s.email) then
        Fail(InvalidStudentData("email", FromString(s.email), EmailRequiredKey))
      else
        var trimmedEmail := Trim(s.email.value);
        if !MatchesEmailPattern(trimmedEmail) then
          Fail(InvalidStudentData("email", JString(trimmedEmail), EmailInvalidKey))
        else if s.dateOfBirth.None? then
          Fail(InvalidStudentData("dateOfBirth", JNull, DateOfBirthRequiredKey))
        else
          Pass
  }

  /** Short-circuiting reports exactly the first rule that the
      accumulate-all reading finds broken, and passes when it finds none. */
  lemma ValidateReportsFirstViolation(student: Option<StudentData>)
    ensures ValidateStudent(student).Pass? <==> Violations(student) == []
    ensures ValidateStudent(student).Fail? ==> ValidateStudent(student).error == Violations(student)[0]
  {
  }

  /** The field a rejection names, for each way a payload can fail first. */
  lemma RejectionNamesFirstBrokenField(s: StudentData)
    ensures !HasText(s.firstName) ==>
      ValidateStudent(Some(s)) == Fail(InvalidStudentData("firstName", FromString(s.firstName), FirstNameRequiredKey))
    ensures HasText(s.firstName) && !HasText(s.lastName) ==>
      ValidateStudent(Some(s)) == Fail(InvalidStudentData("lastName", FromString(s.lastName), LastNameRequiredKey))
    ensures HasText(s.firstName) && HasText(s.lastName) && !HasText(s.email) ==>
      ValidateStudent(Some(s)) == Fail(InvalidStudentData("email", FromString(s.email), EmailRequiredKey))
    ensures HasText(s.firstName) && HasText(s.lastName) && HasText(s.email) && !MatchesEmailPattern(Trim(s.email.value)) ==>
      ValidateStudent(Some(s)) == Fail(InvalidStudentData("email", JString(Trim(s.email.value)), EmailInvalidKey))
    ensures (HasText(s.firstName) && HasText(s.lastName) && HasText(s.email) &&
             MatchesEmailPattern(Trim(s.email.value)) && s.dateOfBirth.None?) ==>
      ValidateStudent(Some(s)) == Fail(InvalidStudentData("dateOfBirth", JNull, DateOfBirthRequiredKey))
  {
  }

  /** The e-mail of an accepted payload, once trimmed, is in the pattern's
      language: one `@`, no white space, and a `.` after the `@` with text on
      both sides. */
  lemma AcceptedEmailInLanguage(s: StudentData)
    requires ValidateStudent(Some(s)).Pass?
    ensures s.email.Some? && InEmailLanguage(Trim(s.email.value))
  {
    MatchesEmailPatternIff(Trim(s.email.value));
  }

  /** A payload whose first name is the single control character U+0001. */
  const ControlNamePayload: StudentData :=
    StudentData(Some("\U{01}"), Some("Doe"), Some("a@b.c"), Some(Date(2000, 1, 1)))

  /** A first name made only of control characters that the white-space test
      ignores passes validation although it trims to the empty string. */
  lemma ControlCharacterNameAccepted()
    ensures ValidateStudent(Some(ControlNamePayload)).Pass?
    ensures Trim(ControlNamePayload.firstName.value) == []
  {
    assert !IsJavaWhitespace("Doe"[0]);
    assert !IsJavaWhitespace("a@b.c"[0]);
    TrimOfPrintable("a@b.c");
    assert MatchesEmailPattern("a@b.c") by {
      assert "a@b.c"[1] == '@' && "a@b.c"[3] == '.';
    }
    TrimEmptyIff("\U{01}");
  }
}
