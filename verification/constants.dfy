/**
 * The form validators: each returns a map from field name to an error message,
 * null when the field is acceptable. Lengths are Kotlin `String.length`, which
 * counts UTF-16 code units.
 */
module Constants {
  import opened Common

  const CourseNameMinLength := 10
  const CourseNameMaxLength := 63
  const CourseDescriptionMinLength := 10
  const CourseDescriptionMaxLength := 500
  const ScheduleMaxLength := 100
  const ProfessorNameMaxLength := 255
  const StudentNameMinLength := 2
  const StudentNameMaxLength := 255
  const PhoneMinLength := 7
  const PhoneMaxLength := 15

  /** Kotlin's `Char.isWhitespace()`: Java's `Character.isWhitespace` or `Character.isSpaceChar`. */
  predicate IsWhitespace(c: char) {
    var n := c as int;
    || 9 <= n <= 13 || 0x1C <= n <= 0x20 || n == 0xA0 || n == 0x1680
    || 0x2000 <= n <= 0x200A || n == 0x2028 || n == 0x2029 || n == 0x202F
    || n == 0x205F || n == 0x3000
  }

  /** Kotlin's `isBlank()`: empty or whitespace only. */
  predicate IsBlank(s: string) {
    forall i | 0 <= i < |s| :: IsWhitespace(s[i])
  }

  /** Kotlin's `String.length`: a code point above U+FFFF takes two UTF-16 units. */
  function Utf16Length(s: string): (n: nat)
    ensures |s| <= n <= 2 * |s|
  {
    if |s| == 0 then 0 else (if s[0] as int > 0xFFFF then 2 else 1) + Utf16Length(s[1..])
  }

  /** `\s` in a Java regular expression: `[ \t\n\x0B\f\r]`. */
  predicate IsRegexSpace(c: char) {
    c == ' ' || c == '\t' || c == '\n' || c as int == 0x0B || c as int == 0x0C || c == '\r'
  }

  /** `^[\p{L}\s]+$`, with the Unicode letter class `\p{L}` given as `isLetter`. */
  predicate MatchesNamePattern(s: string, isLetter: char -> bool) {
    |s| > 0 && forall i | 0 <= i < |s| :: isLetter(s[i]) || IsRegexSpace(s[i])
  }

  /** `^[0-9]+$`. */
  predicate MatchesPhonePattern(s: string) {
    |s| > 0 && forall i | 0 <= i < |s| :: '0' <= s[i] <= '9'
  }

  function CourseNameError(name: string): (r: Option<string>)
    ensures r.None? <==> !IsBlank(name) && CourseNameMinLength <= Utf16Length(name) <= CourseNameMaxLength
    ensures IsBlank(name) ==> r == Some("Course name is required")
  {
    if IsBlank(name) then Some("Course name is required")
    else if Utf16Length(name) < CourseNameMinLength then Some("Course name must be at least 10 characters")
    else if Utf16Length(name) > CourseNameMaxLength then Some("Course name must not exceed 63 characters")
    else None
  }

  function DescriptionError(description: string): (r: Option<string>)
    ensures r.None? <==>
      !IsBlank(description) && CourseDescriptionMinLength <= Utf16Length(description) <= CourseDescriptionMaxLength
    ensures IsBlank(description) ==> r == Some("Course description is required")
  {
    if IsBlank(description) then Some("Course description is required")
    else if Utf16Length(description) < CourseDescriptionMinLength then Some("Description must be at least 10 characters")
    else if Utf16Length(description) > CourseDescriptionMaxLength then Some("Description must not exceed 500 characters")
    else None
  }

  function ScheduleError(schedule: string): (r: Option<string>)
    ensures r.None? <==> !IsBlank(schedule) && Utf16Length(schedule) <= ScheduleMaxLength
    ensures IsBlank(schedule) ==> r == Some("Schedule is required")
  {
    if IsBlank(schedule) then Some("Schedule is required")
    else if Utf16Length(schedule) > ScheduleMaxLength then Some("Schedule must not exceed 100 characters")
    else None
  }

  function ProfessorError(professor: string): (r: Option<string>)
    ensures r.None? <==> !IsBlank(professor) && Utf16Length(professor) <= ProfessorNameMaxLength
    ensures IsBlank(professor) ==> r == Some("Professor name is required")
  {
    if IsBlank(professor) then Some("Professor name is required")
    else if Utf16Length(professor) > ProfessorNameMaxLength then Some("Professor name must not exceed 255 characters")
    else None
  }

  /** `validateCourseInput`: one entry per field, always all four. */
  function ValidateCourseInput(name: string, description: string, schedule: string, professor: string)
    : (r: map<string, Option<string>>)
    ensures r.Keys == {"name", "description", "schedule", "professor"}
    ensures r["name"].None? <==> !IsBlank(name) && 10 <= Utf16Length(name) <= 63
    ensures r["description"].None? <==> !IsBlank(description) && 10 <= Utf16Length(description) <= 500
    ensures r["schedule"].None? <==> !IsBlank(schedule) && Utf16Length(schedule) <= 100
    ensures r["professor"].None? <==> !IsBlank(professor) && Utf16Length(professor) <= 255
  {
    var nameError := CourseNameError(name);
    var descriptionError := DescriptionError(description);
    var scheduleError := ScheduleError(schedule);
    var professorError := ProfessorError(professor);
    var r := map[
      "name" := nameError,
      "description" := descriptionError,
      "schedule" := scheduleError,
      "professor" := professorError
    ];
    assert r["name"] == nameError && r["description"] == descriptionError;
    assert r["schedule"] == scheduleError && r["professor"] == professorError;
    r
  }

  function StudentNameError(name: string, isLetter: char -> bool): (r: Option<string>)
    ensures r.None? <==>
      && !IsBlank(name)
      && StudentNameMinLength <= Utf16Length(name) <= StudentNameMaxLength
      && MatchesNamePattern(name, isLetter)
    ensures IsBlank(name) ==> r == Some("Name is required")
  {
    if IsBlank(name) then Some("Name is required")
    else if Utf16Length(name) < StudentNameMinLength || Utf16Length(name) > StudentNameMaxLength then
      Some("Name must be between 2 and 255 characters")
    else if !MatchesNamePattern(name, isLetter) then Some("Name can only contain letters and spaces")
    else None
  }

  function EmailError(email: string, emailMatches: string -> bool): (r: Option<string>)
    ensures r.None? <==> !IsBlank(email) && emailMatches(email)
    ensures IsBlank(email) ==> r == Some("Email is required")
  {
    if IsBlank(email) then Some("Email is required")
    else if !emailMatches(email) then Some("Please enter a valid email address")
    else None
  }

  function PhoneError(phone: string): (r: Option<string>)
    ensures r.None? <==>
      !IsBlank(phone) && PhoneMinLength <= Utf16Length(phone) <= PhoneMaxLength && MatchesPhonePattern(phone)
    ensures IsBlank(phone) ==> r == Some("Phone is required")
  {
    if IsBlank(phone) then Some("Phone is required")
    else if Utf16Length(phone) < PhoneMinLength || Utf16Length(phone) > PhoneMaxLength then
      Some("Phone number must be between 7 and 15 digits")
    else if !MatchesPhonePattern(phone) then Some("Phone number can only contain digits")
    else None
  }

  function CourseIdError(courseId: Option<int>): (r: Option<string>)
    ensures r.None? <==> courseId.Some? && courseId.value > 0
  {
    match courseId
    case None => Some("Course ID is required")
    case Some(id) => if id <= 0 then Some("Course ID must be a valid number") else None
  }

  /**
   * `validateStudentInput`: one entry per field, always all four. The e-mail
   * pattern (`Patterns.EMAIL_ADDRESS`) and the letter class are parameters.
   */
  function ValidateStudentInput(
    name: string, email: string, phone: string, courseId: Option<int>,
    isLetter: char -> bool, emailMatches: string -> bool
  ): (r: map<string, Option<string>>)
    ensures r.Keys == {"name", "email", "phone", "courseId"}
    ensures r["name"].None? <==>
      !IsBlank(name) && 2 <= Utf16Length(name) <= 255 && MatchesNamePattern(name, isLetter)
    ensures r["email"].None? <==> !IsBlank(email) && emailMatches(email)
    ensures r["phone"].None? <==> !IsBlank(phone) && 7 <= Utf16Length(phone) <= 15 && MatchesPhonePattern(phone)
    ensures r["courseId"].None? <==> courseId.Some? && courseId.value > 0
  {
    var nameError := StudentNameError(name, isLetter);
    var emailError := EmailError(email, emailMatches);
    var phoneError := PhoneError(phone);
    var courseIdError := CourseIdError(courseId);
    var r := map["name" := nameError, "email" := emailError, "phone" := phoneError, "courseId" := courseIdError];
    assert r["name"] == nameError && r["email"] == emailError;
    assert r["phone"] == phoneError && r["courseId"] == courseIdError;
    r
  }

  /** An accepted phone number is a string of ASCII digits, so its length is its digit count. */
  lemma {:induction false} AcceptedPhoneLength(phone: string)
    requires PhoneError(phone).None?
    ensures Utf16Length(phone) == |phone|
    ensures PhoneMinLength <= |phone| <= PhoneMaxLength
  {
    AsciiUtf16Length(phone);
  }

  lemma {:induction false} AsciiUtf16Length(s: string)
    requires forall i | 0 <= i < |s| :: s[i] as int <= 0xFFFF
    ensures Utf16Length(s) == |s|
    decreases |s|
  {
    if |s| > 0 {
      AsciiUtf16Length(s[1..]);
    }
  }
}
