/**
 * The field validator `validate_inputs` of the intake form: the phone
 * number, the e-mail address and the date of joining, checked in that
 * order; the first failing check decides the error.
 */
module Validation {
  import opened Wrappers
  import opened Dates

  /** The date-of-joining entry of the form: missing, text, or a date object. */
  datatype DateField = NoDate | DateText(text: string) | DateValue(date: CalendarDate)

  /** The form record `form_data`, one field per key. */
  datatype EmployeeForm = EmployeeForm(
    name: string,
    employeeId: string,
    email: string,
    phoneNumber: string,
    department: string,
    dateOfJoining: DateField,
    role: string)

  datatype ValidationError = InvalidPhoneNumber | InvalidEmail | MissingDate | InvalidDateFormat | FutureDate

  /** The text `validate_inputs` returns for each error. */
  function Message(e: ValidationError): (m: string)
    ensures m != ""
  {
    match e
    case InvalidPhoneNumber => "Phone number must be a 10-digit numeric value."
    case InvalidEmail => "Invalid email format."
    case MissingDate => "Date of Joining cannot be empty."
    case InvalidDateFormat => "Invalid Date of Joining format. Please use YYYY-MM-DD."
    case FutureDate => "Date of Joining cannot be in the future."
  }

  /** Exactly ten characters, all digits. */
  predicate IsPhoneNumber(p: string) {
    |p| == 10 && forall i | 0 <= i < |p| :: IsAsciiDigit(p[i])
  }

  predicate IsAsciiAlnum(c: char) {
    ('a' <= c <= 'z') || ('A' <= c <= 'Z') || IsAsciiDigit(c)
  }

  /** `[a-zA-Z0-9_.+-]`, the characters before the `@`. */
  predicate IsLocalChar(c: char) {
    IsAsciiAlnum(c) || c == '_' || c == '.' || c == '+' || c == '-'
  }

  /** `[a-zA-Z0-9-]`, the characters between the `@` and the first dot. */
  predicate IsLabelChar(c: char) {
    IsAsciiAlnum(c) || c == '-'
  }

  /** `[a-zA-Z0-9-.]`, the characters after that dot. */
  predicate IsTailChar(c: char) {
    IsAsciiAlnum(c) || c == '-' || c == '.'
  }

  predicate AllLocal(s: string) { forall i | 0 <= i < |s| :: IsLocalChar(s[i]) }
  predicate AllLabel(s: string) { forall i | 0 <= i < |s| :: IsLabelChar(s[i]) }
  predicate AllTail(s: string) { forall i | 0 <= i < |s| :: IsTailChar(s[i]) }

  /**
   * One way for `t` to match `[..]+@[..]+\.[..]+` as a whole: the `@` at
   * index `a`, the escaped dot at index `b`.
   */
  ghost predicate BodyMatchAt(t: string, a: int, b: int) {
    && 0 < a && a + 1 < b && b + 1 < |t|
    && t[a] == '@' && t[b] == '.'
    && AllLocal(t[..a]) && AllLabel(t[a + 1..b]) && AllTail(t[b + 1..])
  }

  ghost predicate BodyMatches(t: string) {
    exists a, b :: BodyMatchAt(t, a, b)
  }

  /**
   * What `re.match` of the anchored e-mail pattern accepts: `$` matches at
   * the end of the text or before a newline that ends it.
   */
  ghost predicate EmailRegexMatches(s: string) {
    BodyMatches(s) || (|s| > 0 && s[|s| - 1] == '\n' && BodyMatches(s[..|s| - 1]))
  }

  /** The first index of `c` in `s`, or `|s|` when there is none. */
  function IndexOf(s: string, c: char): (k: nat)
    ensures k <= |s|
    ensures k < |s| ==> s[k] == c
    ensures forall j | 0 <= j < k :: s[j] != c
  {
    if |s| == 0 then 0
    else if s[0] == c then 0
    else 1 + IndexOf(s[1..], c)
  }

  /** The e-mail pattern matched left to right: the first `@`, then the first dot after it. */
  predicate ScanBody(t: string) {
    var a := IndexOf(t, '@');
    && 0 < a < |t| && AllLocal(t[..a])
    && var rest := t[a + 1..];
    var b := IndexOf(rest, '.');
    0 < b && b + 1 < |rest| && AllLabel(rest[..b]) && AllTail(rest[b + 1..])
  }

  predicate EmailMatches(s: string) {
    if |s| > 0 && s[|s| - 1] == '\n' then ScanBody(s[..|s| - 1]) else ScanBody(s)
  }

  /**
   * The left-to-right scan accepts exactly the texts the pattern matches:
   * no local character is `@` and no label character is a dot, so the
   * first `@` and the first dot after it are the only places to split.
   */
  lemma ScanBodyIsMatch(t: string)
    ensures ScanBody(t) <==> BodyMatches(t)
  {
    var a := IndexOf(t, '@');
    if ScanBody(t) {
      var rest := t[a + 1..];
      var b := IndexOf(rest, '.');
      assert t[a + 1..a + 1 + b] == rest[..b];
      assert t[a + 1 + b + 1..] == rest[b + 1..];
      assert BodyMatchAt(t, a, a + 1 + b);
    }
    if BodyMatches(t) {
      var a', b' :| BodyMatchAt(t, a', b');
      assert forall j | 0 <= j < a' :: t[j] != '@' by {
        forall j | 0 <= j < a' ensures t[j] != '@' {
          assert t[..a'][j] == t[j];
        }
      }
      assert a == a';
      var rest := t[a + 1..];
      var b := IndexOf(rest, '.');
      assert forall j | 0 <= j < b' - a - 1 :: rest[j] != '.' by {
        forall j | 0 <= j < b' - a - 1 ensures rest[j] != '.' {
          assert t[a + 1..b'][j] == rest[j];
        }
      }
      assert rest[b' - a - 1] == '.';
      assert b == b' - a - 1;
      assert rest[..b] == t[a + 1..b'];
      assert rest[b + 1..] == t[b' + 1..];
    }
  }

  /** The e-mail check of `validate_inputs` accepts exactly what the pattern matches. */
  lemma EmailMatchesIsRegex(s: string)
    ensures EmailMatches(s) <==> EmailRegexMatches(s)
  {
    ScanBodyIsMatch(s);
    if |s| > 0 && s[|s| - 1] == '\n' {
      ScanBodyIsMatch(s[..|s| - 1]);
    }
  }

  /** The outcome of `validate_inputs`: the error, and the form as the call leaves it. */
  datatype Checked = Checked(error: Option<ValidationError>, form: EmployeeForm)

  /**
   * `validate_inputs(form_data)` with `today` for `datetime.now().date()`.
   * A date given as text is replaced in the form by the parsed date before
   * it is compared with today.
   */
  function Validate(form: EmployeeForm, today: CalendarDate): (r: Checked)
    ensures r.form == form.(dateOfJoining := r.form.dateOfJoining)
    ensures r.form.dateOfJoining != form.dateOfJoining ==>
      && form.dateOfJoining.DateText? && r.form.dateOfJoining.DateValue?
      && ParseDate(form.dateOfJoining.text) == Some(r.form.dateOfJoining.date)
    ensures r.error.None? <==>
      && IsPhoneNumber(form.phoneNumber) && EmailRegexMatches(form.email)
      && r.form.dateOfJoining.DateValue? && !IsAfter(r.form.dateOfJoining.date, today)
  {
    EmailMatchesIsRegex(form.email);
    if !IsPhoneNumber(form.phoneNumber) then Checked(Some(InvalidPhoneNumber), form)
    else if !EmailMatches(form.email) then Checked(Some(InvalidEmail), form)
    else
      match form.dateOfJoining
      case NoDate => Checked(Some(MissingDate), form)
      case DateText(text) =>
        (match ParseDate(text)
         case None => Checked(Some(InvalidDateFormat), form)
         case Some(d) =>
           var normalized := form.(dateOfJoining := DateValue(d));
           if IsAfter(d, today) then Checked(Some(FutureDate), normalized) else Checked(None, normalized))
      case DateValue(d) =>
        if IsAfter(d, today) then Checked(Some(FutureDate), form) else Checked(None, form)
  }

  /** The phone check runs first: its error is returned exactly when the phone number is malformed, whatever the other fields hold, and the form is left as it was. */
  lemma PhoneRule(form: EmployeeForm, today: CalendarDate)
    ensures Validate(form, today).error == Some(InvalidPhoneNumber) <==> !IsPhoneNumber(form.phoneNumber)
    ensures !IsPhoneNumber(form.phoneNumber) ==> Validate(form, today).form == form
  {
  }

  /** With a valid phone number, the e-mail error is returned exactly when the pattern does not match. */
  lemma EmailRule(form: EmployeeForm, today: CalendarDate)
    requires IsPhoneNumber(form.phoneNumber)
    ensures Validate(form, today).error == Some(InvalidEmail) <==> !EmailRegexMatches(form.email)
    ensures !EmailRegexMatches(form.email) ==> Validate(form, today).form == form
  {
    EmailMatchesIsRegex(form.email);
  }

  /** Past the first two checks, a missing date is reported as such. */
  lemma MissingDateRule(form: EmployeeForm, today: CalendarDate)
    requires IsPhoneNumber(form.phoneNumber) && EmailRegexMatches(form.email)
    ensures Validate(form, today).error == Some(MissingDate) <==> form.dateOfJoining.NoDate?
  {
    EmailMatchesIsRegex(form.email);
  }

  /**
   * Past the first two checks, a date given as text is replaced by the
   * parsed date when it parses; otherwise the format error is returned
   * and the field keeps its text.
   */
  lemma DateTextRule(form: EmployeeForm, today: CalendarDate)
    requires IsPhoneNumber(form.phoneNumber) && EmailRegexMatches(form.email)
    requires form.dateOfJoining.DateText?
    ensures ParseDate(form.dateOfJoining.text).None? ==>
      Validate(form, today) == Checked(Some(InvalidDateFormat), form)
    ensures ParseDate(form.dateOfJoining.text).Some? ==>
      Validate(form, today).form == form.(dateOfJoining := DateValue(ParseDate(form.dateOfJoining.text).value))
  {
    EmailMatchesIsRegex(form.email);
  }

  /**
   * Past the first two checks, the future-date error is returned exactly
   * when the normalised date is strictly after today; today itself passes.
   */
  lemma FutureDateRule(form: EmployeeForm, today: CalendarDate)
    requires IsPhoneNumber(form.phoneNumber) && EmailRegexMatches(form.email)
    ensures Validate(form, today).error == Some(FutureDate) <==>
      Validate(form, today).form.dateOfJoining.DateValue? && IsAfter(Validate(form, today).form.dateOfJoining.date, today)
    ensures form.dateOfJoining == DateValue(today) ==> Validate(form, today).error.None?
  {
    EmailMatchesIsRegex(form.email);
  }

  /** A date written as `YYYY-MM-DD` is normalised to that date and, if it is not after today, passes. */
  lemma IsoTextNormalises(form: EmployeeForm, d: CalendarDate, today: CalendarDate)
    requires IsPhoneNumber(form.phoneNumber) && EmailRegexMatches(form.email)
    requires form.dateOfJoining == DateText(FormatDate(d))
    ensures Validate(form, today).form == form.(dateOfJoining := DateValue(d))
    ensures Validate(form, today).error.None? <==> !IsAfter(d, today)
  {
    ParseFormatRoundTrip(d);
    EmailMatchesIsRegex(form.email);
  }
}
