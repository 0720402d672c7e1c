/**
 * The intake session: the admin login flag, the working form and the
 * submit handler that runs the validator, the duplicate check and the
 * writer in turn, then resets the form.
 */
module Intake {
  import opened Wrappers
  import opened Dates
  import opened Validation
  import opened Credentials
  import opened Employees

  /** How one press of the submit button ends. */
  datatype SubmitOutcome =
    | FieldsMissing
    | Invalid(error: ValidationError)
    | DuplicateId
    | InsertFailed(message: string)
    | Added

  const SuccessMessage: string := "Employee added successfully!"

  /** A fresh form: blank texts, the given department and today's date. */
  function BlankForm(department: string, today: CalendarDate): EmployeeForm {
    EmployeeForm("", "", "", "", department, DateValue(today), "")
  }

  /** No form value is `""` or `None`. */
  predicate AllFieldsFilled(form: EmployeeForm) {
    && form.name != "" && form.employeeId != "" && form.email != ""
    && form.phoneNumber != "" && form.department != "" && form.role != ""
    && form.dateOfJoining != NoDate && form.dateOfJoining != DateText("")
  }

  /** `reset_form`: only when the department list is non-empty. */
  function FormAfterReset(form: EmployeeForm, departments: seq<string>, today: CalendarDate): EmployeeForm {
    if |departments| > 0 then BlankForm(departments[0], today) else form
  }

  /** The outcome of one submission, the form and the table it leaves. */
  datatype Step = Step(outcome: SubmitOutcome, form: EmployeeForm, rows: seq<Employee>)

  /**
   * One submission of `form` against the table `rows`. `lookupFails` says
   * whether the duplicate check hits a storage error and `insertFault`
   * which error text the insert reports, if any. The handler tests the
   * insert result for truth, so an empty error text reads as success.
   * A validation error counts as `Some` because the handler tests the
   * error text for truth and every text is non-empty (`Message` ensures
   * `m != ""`).
   */
  function Submit(form: EmployeeForm, rows: seq<Employee>, departments: seq<string>, today: CalendarDate,
                  lookupFails: bool, insertFault: Option<string>): (r: Step)
    ensures r.outcome == FieldsMissing <==> !AllFieldsFilled(form)
    ensures r.outcome.Invalid? <==> AllFieldsFilled(form) && Validate(form, today).error.Some?
    ensures r.outcome.Invalid? ==> Some(r.outcome.error) == Validate(form, today).error
    ensures r.outcome == DuplicateId <==>
      AllFieldsFilled(form) && Validate(form, today).error.None? && !lookupFails && HasEmployeeId(rows, form.employeeId)
    ensures r.outcome.InsertFailed? <==>
      && AllFieldsFilled(form) && Validate(form, today).error.None? && (lookupFails || !HasEmployeeId(rows, form.employeeId))
      && insertFault.Some? && insertFault.value != ""
    ensures r.outcome.InsertFailed? ==> r.outcome.message == insertFault.value
    ensures r.outcome == Added ==>
      AllFieldsFilled(form) && Validate(form, today).error.None? && (lookupFails || !HasEmployeeId(rows, form.employeeId))
    ensures r.outcome != Added ==> r.rows == rows
    ensures r.outcome != Added ==> r.form == if AllFieldsFilled(form) then Validate(form, today).form else form
    ensures r.outcome == Added && insertFault.None? ==>
      var f := Validate(form, today).form;
      f.dateOfJoining.DateValue? && r.rows == rows + [RowOf(f)]
    ensures r.outcome == Added && insertFault.Some? ==> r.rows == rows
    ensures r.outcome == Added && |departments| > 0 ==> r.form == BlankForm(departments[0], today)
  {
    if !AllFieldsFilled(form) then Step(FieldsMissing, form, rows)
    else
      var checked := Validate(form, today);
      if checked.error.Some? then Step(Invalid(checked.error.value), checked.form, rows)
      else if !lookupFails && HasEmployeeId(rows, checked.form.employeeId) then Step(DuplicateId, checked.form, rows)
      else if insertFault.Some? && insertFault.value != "" then Step(InsertFailed(insertFault.value), checked.form, rows)
      else
        var stored := if insertFault.None? then rows + [RowOf(checked.form)] else rows;
        Step(Added, FormAfterReset(checked.form, departments, today), stored)
  }

  /** Submitting the same values again after they were added is reported as a duplicate. */
  lemma SecondSubmissionIsDuplicate(form: EmployeeForm, rows: seq<Employee>, departments: seq<string>,
                                    today: CalendarDate, insertFault: Option<string>)
    requires Submit(form, rows, departments, today, false, None).outcome == Added
    ensures Submit(form, Submit(form, rows, departments, today, false, None).rows, departments, today, false, insertFault).outcome == DuplicateId
  {
    var f := Validate(form, today).form;
    var after := Submit(form, rows, departments, today, false, None).rows;
    assert after[|rows|] == RowOf(f);
  }

  /** A successful submission adds one row and one only, so the table grows by one for that identifier. */
  lemma AddedRowCountsOnce(form: EmployeeForm, rows: seq<Employee>, departments: seq<string>, today: CalendarDate)
    requires !HasEmployeeId(rows, form.employeeId)
    requires Submit(form, rows, departments, today, false, None).outcome == Added
    ensures CountWithId(Submit(form, rows, departments, today, false, None).rows, form.employeeId) == 1
  {
    var f := Validate(form, today).form;
    CountAfterAppend(rows, RowOf(f), form.employeeId);
    CountPositiveIffPresent(rows, form.employeeId);
  }

  /** A filled and valid record whose identifier is new is added as exactly one row, without a storage fault. */
  lemma ValidRecordIsAdded(form: EmployeeForm, rows: seq<Employee>, departments: seq<string>, today: CalendarDate)
    requires AllFieldsFilled(form) && Validate(form, today).error.None? && !HasEmployeeId(rows, form.employeeId)
    ensures Submit(form, rows, departments, today, false, None).outcome == Added
    ensures Submit(form, rows, departments, today, false, None).rows == rows + [RowOf(Validate(form, today).form)]
  {
  }

  /** The sample record used below: every field filled and valid, the date given as text. */
  function JaneDoe(): EmployeeForm {
    EmployeeForm("Jane Doe", "E100", "jane@co.com", "9876543210", "Engineering", DateText("2023-05-01"), "Developer")
  }

  const SampleJoiningDate: CalendarDate := Date(2023, 5, 1)

  /** The sample record passes the validator, its date normalised to 2023-05-01. */
  lemma SampleRecordIsValid(today: CalendarDate)
    requires !IsAfter(SampleJoiningDate, today)
    ensures Validate(JaneDoe(), today) == Checked(None, JaneDoe().(dateOfJoining := DateValue(SampleJoiningDate)))
  {
    var form := JaneDoe();
    var email := form.email;
    assert email[..4] == "jane" && AllLocal("jane");
    assert email[5..7] == "co" && AllLabel("co");
    assert email[8..] == "com" && AllTail("com");
    assert BodyMatchAt(email, 4, 7);
    assert IsPhoneNumber(form.phoneNumber);
    assert FormatDate(SampleJoiningDate) == "2023-05-01";
    IsoTextNormalises(form, SampleJoiningDate, today);
  }

  /**
   * The sample record submitted to an empty table, on a day not before
   * 2023-05-01, is added as one row holding its values and the parsed date.
   */
  lemma SampleRecordIsAdded(departments: seq<string>, today: CalendarDate)
    requires !IsAfter(SampleJoiningDate, today)
    ensures Submit(JaneDoe(), [], departments, today, false, None).outcome == Added
    ensures Submit(JaneDoe(), [], departments, today, false, None).rows ==
      [Employee("Jane Doe", "E100", "jane@co.com", "9876543210", "Engineering", SampleJoiningDate, "Developer")]
  {
    SampleRecordIsValid(today);
    assert AllFieldsFilled(JaneDoe());
    ValidRecordIsAdded(JaneDoe(), [], departments, today);
  }

  /** A five-digit phone number is rejected before the table is consulted. */
  lemma ShortPhoneIsRejected(rows: seq<Employee>, departments: seq<string>, today: CalendarDate,
                             lookupFails: bool, insertFault: Option<string>)
    ensures var r := Submit(JaneDoe().(phoneNumber := "12345"), rows, departments, today, lookupFails, insertFault);
      r.outcome == Invalid(InvalidPhoneNumber) && r.rows == rows
  {
    PhoneRule(JaneDoe().(phoneNumber := "12345"), today);
  }

  /** The intake page's session state and the table it writes to. */
  class Session {
    const admins: seq<Credential>
    const users: seq<Credential>
    const departments: seq<string>
    const table: EmployeeTable
    var form: EmployeeForm
    var isAdmin: bool
    var successMessage: Option<string>

    /** Start-up: the lists are loaded and the form starts blank with the first department. */
    constructor (admins: seq<Credential>, users: seq<Credential>, departments: seq<string>,
                 table: EmployeeTable, today: CalendarDate)
      requires |departments| > 0
      ensures this.admins == admins && this.users == users && this.departments == departments && this.table == table
      ensures form == BlankForm(departments[0], today)
      ensures !isAdmin && successMessage == None
    {
      this.admins := admins;
      this.users := users;
      this.departments := departments;
      this.table := table;
      form := BlankForm(departments[0], today);
      isAdmin := false;
      successMessage := None;
    }

    /** `validate_admin_login`. */
    method ValidateAdminLogin(username: string, password: string) returns (valid: bool)
      ensures valid <==> IsListed(admins, username, password)
    {
      valid := FindCredential(admins, username, password);
    }

    /** `validate_user_login`. */
    method ValidateUserLogin(username: string, password: string) returns (valid: bool)
      ensures valid <==> IsListed(users, username, password)
    {
      valid := FindCredential(users, username, password);
    }

    /** The admin login form: only a listed admin gains access. */
    method Login(username: string, password: string) returns (outcome: LoginOutcome)
      requires !isAdmin
      modifies this`isAdmin
      ensures outcome == ClassifyLogin(admins, users, username, password)
      ensures isAdmin <==> outcome == AdminAccessGranted
    {
      var admin := ValidateAdminLogin(username, password);
      if admin {
        isAdmin := true;
        return AdminAccessGranted;
      }
      var user := ValidateUserLogin(username, password);
      if user {
        return NotAnAdmin;
      }
      return InvalidCredentials;
    }

    method Logout()
      modifies this`isAdmin
      ensures !isAdmin
    {
      isAdmin := false;
    }

    /** `reset_form`: a blank form with the first department and today's date, when there is a department. */
    method ResetForm(today: CalendarDate)
      modifies this`form
      ensures |departments| > 0 ==> form == BlankForm(departments[0], today)
      ensures |departments| == 0 ==> form == old(form)
    {
      if |departments| > 0 {
        form := BlankForm(departments[0], today);
      }
    }

    /**
     * `validate_inputs(form_data)` on the session's form, which it updates
     * in place when the date is given as text that parses.
     */
    method ValidateInputs(today: CalendarDate) returns (error: Option<ValidationError>)
      modifies this`form
      ensures error == Validate(old(form), today).error
      ensures form == Validate(old(form), today).form
    {
      if !IsPhoneNumber(form.phoneNumber) {
        return Some(InvalidPhoneNumber);
      }
      if !EmailMatches(form.email) {
        return Some(InvalidEmail);
      }
      if form.dateOfJoining.NoDate? {
        return Some(MissingDate);
      }
      if form.dateOfJoining.DateText? {
        var parsed := ParseDate(form.dateOfJoining.text);
        if parsed.None? {
          return Some(InvalidDateFormat);
        }
        form := form.(dateOfJoining := DateValue(parsed.value));
      }
      if IsAfter(form.dateOfJoining.date, today) {
        return Some(FutureDate);
      }
      return None;
    }

    /** The submit handler, shown to an admin only. */
    method SubmitForm(today: CalendarDate, lookupFails: bool, insertFault: Option<string>) returns (outcome: SubmitOutcome)
      requires isAdmin
      modifies this`form, this`successMessage, table
      ensures Step(outcome, form, table.rows) == Submit(old(form), old(table.rows), departments, today, lookupFails, insertFault)
      ensures successMessage == if outcome == Added then Some(SuccessMessage) else old(successMessage)
    {
      if !AllFieldsFilled(form) {
        return FieldsMissing;
      }
      var error := ValidateInputs(today);
      if error.Some? {
        return Invalid(error.value);
      }
      var duplicate := table.CheckDuplicate(form, lookupFails);
      if duplicate {
        return DuplicateId;
      }
      var result := table.Insert(form, insertFault);
      if result.Some? && result.value != "" {
        return InsertFailed(result.value);
      }
      successMessage := Some(SuccessMessage);
      ResetForm(today);
      return Added;
    }
  }
}
