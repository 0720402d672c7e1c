# Employee intake: a verified model

This project models the decision logic of the Employee Management System's
intake page (`main.py`). An admin logs in and fills a form describing a new
employee. The form is checked for empty values, then validated field by field.
The `employees` table is consulted for a duplicate employee identifier, and the
row is inserted. After a successful insert the form is reset.

Modules, leaf first:

- `Wrappers` (`wrappers.dfy`): `Option`, which stands for Python's `None`-or-value.
- `Dates` (`dates.dfy`): calendar dates as `datetime.date` holds them. It gives
  their order and the parse `datetime.strptime(text, "%Y-%m-%d").date()`. The
  parse follows strptime's real grammar. A one-digit month or day is accepted,
  and so is a day written as a space and a digit. Year 0, a day past the end of
  the month and trailing characters are rejected. `FormatDate` is the canonical
  `YYYY-MM-DD` text, and two round-trip lemmas connect it with the parse.
- `Validation` (`validation.dfy`): the form record and `validate_inputs` as a pure
  function `Validate`. Its result is the error and the form as the call leaves it.
  The e-mail pattern is stated twice: as what the regular expression matches
  (`EmailRegexMatches`, including `$` matching before a final newline) and as a
  left-to-right scan (`EmailMatches`). A lemma proves the two agree.
- `Credentials` (`credentials.dfy`): the admin and user lists, the scan
  `validate_admin_login` / `validate_user_login`, and the three-way login decision.
- `Employees` (`employees.dfy`): the `employees` table as an in-memory sequence of
  rows in a class. It has the duplicate check (a count by identifier) and the
  insert. A storage failure is an input to each operation. A failing duplicate
  check reads as "no duplicate". A failing insert leaves the table unchanged and
  reports the error text.
- `Intake` (`intake.dfy`): the session state (`form`, `is_admin`, `success_message`)
  as a class. It has the login, logout, reset, validate and submit handlers. The
  pure function `Submit` specifies one submission, and lemmas about it cover
  rejection, duplicates, the single insert and the example records.

`today` (for `datetime.now().date()` and `datetime.today().date()`) is a
parameter. So are the storage faults.

Three behaviours of the submit handler worth stating:

- the code never checks that the department is in the catalogue; the select box does that;
- a duplicate identifier produces a warning, with nothing stored;
- the submit handler tests the insert result for truth (main.py:233). An insert
  that fails with an empty error text is therefore reported as a success. The
  form is reset and the table is unchanged. `Intake.Submit` states this case.

## Model

| member | source | states |
|---|---|---|
| `Dates.ParseDate` | main.py:82-86 | a text that strptime accepts with `%Y-%m-%d` yields a valid calendar date (year 1..9999, month 1..12, day within the month); every other text yields `None`, the `ValueError` path |
| `Dates.ParseFormatRoundTrip` | main.py:84 | parsing the canonical `YYYY-MM-DD` text of any date gives that date back |
| `Dates.FormatParseRoundTrip` | main.py:84 | a text of the shape `DDDD-DD-DD` that parses is exactly the canonical text of the parsed date |
| `Dates.ParseAcceptsShortFields` | main.py:84 | strptime's leniency: `2024-1-5` and `2024-01- 5` parse to 2024-01-05; `2024-01-15` parses to 2024-01-15 |
| `Dates.ParseRejectsOutOfRange` | main.py:84-86 | year 0, 2023-02-29, a month 13 and a three-digit day are rejected; 2024-02-29 is accepted |
| `Validation.Message` | main.py:72-89 | the five error texts, each non-empty, so the submit handler's `if error:` rejects on every one |
| `Validation.ScanBodyIsMatch` | main.py:75-76 | splitting at the first `@` and the first dot after it accepts exactly the texts that match `[a-zA-Z0-9_.+-]+@[a-zA-Z0-9-]+\.[a-zA-Z0-9-.]+` in full |
| `Validation.EmailMatchesIsRegex` | main.py:75-77 | the e-mail check accepts exactly what `re.match` of the anchored pattern accepts, a single final newline included |
| `Validation.Validate` | main.py:71-91 | only the date field may change, and only to the date its text parses to; no error is returned iff the phone is ten digits, the e-mail matches, and the normalised date is a date not after today |
| `Validation.PhoneRule` | main.py:72-73 | the phone error is returned exactly when the phone is not ten ASCII digits, whatever the other fields hold, and the form is left unchanged |
| `Validation.EmailRule` | main.py:75-77 | with a valid phone, the e-mail error is returned exactly when the pattern does not match, and the form is left unchanged |
| `Validation.MissingDateRule` | main.py:79-80 | past the first two checks, the missing-date error is returned exactly when the date is `None` |
| `Validation.DateTextRule` | main.py:82-86 | past the first two checks, a date text that does not parse gives the format error with the form unchanged; one that parses is replaced in the form by the parsed date |
| `Validation.FutureDateRule` | main.py:88-89 | past the first two checks, the future-date error is returned exactly when the normalised date is strictly after today; a date equal to today passes |
| `Validation.IsoTextNormalises` | main.py:82-91 | a date given as `YYYY-MM-DD` text is normalised to that date, and the form passes exactly when that date is not after today |
| `Credentials.FindCredential` | main.py:57-68 | the scan returns true exactly when some entry has both the username and the password |
| `Credentials.ClassifyLoginIsExact` | main.py:174-183 | admin access exactly for a listed admin (even one also listed as a user); "not an admin" exactly for a listed user who is no admin; otherwise invalid credentials |
| `Employees.CountPositiveIffPresent` | main.py:99-109 | the count by employee identifier is positive exactly when a row carries that identifier |
| `Employees.CountAfterAppend` | main.py:127-139 | appending a row raises the count of its own identifier by one and leaves other counts alone |
| `Employees.EmployeeTable.CheckDuplicate` | main.py:94-111 | a duplicate is reported exactly when the lookup succeeds and some row has the form's identifier; a failing lookup reports no duplicate |
| `Employees.EmployeeTable.Insert` | main.py:122-145 | without a fault, exactly one row holding the seven values in column order is appended; with a fault, its text is returned and the table is unchanged |
| `Intake.Submit` | main.py:216-237 | an empty value rejects, then a validation error, then a duplicate, then a non-empty insert error; each rejection leaves the table unchanged. Success means all checks passed and the identifier was new or the lookup failed. Without a fault exactly the validated row is appended, and the form is reset when there is a department |
| `Intake.ValidRecordIsAdded` | main.py:220-237 | a filled, valid record with a new identifier and no storage fault is added as exactly one row |
| `Intake.SecondSubmissionIsDuplicate` | main.py:220-231 | submitting the same values again after they were added reports a duplicate |
| `Intake.AddedRowCountsOnce` | main.py:228-237 | after adding a record with a new identifier, exactly one row carries that identifier |
| `Intake.SampleRecordIsValid` | main.py:71-91 | the Jane Doe record passes the validator, and its text date becomes 2023-05-01 |
| `Intake.SampleRecordIsAdded` | main.py:216-237 | the Jane Doe record submitted to an empty table is added as the one row holding its values and the parsed date |
| `Intake.ShortPhoneIsRejected` | main.py:220-226 | a five-digit phone number is rejected with the phone error and the table is unchanged, whatever the storage does |
| `Credentials.ClassifyLogin` | main.py:174-183 | the admin-first three-way login decision; its meaning is stated by `ClassifyLoginIsExact`, and `Session.Login` returns it |
| `Validation.IsPhoneNumber` | main.py:72 | ten ASCII digits; `PhoneRule` proves the phone error is returned exactly when it fails |
| `Validation.EmailMatches` | main.py:75-76 | the e-mail check as a left-to-right scan; `EmailMatchesIsRegex` proves it accepts exactly what the anchored pattern matches |
| `Employees.CountWithId` | main.py:99-105 | the count of rows with the identifier; `CountPositiveIffPresent` proves it positive exactly when such a row exists, `CountAfterAppend` how an insert changes it |
| `Employees.RowOf` | main.py:131-139 | the seven values in column order, the date as a date object; `EmployeeTable.Insert` appends it and `SampleRecordIsAdded` shows the concrete row |
| `Intake.AllFieldsFilled` | main.py:220 | no value is `""` or `None`; `Submit` reports missing fields exactly when it fails |
| `Intake.BlankForm` | main.py:151-159 | blank texts, the given department and today's date; `Session.constructor`, `Session.ResetForm` and `Submit` on success produce it |
| `Intake.FormAfterReset` | main.py:148-161 | `reset_form`: the blank form when the catalogue is non-empty, otherwise the form unchanged; `Submit` states it on success and `Session.ResetForm` performs it |
| `Intake.Session.constructor` | main.py:28-54 | the lists are loaded, the form starts blank with the first department and today's date, nobody is logged in and there is no success message |
| `Intake.Session.ValidateAdminLogin` | main.py:57-61 | true exactly when the admin list holds the pair |
| `Intake.Session.ValidateUserLogin` | main.py:64-68 | true exactly when the user list holds the pair |
| `Intake.Session.Login` | main.py:174-183 | the outcome is the three-way login decision; the admin flag is set exactly when admin access is granted |
| `Intake.Session.Logout` | main.py:211-214 | the admin flag is cleared |
| `Intake.Session.ResetForm` | main.py:148-161 | with a department catalogue, the form becomes blank with the first department and today's date; without one it stays as it was |
| `Intake.Session.ValidateInputs` | main.py:71-91 | the error and the form left in the session are those of `Validation.Validate` on the old form: the date is overwritten in place, and only the date |
| `Intake.Session.SubmitForm` | main.py:216-237 | outcome, form and table after the handler are those of `Intake.Submit` on the old state; the success message is set exactly on success |

## Left out

- Streamlit rendering is not modelled: widgets, `st.error`/`st.success`/`st.warning`, `time.sleep` and `st.rerun`. Only the decisions they display are modelled, as outcome values.
- psycopg2 is not modelled: connections, cursors, SQL text and `commit`. The table is an in-memory sequence, and a storage error is an input to each operation.
- Start-up loading is not modelled: `load_dotenv`, `DB_CONFIG` and the JSON reading in `load_users` and `load_departments`. The lists are constructor parameters. A missing or malformed file aborts start-up in the source.
- `Intake.Session.constructor`: requires a non-empty department list, because main.py:45 indexes `departments[0]` when the session starts.
- `Intake.Session.SubmitForm` and `Intake.Session.Login`: they require the admin flag to be set (line 185), or to be clear (line 166), because the page renders the matching form only in that state.
- `Validation.IsPhoneNumber` and `Dates.ParseDate` accept ASCII digits only. Python's `str.isdigit` and the `\d` in strptime's patterns also accept other Unicode digits.
- Text fields of the form cannot be `None` in the model, because text inputs return text. Only the date field can be missing.
- The code after the first `except` in `check_duplicate_employee` (main.py:113-119) cannot run, so it is not modelled.
- The department select box is not modelled. `departments.index` at main.py:197 and the "max 10 characters" label on the employee identifier are widget behaviour, and nothing in the handler checks either.
- The `st.error` shown by `reset_form` when there are no departments is not modelled. Only the fact that the form stays as it was is stated.
- The race between the duplicate check and the insert of two concurrent submissions is not modelled. The code has no concurrency of its own.
