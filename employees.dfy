/**
 * The `employees` table, kept in memory, with the duplicate check
 * `check_duplicate_employee` and the writer `insert_employee_to_db`.
 * Storage faults are inputs to the operations.
 */
module Employees {
  import opened Wrappers
  import opened Dates
  import opened Validation

  /** A row of `employees(name, employee_id, email, phone_number, department, date_of_joining, role)`. */
  datatype Employee = Employee(
    name: string,
    employeeId: string,
    email: string,
    phoneNumber: string,
    department: string,
    dateOfJoining: CalendarDate,
    role: string)

  /** The seven form values in column order; the date is the normalised date object. */
  function RowOf(form: EmployeeForm): Employee
    requires form.dateOfJoining.DateValue?
  {
    Employee(form.name, form.employeeId, form.email, form.phoneNumber, form.department, form.dateOfJoining.date, form.role)
  }

  predicate HasEmployeeId(rows: seq<Employee>, id: string) {
    exists k | 0 <= k < |rows| :: rows[k].employeeId == id
  }

  /** `SELECT COUNT(*) FROM employees WHERE employee_id = id`. */
  function CountWithId(rows: seq<Employee>, id: string): nat {
    if rows == [] then 0
    else CountWithId(rows[..|rows| - 1], id) + (if rows[|rows| - 1].employeeId == id then 1 else 0)
  }

  /** The count is positive exactly when some row carries the identifier. */
  lemma {:induction false} CountPositiveIffPresent(rows: seq<Employee>, id: string)
    ensures CountWithId(rows, id) > 0 <==> HasEmployeeId(rows, id)
  {
    if rows != [] {
      var init := rows[..|rows| - 1];
      CountPositiveIffPresent(init, id);
      if HasEmployeeId(init, id) {
        var k :| 0 <= k < |init| && init[k].employeeId == id;
        assert rows[k] == init[k];
      }
      if HasEmployeeId(rows, id) && rows[|rows| - 1].employeeId != id {
        var k :| 0 <= k < |rows| && rows[k].employeeId == id;
        assert init[k] == rows[k];
      }
    }
  }

  /** Appending a row adds one to the count of its identifier and leaves the others alone. */
  lemma {:induction false} CountAfterAppend(rows: seq<Employee>, row: Employee, id: string)
    ensures CountWithId(rows + [row], id) == CountWithId(rows, id) + (if row.employeeId == id then 1 else 0)
  {
    assert (rows + [row])[..|rows + [row]| - 1] == rows;
  }

  class EmployeeTable {
    var rows: seq<Employee>

    constructor (initial: seq<Employee>)
      ensures rows == initial
    {
      rows := initial;
    }

    /**
     * `check_duplicate_employee`: true when a row with the same employee
     * identifier exists. A failing lookup counts as "no duplicate".
     */
    method CheckDuplicate(details: EmployeeForm, lookupFails: bool) returns (duplicate: bool)
      ensures duplicate <==> !lookupFails && HasEmployeeId(rows, details.employeeId)
    {
      if lookupFails {
        return false;
      }
      var count := CountWithId(rows, details.employeeId);
      CountPositiveIffPresent(rows, details.employeeId);
      return count > 0;
    }

    /**
     * `insert_employee_to_db`: appends one row holding the seven values in
     * column order and reports `None`, or reports the storage error text
     * and leaves the table as it was (nothing is committed).
     */
    method Insert(details: EmployeeForm, fault: Option<string>) returns (error: Option<string>)
      requires details.dateOfJoining.DateValue?
      modifies this
      ensures error == fault
      ensures rows == if fault.None? then old(rows) + [RowOf(details)] else old(rows)
    {
      if fault.Some? {
        return fault;
      }
      rows := rows + [RowOf(details)];
      return None;
    }
  }
}
