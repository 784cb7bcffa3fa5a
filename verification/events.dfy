/** The payroll event record (`EventDTO`) and the event types the reports single out. */
module Events {
  import opened Dates

  datatype Event = Event(
    sequenceNo: string,
    empId: string,
    firstName: string,
    lastName: string,
    designation: string,
    event: string,
    value: real,
    eventDate: Date,
    notes: string)

  const Salary: string := "SALARY"
  const Bonus: string := "BONUS"
  const Reimbursement: string := "REIMBURSEMENT"

  /** The three event types that count as money paid out. */
  predicate IsPayEvent(e: Event) {
    e.event == Salary || e.event == Bonus || e.event == Reimbursement
  }
}
