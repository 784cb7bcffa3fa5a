/**
 * The six report views of `PayrollServiceImpl`, each a pure function of the
 * stored events. The grouped reports come out of a `HashMap` in Java, so row
 * order is unspecified there; here rows follow first occurrence, and no
 * contract below depends on that order.
 */
module Reports {
  import opened Dates
  import opened Events
  import opened Grouping
  import opened Seqs

  datatype MonthlyReport = MonthlyReport(month: string, totalSalary: real, totalEmployees: nat)
  datatype YearlyFinancialReport = YearlyFinancialReport(event: string, empId: string, eventDate: Date, eventValue: real)
  datatype EmployeeFinancialReport = EmployeeFinancialReport(empId: string, firstName: string, lastName: string, totalAmountPaid: real)
  datatype MonthlyAmountReport = MonthlyAmountReport(month: string, totalAmount: real, totalEmployees: nat)

  function EmpIdOf(e: Event): string {
    e.empId
  }

  /** The salary report's key: the month's upper-case name. */
  function MonthNameOf(e: Event): string {
    MonthName(e.eventDate.month)
  }

  /** The amount and events-by-month reports' key: the month as "01".."12". */
  function MonthKeyOf(e: Event): string {
    MonthKey(e.eventDate.month)
  }

  predicate IsSalary(e: Event) {
    e.event == Salary
  }

  /** The events of one type, in store order. */
  function OfType(es: seq<Event>, eventType: string): seq<Event> {
    Filter(es, (e: Event) => e.event == eventType)
  }

  /** The events the salary report reads. */
  function Salaries(es: seq<Event>): seq<Event> {
    Filter(es, IsSalary)
  }

  /** The events the amount and employee reports add up. */
  function Payments(es: seq<Event>): seq<Event> {
    Filter(es, IsPayEvent)
  }

  // ---------------------------------------------------------------------------
  // getTotalEmployees

  /** The size of the `HashSet` of all employee ids. */
  function TotalEmployees(es: seq<Event>): (n: nat)
    ensures n == |DistinctKeys(es, EmpIdOf)|
  {
    DistinctKeysCount(es, EmpIdOf);
    |KeySet(es, EmpIdOf)|
  }

  /** Repeated events of a known employee do not change the count; a new id adds one. */
  lemma {:induction false} TotalEmployeesSnoc(es: seq<Event>, e: Event)
    ensures TotalEmployees(es + [e]) == TotalEmployees(es) + (if e.empId in KeySet(es, EmpIdOf) then 0 else 1)
  {
    KeySetSnoc(es + [e], EmpIdOf);
    assert (es + [e])[..|es|] == es;
  }

  /** Never more employees than events. */
  lemma TotalEmployeesBound(es: seq<Event>)
    ensures TotalEmployees(es) <= |es|
  {
    DistinctKeysCount(es, EmpIdOf);
    DistinctBound(es, EmpIdOf);
  }

  /**
   * Rows that read back as the summary table of `es` by `key` carry distinct
   * keys, one for each key that occurs, each with its selection's sum and count.
   */
  lemma RowsOfTable<R>(rows: seq<R>, entry: R -> (string, Summary), es: seq<Event>, key: Event -> string)
    requires Map(entry, rows) == SummaryTable(es, key)
    ensures forall i, j | 0 <= i < j < |rows| :: entry(rows[i]).0 != entry(rows[j]).0
    ensures forall k :: k in KeySet(es, key) <==> exists i | 0 <= i < |rows| :: entry(rows[i]).0 == k
    ensures forall i | 0 <= i < |rows| ::
      entry(rows[i]).1 == Summary(SumValues(Select(es, key, entry(rows[i]).0)), |Select(es, key, entry(rows[i]).0)|)
  {
    var t := SummaryTable(es, key);
    SummaryTableKeys(es, key);
    assert forall i | 0 <= i < |rows| :: entry(rows[i]) == t[i];
  }

  // ---------------------------------------------------------------------------
  // generateMonthlySalaryReport

  /**
   * SALARY events grouped by month name, one row per month holding the
   * month's salary sum and record count.
   */
  function MonthlySalaryReport(es: seq<Event>): (rows: seq<MonthlyReport>)
    ensures |rows| == |KeySet(Salaries(es), MonthNameOf)|
  {
    var t := SummaryTable(Salaries(es), MonthNameOf);
    SummaryTableKeys(Salaries(es), MonthNameOf);
    seq(|t|, i requires 0 <= i < |t| => MonthlyReport(t[i].0, t[i].1.sum, t[i].1.count))
  }

  /**
   * Each month with a salary appears once, no other month appears, and a
   * row's count and sum are those of the SALARY events in that month.
   */
  lemma MonthlySalaryRows(es: seq<Event>)
    ensures var rows := MonthlySalaryReport(es);
      && (forall i, j | 0 <= i < j < |rows| :: rows[i].month != rows[j].month)
      && (forall m :: m in KeySet(Salaries(es), MonthNameOf) <==> exists i | 0 <= i < |rows| :: rows[i].month == m)
      && (forall i | 0 <= i < |rows| ::
            && rows[i].totalEmployees == |Select(Salaries(es), MonthNameOf, rows[i].month)|
            && rows[i].totalSalary == SumValues(Select(Salaries(es), MonthNameOf, rows[i].month)))
  {
    MonthlySalaryTable(es);
    RowsOfTable(MonthlySalaryReport(es), SalaryEntry, Salaries(es), MonthNameOf);
  }

  /** A salary row read back as the summary entry it reports. */
  function SalaryEntry(r: MonthlyReport): (string, Summary) {
    (r.month, Summary(r.totalSalary, r.totalEmployees))
  }

  /** The salary report is the summary table of the SALARY events by month name, row for entry. */
  lemma MonthlySalaryTable(es: seq<Event>)
    ensures Map(SalaryEntry, MonthlySalaryReport(es)) == SummaryTable(Salaries(es), MonthNameOf)
  {
  }

  /** The salary report's counts add up to the number of SALARY events, and its sums to their total. */
  lemma MonthlySalaryTotals(es: seq<Event>)
    ensures TableCount(Map(SalaryEntry, MonthlySalaryReport(es))) == |Salaries(es)|
    ensures TableSum(Map(SalaryEntry, MonthlySalaryReport(es))) == SumValues(Salaries(es))
  {
    MonthlySalaryTable(es);
    SummaryTableTotals(Salaries(es), MonthNameOf);
  }

  // ---------------------------------------------------------------------------
  // getMonthlyAmountReport

  /**
   * SALARY, BONUS and REIMBURSEMENT events grouped by two-digit month, one
   * row per month holding the month's amount and record count.
   */
  function MonthlyAmounts(es: seq<Event>): (rows: seq<MonthlyAmountReport>)
    ensures |rows| == |KeySet(Payments(es), MonthKeyOf)|
  {
    var t := SummaryTable(Payments(es), MonthKeyOf);
    SummaryTableKeys(Payments(es), MonthKeyOf);
    seq(|t|, i requires 0 <= i < |t| => MonthlyAmountReport(t[i].0, t[i].1.sum, t[i].1.count))
  }

  /**
   * Each month with a pay event appears once, no other month appears, and a
   * row's count and amount are those of the pay events in that month.
   */
  lemma MonthlyAmountRows(es: seq<Event>)
    ensures var rows := MonthlyAmounts(es);
      && (forall i, j | 0 <= i < j < |rows| :: rows[i].month != rows[j].month)
      && (forall m :: m in KeySet(Payments(es), MonthKeyOf) <==> exists i | 0 <= i < |rows| :: rows[i].month == m)
      && (forall i | 0 <= i < |rows| ::
            && rows[i].totalEmployees == |Select(Payments(es), MonthKeyOf, rows[i].month)|
            && rows[i].totalAmount == SumValues(Select(Payments(es), MonthKeyOf, rows[i].month)))
  {
    MonthlyAmountTable(es);
    RowsOfTable(MonthlyAmounts(es), AmountEntry, Payments(es), MonthKeyOf);
  }

  /** An amount row read back as the summary entry it reports. */
  function AmountEntry(r: MonthlyAmountReport): (string, Summary) {
    (r.month, Summary(r.totalAmount, r.totalEmployees))
  }

  /** The amount report is the summary table of the pay events by month key, row for entry. */
  lemma MonthlyAmountTable(es: seq<Event>)
    ensures Map(AmountEntry, MonthlyAmounts(es)) == SummaryTable(Payments(es), MonthKeyOf)
  {
  }

  /** The amount report's counts add up to the number of pay events, and its amounts to their total. */
  lemma MonthlyAmountTotals(es: seq<Event>)
    ensures TableCount(Map(AmountEntry, MonthlyAmounts(es))) == |Payments(es)|
    ensures TableSum(Map(AmountEntry, MonthlyAmounts(es))) == SumValues(Payments(es))
  {
    MonthlyAmountTable(es);
    SummaryTableTotals(Payments(es), MonthKeyOf);
  }

  // ---------------------------------------------------------------------------
  // generateYearlyFinancialReport

  function YearlyRow(e: Event): YearlyFinancialReport {
    YearlyFinancialReport(e.event, e.empId, e.eventDate, e.value)
  }

  /** One row per stored event, in store order, without aggregation. */
  function YearlyReport(es: seq<Event>): (rows: seq<YearlyFinancialReport>)
    ensures |rows| == |es|
    ensures forall i | 0 <= i < |es| :: rows[i] == YearlyRow(es[i])
  {
    if |es| == 0 then []
    else YearlyReport(es[..|es| - 1]) + [YearlyRow(es[|es| - 1])]
  }

  /** After an append, the yearly report is the old report followed by the new events' rows. */
  lemma YearlyReportAppend(a: seq<Event>, b: seq<Event>)
    ensures YearlyReport(a + b) == YearlyReport(a) + YearlyReport(b)
  {
  }

  // ---------------------------------------------------------------------------
  // getEmployeeEventsByMonth

  /**
   * The events of one type, grouped by two-digit month; each list keeps store
   * order.
   */
  function EventsByMonth(es: seq<Event>, eventType: string): (groups: map<string, seq<Event>>)
    ensures groups.Keys == KeySet(OfType(es, eventType), MonthKeyOf)
    ensures forall k | k in groups :: groups[k] == Select(OfType(es, eventType), MonthKeyOf, k)
    ensures forall k, e | k in groups && e in groups[k] :: e.event == eventType && MonthKeyOf(e) == k && e in es
    ensures forall e | e in es && e.event == eventType :: MonthKeyOf(e) in groups && e in groups[MonthKeyOf(e)]
  {
    var matching := OfType(es, eventType);
    GroupByIsSelect(matching, MonthKeyOf);
    GroupBy(matching, MonthKeyOf)
  }

  // ---------------------------------------------------------------------------
  // getEmployeeFinancialReport

  /**
   * One row per employee: id and names from the employee's first stored
   * event, and the sum of their SALARY, BONUS and REIMBURSEMENT values.
   */
  function EmployeeReport(es: seq<Event>): (rows: seq<EmployeeFinancialReport>)
    ensures |rows| == TotalEmployees(es)
  {
    var groups := GroupBy(es, EmpIdOf);
    var ids := DistinctKeys(es, EmpIdOf);
    GroupByIsSelect(es, EmpIdOf);
    seq(|ids|, i requires 0 <= i < |ids| => EmployeeRow(es, groups, ids[i]))
  }

  /** Every employee gets exactly one row, and only employees get rows. */
  lemma EmployeeReportKeys(es: seq<Event>)
    ensures var rows := EmployeeReport(es);
      && (forall i, j | 0 <= i < j < |rows| :: rows[i].empId != rows[j].empId)
      && (forall id :: (exists i | 0 <= i < |rows| :: rows[i].empId == id) <==> id in KeySet(es, EmpIdOf))
  {
    var ids := DistinctKeys(es, EmpIdOf);
    DistinctKeysCount(es, EmpIdOf);
    var rows := EmployeeReport(es);
    EmployeeReportIds(es);
    assert forall i | 0 <= i < |ids| :: rows[i].empId == ids[i];
  }

  /**
   * A row's total is the sum of the employee's pay events, and its names are
   * those of the employee's first stored event.
   */
  lemma EmployeeReportContents(es: seq<Event>)
    ensures var rows := EmployeeReport(es);
      && (forall i | 0 <= i < |rows| ::
            rows[i].totalAmountPaid == SumValues(Payments(Select(es, EmpIdOf, rows[i].empId))))
      && (forall i | 0 <= i < |rows| :: exists n | 0 <= n < |es| ::
            && es[n].empId == rows[i].empId
            && es[n].firstName == rows[i].firstName && es[n].lastName == rows[i].lastName
            && forall j | 0 <= j < n :: es[j].empId != rows[i].empId)
  {
    var rows := EmployeeReport(es);
    forall i | 0 <= i < |rows|
      ensures rows[i].totalAmountPaid == SumValues(Payments(Select(es, EmpIdOf, rows[i].empId)))
      ensures exists n | 0 <= n < |es| ::
            && es[n].empId == rows[i].empId
            && es[n].firstName == rows[i].firstName && es[n].lastName == rows[i].lastName
            && forall j | 0 <= j < n :: es[j].empId != rows[i].empId
    {
      EmployeeReportAt(es, i);
    }
  }

  /** The report's ids are the distinct ids in first-occurrence order. */
  lemma EmployeeReportIds(es: seq<Event>)
    ensures var ids := DistinctKeys(es, EmpIdOf);
      |EmployeeReport(es)| == |ids| && forall i | 0 <= i < |ids| :: EmployeeReport(es)[i].empId == ids[i]
  {
    DistinctKeysCount(es, EmpIdOf);
  }

  lemma EmployeeReportAt(es: seq<Event>, i: int)
    requires 0 <= i < |EmployeeReport(es)|
    ensures var row := EmployeeReport(es)[i];
      && row.totalAmountPaid == SumValues(Payments(Select(es, EmpIdOf, row.empId)))
      && exists n | 0 <= n < |es| ::
            && es[n].empId == row.empId
            && es[n].firstName == row.firstName && es[n].lastName == row.lastName
            && forall j | 0 <= j < n :: es[j].empId != row.empId
  {
    var ids := DistinctKeys(es, EmpIdOf);
    GroupByIsSelect(es, EmpIdOf);
    DistinctKeysCount(es, EmpIdOf);
    var groups := GroupBy(es, EmpIdOf);
    assert EmployeeReport(es)[i] == EmployeeRow(es, groups, ids[i]);
  }

  /** The row for one employee, from their group in `groupingBy(empId)`. */
  function EmployeeRow(es: seq<Event>, groups: map<string, seq<Event>>, id: string): (row: EmployeeFinancialReport)
    requires id in KeySet(es, EmpIdOf)
    requires id in groups && groups[id] == Select(es, EmpIdOf, id)
    ensures row.empId == id
    ensures row.totalAmountPaid == SumValues(Payments(Select(es, EmpIdOf, id)))
    ensures exists n | 0 <= n < |es| ::
      && es[n].empId == id && es[n].firstName == row.firstName && es[n].lastName == row.lastName
      && forall j | 0 <= j < n :: es[j].empId != id
  {
    SelectFirst(es, EmpIdOf, id);
    var first := groups[id][0];
    EmployeeFinancialReport(first.empId, first.firstName, first.lastName, SumValues(Payments(groups[id])))
  }
}
