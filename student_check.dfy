/** The per-student roll-call state that the page edits. `StudentCheck` is
    defined in `student-check.ts`, which is not part of this model: what its
    three operations do is taken as given behaviour (`CheckRules`), each a
    function of the check's own state. */
module StudentChecks {
  import opened Js
  import opened Attendance

  /** The behaviour of `StudentCheck` that the page relies on. `D` is the
      roll-call item a check turns into for saving. */
  datatype CheckRules<D> = CheckRules(
    /** `acceptChange()`: whether the operator may edit the check. */
    accept: (Student, Option<PeriodStatus>, PeriodConf) -> bool,
    /** `setAttendance(code)`: the status the check takes. */
    assign: (Student, Option<PeriodStatus>, PeriodConf, string) -> Option<PeriodStatus>,
    /** `getCheckData()`: the item the check is saved as. */
    checkData: (Student, Option<PeriodStatus>, PeriodConf) -> D)

  class StudentCheck<D> {
    const student: Student
    const periodConf: PeriodConf
    const rules: CheckRules<D>
    /** The current status; `None` means no absence recorded. */
    var status: Option<PeriodStatus>

    constructor (student: Student, status: Option<PeriodStatus>, periodConf: PeriodConf, rules: CheckRules<D>)
      ensures this.student == student && this.status == status
      ensures this.periodConf == periodConf && this.rules == rules
    {
      this.student := student;
      this.status := status;
      this.periodConf := periodConf;
      this.rules := rules;
    }

    predicate AcceptChange()
      reads this
    {
      rules.accept(student, status, periodConf)
    }

    /** Only the status changes. */
    method SetAttendance(code: string)
      modifies this
      ensures status == rules.assign(student, old(status), periodConf, code)
    {
      status := rules.assign(student, status, periodConf, code);
    }

    function GetCheckData(): D
      reads this
    {
      rules.checkData(student, status, periodConf)
    }

    /** A check takes part in the summary when it may be edited and has a status. */
    predicate Counted()
      reads this
    {
      AcceptChange() && status.Some?
    }
  }
}
