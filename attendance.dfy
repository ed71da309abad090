/** The records the roll-call page reads (a period's configuration and each
    student's attendance history) and the derivation of a student's status
    for the current period from that history. */
module Attendance {
  import opened Js

  /** One entry of a student's attendance history: an absence category
      (`AbsenceType`) and, as the entry's text (`@text`), the period it
      belongs to. */
  datatype PeriodStatus = PeriodStatus(AbsenceType: string, Text: string)

  /** A student's `Attendance` element; its `Period` child may be missing,
      a single entry or an array of entries. */
  datatype AttendanceRecord = AttendanceRecord(Period: Field<PeriodStatus>)

  /** A student as the backend returns it, with the history when there is one. */
  datatype Student = Student(ID: string, Name: string, Attendance: Option<AttendanceRecord>)

  /** A period's configuration as the configuration service hands it out: the
      allowed absence categories (`Absence`) may be missing, a single code or
      an array of codes. */
  datatype RawPeriodConf = RawPeriodConf(Name: string, Absence: Field<string>)

  /** A period's configuration once its allowed absence categories are a
      sequence. */
  datatype PeriodConf = PeriodConf(Name: string, Absence: seq<string>)

  /** The allowed-absence field coerced into a sequence, with a missing field
      giving no categories. */
  function ResolvePeriod(raw: RawPeriodConf): (conf: PeriodConf)
    ensures conf.Name == raw.Name
    ensures raw.Absence.Missing? ==> conf.Absence == []
    ensures Strip(ConcatOrEmpty(raw.Absence)) == conf.Absence
  {
    NormalizeIsStrippedConcat(raw.Absence);
    PeriodConf(raw.Name, Normalize(raw.Absence))
  }

  /** The system's own coercion of the allowed-absence field: a configuration
      without one gets a single `undefined` category rather than none. */
  function ResolvePeriodAsWritten(raw: RawPeriodConf): (absence: seq<Slot<string>>)
    ensures |absence| >= 1 || raw.Absence == Many([])
    ensures raw.Absence.Missing? ==> Undefined in absence
  {
    ConcatOrEmpty(raw.Absence)
  }

  lemma MissingAbsenceAsWritten(name: string)
    ensures ResolvePeriodAsWritten(RawPeriodConf(name, Missing)) == [Undefined]
    ensures ResolvePeriod(RawPeriodConf(name, Missing)).Absence == []
  {
  }

  /** No element of `s` before index `k` stops the search: each one is
      defined and tagged with another period. */
  ghost predicate PassesBefore(s: seq<Slot<PeriodStatus>>, k: nat, period: string)
    requires k <= |s|
  {
    forall j :: 0 <= j < k ==> s[j].Defined? && s[j].value.Text != period
  }

  /** The array search of the history: the first element whose text is
      `period`, or none; reading the text of an `undefined` element before
      any match throws. */
  function FindByPeriod(s: seq<Slot<PeriodStatus>>, period: string): (r: Result<Option<PeriodStatus>>)
    ensures r.Ok? && r.value.Some? ==>
      exists i :: 0 <= i < |s| && s[i] == Defined(r.value.value) && r.value.value.Text == period && PassesBefore(s, i, period)
    ensures r == Ok(None) <==> PassesBefore(s, |s|, period)
    ensures r.Err? ==> exists i :: 0 <= i < |s| && s[i].Undefined? && PassesBefore(s, i, period)
    decreases |s|
  {
    if s == [] then Ok(None)
    else
      match s[0]
      case Undefined => Err(TypeError)
      case Defined(v) =>
        if v.Text == period then Ok(Some(v))
        else
          var r := FindByPeriod(s[1..], period);
          assert forall i :: 0 <= i < |s| - 1 && PassesBefore(s[1..], i, period) ==> PassesBefore(s, i + 1, period);
          assert PassesBefore(s, |s|, period) ==> PassesBefore(s[1..], |s| - 1, period);
          r
  }

  /** `e` is the first entry of `history` tagged with `period`. */
  ghost predicate FirstTagged(history: seq<PeriodStatus>, period: string, e: PeriodStatus)
  {
    exists i :: 0 <= i < |history| && history[i] == e && e.Text == period &&
      forall j :: 0 <= j < i ==> history[j].Text != period
  }

  /** A student's history as a sequence of entries. */
  function History(stu: Student): seq<PeriodStatus>
  {
    if stu.Attendance.None? then [] else Normalize(stu.Attendance.value.Period)
  }

  /** `getSelectedAttendance`: the student's status in the current period.
      No history means no status; otherwise the history is coerced with
      `[].concat` and searched for the first entry of the period; an
      `Attendance` element without `Period` children makes the search throw. */
  function GetSelectedAttendance(stu: Student, conf: PeriodConf): (r: Result<Option<PeriodStatus>>)
    ensures stu.Attendance.None? ==> r == Ok(None)
    ensures r.Err? <==> stu.Attendance.Some? && stu.Attendance.value.Period.Missing?
    ensures r.Ok? && r.value.Some? ==> FirstTagged(History(stu), conf.Name, r.value.value)
    ensures r == Ok(None) <==> r.Ok? && forall e :: e in History(stu) ==> e.Text != conf.Name
  {
    if stu.Attendance.None? then Ok(None)
    else
      var dateAtts := Concat(stu.Attendance.value.Period);
      FindByPeriod(dateAtts, conf.Name)
  }

  /** A history with a new entry for the period put at its head gives that
      entry back: after a save is recorded in the history and the page
      reloads, the status read back is the one saved. */
  lemma {:induction false} SavedStatusReadBack(stu: Student, conf: PeriodConf, code: string)
    ensures var saved := Student(stu.ID, stu.Name, Some(AttendanceRecord(Many([PeriodStatus(code, conf.Name)] + History(stu)))));
            GetSelectedAttendance(saved, conf) == Ok(Some(PeriodStatus(code, conf.Name)))
  {
    var saved := Student(stu.ID, stu.Name, Some(AttendanceRecord(Many([PeriodStatus(code, conf.Name)] + History(stu)))));
    var s := Concat(saved.Attendance.value.Period);
    assert s[0] == Defined(PeriodStatus(code, conf.Name));
    assert s != [];
  }
}
