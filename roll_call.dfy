/** The roll-call page, `StudentPickComponent`: it rebuilds one check per
    student from the fetched list, lets the operator put the selected absence
    category on a check, keeps the per-category summary line up to date and
    builds the batch of items that is saved. */
module RollCall {
  import opened Js
  import opened Attendance
  import opened StudentChecks
  import opened Summary

  /** The absence codes of the checks that take part in the summary, in
      check order. */
  function CountedCodes<D>(cs: seq<StudentCheck<D>>): (codes: seq<string>)
    reads cs
    ensures |codes| <= |cs|
  {
    if cs == [] then []
    else
      var c := cs[|cs| - 1];
      CountedCodes(cs[..|cs| - 1]) + (if c.Counted() then [c.status.value.AbsenceType] else [])
  }

  /** Check `c` counts towards `code`: editable, with a status, and with that
      absence category. */
  predicate CountsTowards<D>(c: StudentCheck<D>, code: string)
    reads c
  {
    c.Counted() && c.status.value.AbsenceType == code
  }

  /** The positions of the checks that count towards `code`. */
  ghost function CountedAt<D>(cs: seq<StudentCheck<D>>, code: string): set<nat>
    reads cs
  {
    set i: nat | i < |cs| && CountsTowards(cs[i], code)
  }

  /** The last check adds its own position, or nothing. */
  lemma CountedAtSnoc<D>(cs: seq<StudentCheck<D>>, code: string)
    requires cs != []
    ensures var n := |cs| - 1;
      |CountedAt(cs, code)| == |CountedAt(cs[..n], code)| + (if CountsTowards(cs[n], code) then 1 else 0)
  {
    var n := |cs| - 1;
    var all, before := CountedAt(cs, code), CountedAt(cs[..n], code);
    forall i | i in before
      ensures i in all && i < n
    {
      assert cs[..n][i] == cs[i];
    }
    forall i | i in all && i < n
      ensures i in before
    {
      assert cs[..n][i] == cs[i];
    }
    if CountsTowards(cs[n], code) {
      assert all == before + {n};
    } else {
      assert all == before;
    }
  }

  lemma {:induction false} CountedCodesOccurs<D>(cs: seq<StudentCheck<D>>, code: string)
    ensures Occurs(CountedCodes(cs), code) == |CountedAt(cs, code)|
  {
    if cs != [] {
      var n := |cs| - 1;
      var init := cs[..n];
      CountedCodesOccurs(init, code);
      var c := cs[n];
      var tail := if c.Counted() then [c.status.value.AbsenceType] else [];
      assert CountedCodes(cs) == CountedCodes(init) + tail;
      OccursAppend(CountedCodes(init), tail, code);
      CountedAtSnoc(cs, code);
    }
  }

  lemma CountedCodesSnoc<D>(cs: seq<StudentCheck<D>>, i: nat)
    requires i < |cs|
    ensures cs[i].Counted() ==> CountedCodes(cs[..i + 1]) == CountedCodes(cs[..i]) + [cs[i].status.value.AbsenceType]
    ensures !cs[i].Counted() ==> CountedCodes(cs[..i + 1]) == CountedCodes(cs[..i])
  {
    assert cs[..i + 1][..i] == cs[..i];
    assert CountedCodes(cs[..i]) + [] == CountedCodes(cs[..i]);
  }

  lemma OccursAppend(codes: seq<string>, tail: seq<string>, code: string)
    requires |tail| <= 1
    ensures Occurs(codes + tail, code) == Occurs(codes, code) + (if tail == [code] then 1 else 0)
  {
    if tail != [] {
      assert (codes + tail)[..|codes|] == codes;
    } else {
      assert codes + tail == codes;
    }
  }

  /** No check is counted exactly when there are no counted codes. */
  lemma {:induction false} CountedCodesEmpty<D>(cs: seq<StudentCheck<D>>)
    ensures CountedCodes(cs) == [] <==> forall i :: 0 <= i < |cs| ==> !cs[i].Counted()
  {
    if cs != [] {
      var n := |cs| - 1;
      CountedCodesEmpty(cs[..n]);
      assert forall i :: 0 <= i < n ==> cs[..n][i] == cs[i];
    }
  }

  /** In the summary, a code has an entry exactly when some check counts
      towards it, and the entry is the number of such checks. */
  lemma SummaryCounts<D>(cs: seq<StudentCheck<D>>, code: string)
    ensures code in Tally(CountedCodes(cs)).values <==> CountedAt(cs, code) != {}
    ensures code in Tally(CountedCodes(cs)).values ==>
      Tally(CountedCodes(cs)).values[code] == |CountedAt(cs, code)| >= 1
  {
    CountedCodesOccurs(cs, code);
    TallyCounts(CountedCodes(cs), code);
  }

  /** The counts of the summary add up to the number of counted checks, at
      most one per check. */
  lemma SummaryTotal<D>(cs: seq<StudentCheck<D>>)
    ensures Tally(CountedCodes(cs)).Valid()
    ensures SumOver(Tally(CountedCodes(cs)).keys, Tally(CountedCodes(cs)).values) == |CountedCodes(cs)| <= |cs|
  {
    TallySum(CountedCodes(cs));
  }

  /** The summary line is empty exactly when no check is counted. */
  lemma SummaryTextEmpty<D>(cs: seq<StudentCheck<D>>)
    ensures SummaryText(CountedCodes(cs)) == "" <==> forall i :: 0 <= i < |cs| ==> !cs[i].Counted()
  {
    SummaryEmpty(CountedCodes(cs));
    CountedCodesEmpty(cs);
  }

  /** `getAttendanceText`: a check's label is its absence category, or
      `Check` when it has none. */
  function GetAttendanceText<D>(stu: StudentCheck<D>): (text: string)
    reads stu
    ensures stu.status.Some? ==> text == stu.status.value.AbsenceType
    ensures stu.status.None? ==> text == "Check"
  {
    if stu.status.Some? then stu.status.value.AbsenceType else "Check"
  }

  /** The label of every counted check is a code the summary lists. */
  lemma CountedLabelInSummary<D>(cs: seq<StudentCheck<D>>, i: nat)
    requires i < |cs| && cs[i].Counted()
    ensures GetAttendanceText(cs[i]) in Tally(CountedCodes(cs)).values
  {
    var code := cs[i].status.value.AbsenceType;
    assert i in CountedAt(cs, code);
    SummaryCounts(cs, code);
  }

  /** The second loop of `calcSummaryText`: one `code: count` text per map
      entry, in the map's order. */
  method RenderEntries(entries: seq<(string, nat)>) returns (text: seq<string>)
    ensures text == Render(entries)
  {
    text := [];
    for j := 0 to |entries|
      invariant |text| == j
      invariant forall k :: 0 <= k < j ==> text[k] == EntryText(entries[k])
    {
      text := text + [entries[j].0 + ": " + NumberText(entries[j].1)];
    }
  }

  /** What `changeAttendance` did; the first two are reported to the operator
      as a message. */
  datatype ChangeOutcome = NoAbsenceSelected | Locked | Changed

  /** What `saveRollCall` did; both failures are reported to the operator. */
  datatype SaveOutcome = Saved | SaveFailed | ReloadFailed

  class StudentPickComponent<D> {
    /** The behaviour of the checks the page creates. */
    const rules: CheckRules<D>
    /** The current period's configuration. */
    var periodConf: PeriodConf
    /** The selected absence category; the empty string when none is selected. */
    var selectedAbsence: string
    /** One check per student, in the order the students were fetched. */
    var studentChecks: seq<StudentCheck<D>>
    /** The per-category summary line. */
    var checkSummary: string

    /** Every check on the page is a separate object. */
    ghost predicate Valid()
      reads this
    {
      forall i, j :: 0 <= i < j < |studentChecks| ==> studentChecks[i] != studentChecks[j]
    }

    /** The checks were rebuilt from `students`: one per student, in order,
        each holding the student's status for the current period, up to the
        first student whose history could not be read (`ok` is false then). */
    ghost predicate RebuiltFrom(students: seq<Student>, ok: bool)
      reads this, studentChecks
    {
      |studentChecks| <= |students| &&
      (ok <==> |studentChecks| == |students|) &&
      (!ok ==> GetSelectedAttendance(students[|studentChecks|], periodConf).Err?) &&
      forall i :: 0 <= i < |studentChecks| ==>
        var status := GetSelectedAttendance(students[i], periodConf);
        status.Ok? &&
        studentChecks[i].student == students[i] &&
        studentChecks[i].status == status.value &&
        studentChecks[i].periodConf == periodConf &&
        studentChecks[i].rules == rules
    }

    constructor (rules: CheckRules<D>)
      ensures Valid() && this.rules == rules
      ensures periodConf == PeriodConf("", []) && selectedAbsence == ""
      ensures studentChecks == [] && checkSummary == ""
    {
      this.rules := rules;
      periodConf := PeriodConf("", []);
      selectedAbsence := "";
      studentChecks := [];
      checkSummary := "";
    }

    /** A period was chosen: its configuration is resolved, with the allowed
        absence categories coerced into a sequence, and the checks are
        rebuilt from the fetched students. */
    method SelectPeriod(raw: RawPeriodConf, students: seq<Student>) returns (ok: bool)
      modifies this
      ensures Valid() && periodConf == ResolvePeriod(raw)
      ensures selectedAbsence == old(selectedAbsence)
      ensures RebuiltFrom(students, ok)
      ensures forall c :: c in studentChecks ==> fresh(c)
      ensures ok ==> checkSummary == SummaryText(CountedCodes(studentChecks))
      ensures !ok ==> checkSummary == old(checkSummary)
    {
      periodConf := ResolvePeriod(raw);
      ok := ReloadStudentAttendances(students);
    }

    /** `reloadStudentAttendances`, given the fetched students. The list is
        emptied and refilled one new check per student; a student whose
        history cannot be read stops the rebuild before the summary is
        recomputed, leaving the checks built so far. */
    method ReloadStudentAttendances(students: seq<Student>) returns (ok: bool)
      modifies this
      ensures Valid()
      ensures periodConf == old(periodConf) && selectedAbsence == old(selectedAbsence)
      ensures RebuiltFrom(students, ok)
      ensures forall c :: c in studentChecks ==> fresh(c)
      ensures ok ==> checkSummary == SummaryText(CountedCodes(studentChecks))
      ensures !ok ==> checkSummary == old(checkSummary)
    {
      studentChecks := [];
      for i := 0 to |students|
        invariant |studentChecks| == i
        invariant periodConf == old(periodConf) && selectedAbsence == old(selectedAbsence)
        invariant checkSummary == old(checkSummary)
        invariant Valid()
        invariant forall c :: c in studentChecks ==> fresh(c)
        invariant forall j :: 0 <= j < i ==>
          var status := GetSelectedAttendance(students[j], periodConf);
          status.Ok? &&
          studentChecks[j].student == students[j] &&
          studentChecks[j].status == status.value &&
          studentChecks[j].periodConf == periodConf &&
          studentChecks[j].rules == rules
      {
        var status := GetSelectedAttendance(students[i], periodConf);
        if status.Err? {
          return false;
        }
        var check := new StudentCheck(students[i], status.value, periodConf, rules);
        studentChecks := studentChecks + [check];
      }
      CalcSummaryText();
      ok := true;
    }

    /** `changeAttendance`: puts the selected category on `stu`, unless no
        category is selected or the check does not accept a change. */
    method ChangeAttendance(stu: StudentCheck<D>) returns (outcome: ChangeOutcome)
      modifies this`checkSummary, stu
      ensures outcome == NoAbsenceSelected <==> selectedAbsence == ""
      ensures outcome == Locked <==> selectedAbsence != "" && !old(stu.AcceptChange())
      ensures outcome != Changed ==> stu.status == old(stu.status) && checkSummary == old(checkSummary)
      ensures outcome == Changed ==>
        stu.status == stu.rules.assign(stu.student, old(stu.status), stu.periodConf, selectedAbsence) &&
        checkSummary == SummaryText(CountedCodes(studentChecks))
      ensures forall c :: c in studentChecks && c != stu ==> c.status == old(c.status)
    {
      if selectedAbsence == "" {
        return NoAbsenceSelected;
      }
      if !stu.AcceptChange() {
        return Locked;
      }
      stu.SetAttendance(selectedAbsence);
      CalcSummaryText();
      outcome := Changed;
    }

    /** The counting loop of `calcSummaryText`: a map from absence code to
        the number of counted checks with it, in first-seen order. */
    method CountSummary() returns (summary: CountMap)
      ensures summary == Tally(CountedCodes(studentChecks))
    {
      summary := EmptyCountMap;
      for i := 0 to |studentChecks|
        invariant summary == Tally(CountedCodes(studentChecks[..i]))
      {
        var check := studentChecks[i];
        ghost var seen := CountedCodes(studentChecks[..i]);
        CountedCodesSnoc(studentChecks, i);
        if !check.AcceptChange() {
          continue;
        }
        if check.status.None? {
          continue;
        }
        var code := check.status.value.AbsenceType;
        ghost var prev := summary;
        if !summary.Has(code) {
          summary := summary.Set(code, 0);
        }
        summary := summary.Set(code, summary.Get(code) + 1);
        assert summary == Bump(prev, code);
        TallySnoc(seen, code);
      }
      assert studentChecks[..|studentChecks|] == studentChecks;
    }

    /** `calcSummaryText`: counts the codes of the counted checks, then joins
        the map's entries as `code: count`. */
    method CalcSummaryText()
      modifies this`checkSummary
      ensures checkSummary == SummaryText(CountedCodes(studentChecks))
    {
      var summary := CountSummary();
      TallyValid(CountedCodes(studentChecks));
      var text := RenderEntries(summary.Entries());
      checkSummary := Join(text, ", ");
    }

    /** The items `saveRollCall` submits: one per check, in order, each the
        check's own data, however the check answers `acceptChange`. */
    method BatchItems() returns (items: seq<D>)
      ensures |items| == |studentChecks|
      ensures forall i :: 0 <= i < |studentChecks| ==> items[i] == studentChecks[i].GetCheckData()
    {
      items := [];
      for i := 0 to |studentChecks|
        invariant |items| == i
        invariant forall j :: 0 <= j < i ==> items[j] == studentChecks[j].GetCheckData()
      {
        items := items + [studentChecks[i].GetCheckData()];
      }
    }

    /** `saveRollCall`: builds the batch; `accepted` is whether the backend
        took it. When it did, the page is rebuilt from `students`, the list
        fetched afresh, rather than patched; when it did not, nothing changes
        and the edits stay for another attempt. */
    method SaveRollCall(accepted: bool, students: seq<Student>) returns (items: seq<D>, outcome: SaveOutcome)
      requires Valid()
      modifies this
      ensures |items| == |old(studentChecks)|
      ensures forall i :: 0 <= i < |items| ==> items[i] == old(studentChecks[i].GetCheckData())
      ensures Valid() && periodConf == old(periodConf) && selectedAbsence == old(selectedAbsence)
      ensures outcome == SaveFailed <==> !accepted
      ensures !accepted ==> studentChecks == old(studentChecks) && checkSummary == old(checkSummary)
      ensures accepted ==> RebuiltFrom(students, outcome == Saved) && forall c :: c in studentChecks ==> fresh(c)
      ensures outcome == Saved ==> checkSummary == SummaryText(CountedCodes(studentChecks))
      ensures outcome == ReloadFailed ==> checkSummary == old(checkSummary)
    {
      items := BatchItems();
      if !accepted {
        return items, SaveFailed;
      }
      var ok := ReloadStudentAttendances(students);
      outcome := if ok then Saved else ReloadFailed;
    }
  }
}
