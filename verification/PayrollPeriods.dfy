/** `PayrollPeriod.save`: the month checks, the unique (year, month) and the closed-period guard, under
    full and partial saves, and the date questions the payroll services ask of the table.
 */
module PayrollPeriods {
  import opened Options
  import opened StatusGuards

  // ----- Dates and periods -----

  datatype Day = Day(year: int, month: int, day: int)

  predicate AtMost(a: Day, b: Day) {
    a.year < b.year || (a.year == b.year && (a.month < b.month || (a.month == b.month && a.day <= b.day)))
  }

  datatype Period = Period(year: int, month: int, start: Day, finish: Day, status: Status, notes: string)

  datatype Field = Year | Month | Start | Finish | StatusField | Notes

  predicate Contains(p: Period, d: Day) { AtMost(p.start, d) && AtMost(d, p.finish) }

  predicate InItsYear(p: Period) { p.start.year == p.year && p.finish.year == p.year }

  predicate InItsMonth(p: Period) { p.start.month == p.month && p.finish.month == p.month }

  datatype Periods = Periods(rows: map<nat, Period>, next: nat)

  // ----- One save -----

  /** One call of `save`; `valid` stands for the checks of the code and the text fields. */
  datatype PeriodSave = PeriodSave(pk: Option<nat>, inst: Period, fields: Option<set<Field>>, valid: bool)

  /** No row but `k` has this year and month. */
  predicate MonthIsFree(s: Periods, k: Option<nat>, year: int, month: int) {
    forall j <- s.rows :: k != Some(j) ==> s.rows[j].year != year || s.rows[j].month != month
  }

  /** `full_clean`: field validators, `clean`, and the constraints against the instance. */
  predicate Clean(s: Periods, v: PeriodSave) {
    && v.inst.status in {OPEN, CLOSED} && 2000 <= v.inst.year <= 9999 && 1 <= v.inst.month <= 12
    && AtMost(v.inst.start, v.inst.finish) && InItsYear(v.inst) && InItsMonth(v.inst)
    && MonthIsFree(s, v.pk, v.inst.year, v.inst.month) && v.valid
  }

  function Merge(stored: Period, inst: Period, f: set<Field>): Period {
    Period(if Year in f then inst.year else stored.year, if Month in f then inst.month else stored.month,
           if Start in f then inst.start else stored.start, if Finish in f then inst.finish else stored.finish,
           if StatusField in f then inst.status else stored.status, if Notes in f then inst.notes else stored.notes)
  }

  function Key(s: Periods, v: PeriodSave): nat {
    match v.pk case None => s.next case Some(k) => k
  }

  function Written(s: Periods, v: PeriodSave): Period {
    if v.fields.Some? && Key(s, v) in s.rows then Merge(s.rows[Key(s, v)], v.inst, v.fields.value) else v.inst
  }

  /** The guard, `full_clean`, and the constraints of the table against the row that results. */
  predicate Accepted(s: Periods, v: PeriodSave) {
    && (v.pk.Some? && v.pk.value in s.rows ==> Accepts(Accounting, PAYROLL_PERIOD, s.rows[v.pk.value].status, v.inst.status))
    && Clean(s, v)
    && (v.fields.Some? && v.fields.value != {} ==>
          && v.pk.Some? && v.pk.value in s.rows
          && var row := Written(s, v); AtMost(row.start, row.finish) && MonthIsFree(s, v.pk, row.year, row.month))
  }

  function AfterPeriodSave(s: Periods, v: PeriodSave): Periods {
    if !Accepted(s, v) || v.fields == Some({}) then s
    else Periods(s.rows[Key(s, v) := Written(s, v)], if s.next <= Key(s, v) then Key(s, v) + 1 else s.next)
  }

  function AfterPeriodSaves(s: Periods, vs: seq<PeriodSave>): Periods {
    if vs == [] then s else AfterPeriodSave(AfterPeriodSaves(s, vs[..|vs| - 1]), vs[|vs| - 1])
  }

  class PeriodTable {
    var rows: map<nat, Period>
    var next: nat

    function Now(): Periods
      reads this
    {
      Periods(rows, next)
    }

    constructor ()
      ensures Now() == Periods(map[], 0)
    {
      rows, next := map[], 0;
    }

    method Save(pk: Option<nat>, inst: Period, fields: Option<set<Field>>, valid: bool) returns (ok: bool)
      modifies this
      ensures var v := PeriodSave(pk, inst, fields, valid);
        ok == Accepted(old(Now()), v) && Now() == AfterPeriodSave(old(Now()), v)
    {
      ok := false;
      if pk.Some? && pk.value in rows && rows[pk.value].status == CLOSED { return; }
      if !Clean(Now(), PeriodSave(pk, inst, fields, valid)) { return; }
      var row, key := inst, match pk case None => next case Some(k) => k;
      if fields.Some? {
        if fields.value == {} { return true; }
        if pk.None? || key !in rows { return; }
        row := Merge(rows[key], inst, fields.value);
        if !AtMost(row.start, row.finish) || !MonthIsFree(Now(), pk, row.year, row.month) { return; }
      }
      rows := rows[key := row];
      if next <= key { next := key + 1; }
      ok := true;
    }

    /** `close_payroll_period`; `unposted`: the period still has draft or approved salary sheets. */
    method Close(k: nat, unposted: bool) returns (closed: bool)
      modifies this
      ensures closed == (k in old(rows) && old(rows)[k].status != CLOSED && !unposted
                         && Accepted(old(Now()), PeriodSave(Some(k), old(rows)[k].(status := CLOSED), Some({StatusField}), true)))
      ensures Now() == if closed then Periods(old(rows)[k := old(rows)[k].(status := CLOSED)], if old(next) <= k then k + 1 else old(next))
                       else old(Now())
    {
      closed := false;
      if k !in rows || rows[k].status == CLOSED || unposted { return; }
      closed := Save(Some(k), rows[k].(status := CLOSED), Some({StatusField}), true);
    }
  }

  // ----- What a save asks and writes -----

  /** A day as a number; every month counts 31. */
  function Ordinal(d: Day): int { (d.year * 12 + d.month) * 31 + d.day }

  /** Days are ordered by year, then month, then day. */
  lemma AtMostIsTheOrderOfDays(a: Day, b: Day)
    requires 1 <= a.month <= 12 && 1 <= a.day <= 31 && 1 <= b.month <= 12 && 1 <= b.day <= 31
    ensures AtMost(a, b) <==> Ordinal(a) <= Ordinal(b)
  {
  }

  datatype Value = Number(n: int) | Date(d: Day) | StatusValue(s: Status) | Text(t: string)

  /** One column of a row. */
  function Column(p: Period, f: Field): Value {
    match f
    case Year => Number(p.year)
    case Month => Number(p.month)
    case Start => Date(p.start)
    case Finish => Date(p.finish)
    case StatusField => StatusValue(p.status)
    case Notes => Text(p.notes)
  }

  /** After an accepted save every written column is the instance's, every other column and every other
      period is as it was. */
  lemma SaveWritesListedColumns(s: Periods, v: PeriodSave, k: nat, f: Field)
    requires Accepted(s, v) && (v.pk == Some(k) || (v.pk.None? && k == s.next && k !in s.rows)) && (v.fields.None? || v.fields.value != {})
    ensures var s' := AfterPeriodSave(s, v);
      && s'.rows.Keys == s.rows.Keys + {k} && (forall j <- s.rows :: j != k ==> s'.rows[j] == s.rows[j])
      && Column(s'.rows[k], f) == if v.fields.None? || f in v.fields.value then Column(v.inst, f) else Column(s.rows[k], f)
  {
  }

  /** A whole period is accepted, new or over a stored one, exactly when the stored one is not closed, both
      dates lie in its year and month in this order, and no other period has that month. */
  lemma WholeSaveIsAcceptedIff(s: Periods, pk: Option<nat>, p: Period, valid: bool)
    ensures Accepted(s, PeriodSave(pk, p, None, valid)) <==>
      && (pk.Some? && pk.value in s.rows ==> s.rows[pk.value].status != CLOSED)
      && (p.status == OPEN || p.status == CLOSED) && 2000 <= p.year <= 9999 && 1 <= p.month <= 12
      && p.start.year == p.year && p.start.month == p.month && p.finish.year == p.year && p.finish.month == p.month
      && p.start.day <= p.finish.day
      && (forall j <- s.rows :: s.rows[j].year == p.year && s.rows[j].month == p.month ==> pk == Some(j))
      && valid
  {
  }

  // ----- Disjoint periods -----

  /** What the validators and the date constraint say of a row. */
  predicate InRange(p: Period) { 2000 <= p.year <= 9999 && 1 <= p.month <= 12 && AtMost(p.start, p.finish) }

  /** Periods lie in their own months, and the months differ. */
  ghost predicate Tidy(s: Periods) {
    && (forall k <- s.rows :: k < s.next && InRange(s.rows[k]) && InItsYear(s.rows[k]) && InItsMonth(s.rows[k]))
    && (forall j, k :: j in s.rows && k in s.rows && s.rows[j].year == s.rows[k].year && s.rows[j].month == s.rows[k].month ==> j == k)
  }

  ghost predicate Disjoint(s: Periods) {
    forall j, k, d :: j in s.rows && k in s.rows && Contains(s.rows[j], d) && Contains(s.rows[k], d) ==> j == k
  }

  lemma DayFixesMonth(p: Period, d: Day)
    requires InItsYear(p) && InItsMonth(p)
    ensures Contains(p, d) ==> d.year == p.year && d.month == p.month
  {
  }

  lemma TidyIsDisjoint(s: Periods)
    requires Tidy(s)
    ensures Disjoint(s)
  {
    forall j, k, d | j in s.rows && k in s.rows && Contains(s.rows[j], d) && Contains(s.rows[k], d) ensures j == k {
      DayFixesMonth(s.rows[j], d);
      DayFixesMonth(s.rows[k], d);
    }
  }

  /** Of the fields named, some are written and some are not. */
  predicate Mixes(f: set<Field>, named: set<Field>) { f * named != {} && f * named != named }

  /** A partial save that takes some of a period's bounds from memory and leaves others, while memory
      and table are about different years or months. */
  predicate Tears(s: Periods, v: PeriodSave) {
    && v.fields.Some? && v.pk.Some? && v.pk.value in s.rows
    && var stored := s.rows[v.pk.value];
       || (Mixes(v.fields.value, {Year, Start, Finish}) && v.inst.year != stored.year)
       || (Mixes(v.fields.value, {Month, Start, Finish}) && v.inst.month != stored.month)
  }

  lemma MergedYear(stored: Period, inst: Period, f: set<Field>)
    requires InItsYear(stored) && InItsYear(inst)
    ensures InItsYear(Merge(stored, inst, f)) <==> !(Mixes(f, {Year, Start, Finish}) && inst.year != stored.year)
  {
    var named := {Year, Start, Finish};
    if f * named == {} { assert forall x <- named :: x in f ==> x in f * named; }
    if f * named == named { assert forall x <- named :: x in f * named; }
  }

  lemma MergedMonth(stored: Period, inst: Period, f: set<Field>)
    requires InItsMonth(stored) && InItsMonth(inst)
    ensures InItsMonth(Merge(stored, inst, f)) <==> !(Mixes(f, {Month, Start, Finish}) && inst.month != stored.month)
  {
    var named := {Month, Start, Finish};
    if f * named == {} { assert forall x <- named :: x in f ==> x in f * named; }
    if f * named == named { assert forall x <- named :: x in f * named; }
  }

  /** `clean` checks the instance, not the row that results. An accepted save keeps every period inside
      its own month exactly when it does not tear one apart. */
  lemma SaveKeepsTidyIff(s: Periods, v: PeriodSave)
    requires Tidy(s) && Accepted(s, v)
    ensures Tidy(AfterPeriodSave(s, v)) <==> !Tears(s, v)
  {
    var k, row, s' := Key(s, v), Written(s, v), AfterPeriodSave(s, v);
    if v.fields.Some? && v.pk.Some? && k in s.rows {
      MergedYear(s.rows[k], v.inst, v.fields.value);
      MergedMonth(s.rows[k], v.inst, v.fields.value);
    }
    if v.fields != Some({}) {
      assert s'.rows[k] == row && InRange(row);
      if InItsYear(row) && InItsMonth(row) { OneRowReplaced(s, v, k, row); }
    }
  }

  lemma OneRowReplaced(s: Periods, v: PeriodSave, k: nat, row: Period)
    requires Tidy(s) && InRange(row) && InItsYear(row) && InItsMonth(row) && MonthIsFree(s, v.pk, row.year, row.month)
    requires v.pk == Some(k) || (v.pk.None? && k == s.next)
    ensures Tidy(Periods(s.rows[k := row], if s.next <= k then k + 1 else s.next))
  {
  }

  ghost predicate NeverTears(s: Periods, vs: seq<PeriodSave>) {
    vs == [] || (NeverTears(s, vs[..|vs| - 1])
                 && (Accepted(AfterPeriodSaves(s, vs[..|vs| - 1]), vs[|vs| - 1]) ==> !Tears(AfterPeriodSaves(s, vs[..|vs| - 1]), vs[|vs| - 1])))
  }

  const NO_PERIODS := Periods(map[], 0)

  /** Every run of inserts, full saves and partial saves that tear nothing keeps all stored periods
      pairwise disjoint; full saves never tear. */
  lemma {:induction false} PeriodsStayDisjoint(s: Periods, vs: seq<PeriodSave>)
    requires Tidy(s) && (NeverTears(s, vs) || forall v <- vs :: v.fields.None?)
    ensures var s' := AfterPeriodSaves(s, vs); Tidy(s') && Disjoint(s')
  {
    if vs != [] {
      assert vs[|vs| - 1] in vs;
      var init := vs[..|vs| - 1];
      assert forall v <- init :: v in vs;
      PeriodsStayDisjoint(s, init);
      if Accepted(AfterPeriodSaves(s, init), vs[|vs| - 1]) { SaveKeepsTidyIff(AfterPeriodSaves(s, init), vs[|vs| - 1]); }
    }
    TidyIsDisjoint(AfterPeriodSaves(s, vs));
  }

  /** A torn period: saving only the dates of an instance about March leaves row 1 filed under January
      with the dates of March, and March can then be created beside it. */
  lemma TornPeriodOverlaps()
    ensures var jan := Period(2025, 1, Day(2025, 1, 1), Day(2025, 1, 31), OPEN, "");
            var mar := Period(2025, 3, Day(2025, 3, 1), Day(2025, 3, 31), OPEN, "");
            var s := Periods(map[1 := jan], 2);
            var torn := PeriodSave(Some(1), mar, Some({Start, Finish}), true);
            var s1 := AfterPeriodSave(s, torn);
            var s2 := AfterPeriodSave(s1, PeriodSave(None, mar, None, true));
      Tidy(s) && Accepted(s, torn) && Tears(s, torn) && s2.rows.Keys == {1, 2} && !Disjoint(s2)
  {
    var jan := Period(2025, 1, Day(2025, 1, 1), Day(2025, 1, 31), OPEN, "");
    var mar := Period(2025, 3, Day(2025, 3, 1), Day(2025, 3, 31), OPEN, "");
    var s := Periods(map[1 := jan], 2);
    var torn := PeriodSave(Some(1), mar, Some({Start, Finish}), true);
    var s1 := AfterPeriodSave(s, torn);
    assert Written(s, torn) == mar.(year := 2025, month := 1);
    assert s1.rows == map[1 := mar.(month := 1)] && s1.next == 2;
    var s2 := AfterPeriodSave(s1, PeriodSave(None, mar, None, true));
    assert s2.rows == map[1 := mar.(month := 1), 2 := mar];
    assert Start in {Start, Finish} * {Year, Start, Finish} && Year !in {Start, Finish} * {Month, Start, Finish};
    assert Month in {Month, Start, Finish} && Month !in {Start, Finish} * {Month, Start, Finish};
    assert Start in {Start, Finish} * {Month, Start, Finish};
    assert Contains(s2.rows[1], Day(2025, 3, 5)) && Contains(s2.rows[2], Day(2025, 3, 5));
  }

  /** Every torn period is one insert away from an overlap, and no other save is: from tidy periods, an
      accepted save can be followed by an accepted insert that makes two ranges overlap if and only
      if it tears a period apart. */
  lemma OverlapFollowsIffTorn(s: Periods, v: PeriodSave)
    requires Tidy(s) && Accepted(s, v)
    ensures Tears(s, v) <==>
      exists w: PeriodSave :: w.pk.None? && w.fields.None? && Accepted(AfterPeriodSave(s, v), w)
                              && !Disjoint(AfterPeriodSave(AfterPeriodSave(s, v), w))
  {
    var s' := AfterPeriodSave(s, v);
    SaveKeepsTidyIff(s, v);
    if Tears(s, v) {
      var day := StrayDay(s, v);
      var w := PeriodSave(None, Period(day.year, day.month, day, day, OPEN, ""), None, true);
      InsertOverlaps(s', v.pk.value, day, w);
    } else {
      forall w: PeriodSave | w.pk.None? && w.fields.None? && Accepted(s', w) ensures Disjoint(AfterPeriodSave(s', w)) {
        SaveKeepsTidyIff(s', w);
        TidyIsDisjoint(AfterPeriodSave(s', w));
      }
    }
  }

  /** A torn period begins or ends in a month that no period is filed under. */
  lemma StrayDay(s: Periods, v: PeriodSave) returns (day: Day)
    requires Tidy(s) && Accepted(s, v) && Tears(s, v)
    ensures var s' := AfterPeriodSave(s, v);
      && v.pk.Some? && v.pk.value in s'.rows && Contains(s'.rows[v.pk.value], day)
      && 2000 <= day.year <= 9999 && 1 <= day.month <= 12
      && MonthIsFree(s', None, day.year, day.month)
  {
    var k, row := v.pk.value, Written(s, v);
    var stored, f := s.rows[k], v.fields.value;
    MergedYear(stored, v.inst, f);
    MergedMonth(stored, v.inst, f);
    var s' := AfterPeriodSave(s, v);
    assert f != {};
    assert s'.rows == s.rows[k := row];
    day := if row.start.year != row.year || row.start.month != row.month then row.start else row.finish;
    assert day.year != row.year || day.month != row.month;
    assert (day.year == stored.year && day.month == stored.month) || (day.year == v.inst.year && day.month == v.inst.month);
    forall j | j in s'.rows ensures s'.rows[j].year != day.year || s'.rows[j].month != day.month {
      if j != k { assert s'.rows[j] == s.rows[j]; }
    }
  }

  lemma InsertOverlaps(s: Periods, k: nat, day: Day, w: PeriodSave)
    requires (forall j <- s.rows :: j < s.next) && k in s.rows && Contains(s.rows[k], day)
    requires 2000 <= day.year <= 9999 && 1 <= day.month <= 12 && MonthIsFree(s, None, day.year, day.month)
    requires w == PeriodSave(None, Period(day.year, day.month, day, day, OPEN, ""), None, true)
    ensures Accepted(s, w) && !Disjoint(AfterPeriodSave(s, w))
  {
    var s' := AfterPeriodSave(s, w);
    assert s'.rows == s.rows[s.next := w.inst];
    assert Contains(s'.rows[k], day) && Contains(s'.rows[s.next], day);
  }

  // ----- Closed days -----

  /** `assert_payroll_period_open_for_date` raises. */
  ghost predicate ClosedDay(s: Periods, d: Day) {
    exists k :: k in s.rows && s.rows[k].status == CLOSED && Contains(s.rows[k], d)
  }

  /** `_overlapping_closed_period_exists`. */
  ghost predicate ClosedRange(s: Periods, from: Day, to: Day) {
    exists k :: k in s.rows && s.rows[k].status == CLOSED && AtMost(s.rows[k].start, to) && AtMost(from, s.rows[k].finish)
  }

  ghost predicate Forward(s: Periods) { forall k <- s.rows :: AtMost(s.rows[k].start, s.rows[k].finish) }

  /** The overlap question about a range is the closed-day question about each of its days. */
  lemma RangeIsClosedIffADayIs(s: Periods, from: Day, to: Day)
    requires Forward(s) && AtMost(from, to)
    ensures ClosedRange(s, from, to) <==> exists d :: AtMost(from, d) && AtMost(d, to) && ClosedDay(s, d)
  {
    if ClosedRange(s, from, to) {
      var k :| k in s.rows && s.rows[k].status == CLOSED && AtMost(s.rows[k].start, to) && AtMost(from, s.rows[k].finish);
      var d := if AtMost(from, s.rows[k].start) then s.rows[k].start else from;
      assert Contains(s.rows[k], d);
      assert ClosedDay(s, d);
    }
    if d :| AtMost(from, d) && AtMost(d, to) && ClosedDay(s, d) {
      var k :| k in s.rows && s.rows[k].status == CLOSED && Contains(s.rows[k], d);
      assert AtMost(s.rows[k].start, to) && AtMost(from, s.rows[k].finish);
    }
  }

  /** No save of any kind changes a closed row. */
  lemma {:induction false} ClosedRowIsFinal(s: Periods, vs: seq<PeriodSave>, k: nat)
    requires k in s.rows && k < s.next && s.rows[k].status == CLOSED
    ensures var s' := AfterPeriodSaves(s, vs); k in s'.rows && k < s'.next && s'.rows[k] == s.rows[k]
  {
    if vs != [] { ClosedRowIsFinal(s, vs[..|vs| - 1], k); }
  }

  /** Period `k` is closed and is the only one around day `d`. */
  ghost predicate Alone(s: Periods, k: nat, d: Day) {
    && k in s.rows && k < s.next && s.rows[k].status == CLOSED && Contains(s.rows[k], d)
    && forall j <- s.rows :: j != k ==> !Contains(s.rows[j], d)
  }

  lemma TidyIsAlone(s: Periods, k: nat, d: Day)
    requires Tidy(s) && k in s.rows && s.rows[k].status == CLOSED && Contains(s.rows[k], d)
    ensures Alone(s, k, d)
  {
    TidyIsDisjoint(s);
  }

  /** A partial save that writes one end of a period and not the other, so that day `d` comes to lie
      between the end in memory and the stored one. */
  predicate Spans(s: Periods, v: PeriodSave, d: Day) {
    && v.fields.Some? && v.pk.Some? && v.pk.value in s.rows
    && var f, stored := v.fields.value, s.rows[v.pk.value];
       || (Start in f && Finish !in f && AtMost(v.inst.start, d) && AtMost(d, stored.finish))
       || (Finish in f && Start !in f && AtMost(stored.start, d) && AtMost(d, v.inst.finish))
  }

  /** A save that writes both ends of an instance that contains the day. */
  predicate Brings(v: PeriodSave, d: Day) {
    (v.fields.None? || (Start in v.fields.value && Finish in v.fields.value)) && Contains(v.inst, d)
  }

  /** Around a closed day stands no second period after an accepted save exactly when the save neither
      spans the day nor brings it. */
  lemma SaveKeepsAloneIff(s: Periods, v: PeriodSave, k: nat, d: Day)
    requires Alone(s, k, d) && Accepted(s, v)
    ensures Alone(AfterPeriodSave(s, v), k, d) <==> !Spans(s, v, d) && !Brings(v, d)
  {
    var key, row := Key(s, v), Written(s, v);
    if v.fields != Some({}) {
      assert key != k;
      assert Contains(row, d) <==> Spans(s, v, d) || Brings(v, d);
      OneMorePeriod(s, AfterPeriodSave(s, v), key, row, k, d);
    }
  }

  lemma OneMorePeriod(s: Periods, s': Periods, key: nat, row: Period, k: nat, d: Day)
    requires Alone(s, k, d) && key != k && s'.rows == s.rows[key := row] && s.next <= s'.next
    ensures Alone(s', k, d) <==> !Contains(row, d)
  {
    assert s'.rows[key] == row;
    assert Alone(s', k, d) ==> !Contains(s'.rows[key], d);
  }

  /** The month check refuses to bring a day of a closed period that lies in its own month: inserts,
      full saves and partial saves of both ends are harmless there. */
  lemma ClosedMonthIsNotBrought(s: Periods, v: PeriodSave, k: nat, d: Day)
    requires k in s.rows && k < s.next && s.rows[k].status == CLOSED && Contains(s.rows[k], d) && Accepted(s, v)
    requires InItsYear(s.rows[k]) && InItsMonth(s.rows[k])
    ensures !Brings(v, d)
  {
    DayFixesMonth(s.rows[k], d);
    assert v.pk != Some(k);
    assert v.inst.year != d.year || v.inst.month != d.month;
    DayFixesMonth(v.inst, d);
  }

  /** A stored period leaves its month exactly by a save that tears it. */
  lemma PeriodLeavesItsMonthIff(s: Periods, v: PeriodSave, k: nat)
    requires k in s.rows && InItsYear(s.rows[k]) && InItsMonth(s.rows[k]) && v.pk == Some(k) && Accepted(s, v)
    ensures var row := AfterPeriodSave(s, v).rows[k]; InItsYear(row) && InItsMonth(row) <==> !Tears(s, v)
  {
    if v.fields.Some? {
      MergedYear(s.rows[k], v.inst, v.fields.value);
      MergedMonth(s.rows[k], v.inst, v.fields.value);
    }
  }

  ghost predicate AlwaysAlone(s: Periods, vs: seq<PeriodSave>, k: nat, d: Day) {
    Alone(AfterPeriodSaves(s, vs), k, d) && (vs == [] || AlwaysAlone(s, vs[..|vs| - 1], k, d))
  }

  /** No accepted save spans or brings the day at its turn. */
  ghost predicate NeverReaches(s: Periods, vs: seq<PeriodSave>, d: Day) {
    vs == [] || (NeverReaches(s, vs[..|vs| - 1], d)
                 && var now, v := AfterPeriodSaves(s, vs[..|vs| - 1]), vs[|vs| - 1]; Accepted(now, v) ==> !Spans(now, v, d) && !Brings(v, d))
  }

  /** No accepted save spans the day at its turn. */
  ghost predicate NeverSpans(s: Periods, vs: seq<PeriodSave>, d: Day) {
    vs == [] || (NeverSpans(s, vs[..|vs| - 1], d)
                 && var now, v := AfterPeriodSaves(s, vs[..|vs| - 1]), vs[|vs| - 1]; Accepted(now, v) ==> !Spans(now, v, d))
  }

  /** Whatever is saved, a closed day stays closed by its unchanged period; and over the whole run no
      other period is ever created around it or moved onto it if and only if no save spans or brings
      it. */
  lemma {:induction false} ClosedDayStaysClosed(s: Periods, vs: seq<PeriodSave>, k: nat, d: Day)
    requires Alone(s, k, d)
    ensures var s' := AfterPeriodSaves(s, vs); ClosedDay(s', d) && k in s'.rows && s'.rows[k] == s.rows[k]
    ensures AlwaysAlone(s, vs, k, d) <==> NeverReaches(s, vs, d)
  {
    ClosedRowIsFinal(s, vs, k);
    if vs != [] {
      var init := vs[..|vs| - 1];
      ClosedDayStaysClosed(s, init, k, d);
      var now, v := AfterPeriodSaves(s, init), vs[|vs| - 1];
      if Alone(now, k, d) && Accepted(now, v) { SaveKeepsAloneIff(now, v, k, d); }
    }
  }

  /** For a closed period in its own month only spanning saves count, over the whole run: its row never
      changes, so it stays in its month. */
  lemma {:induction false} ClosedMonthIsOnlySpanned(s: Periods, vs: seq<PeriodSave>, k: nat, d: Day)
    requires Alone(s, k, d) && InItsYear(s.rows[k]) && InItsMonth(s.rows[k])
    ensures AlwaysAlone(s, vs, k, d) <==> NeverSpans(s, vs, d)
  {
    ClosedDayStaysClosed(s, vs, k, d);
    if vs != [] {
      var init := vs[..|vs| - 1];
      ClosedMonthIsOnlySpanned(s, init, k, d);
      ClosedDayStaysClosed(s, init, k, d);
      ClosedRowIsFinal(s, init, k);
      var now, v := AfterPeriodSaves(s, init), vs[|vs| - 1];
      if Accepted(now, v) { ClosedMonthIsNotBrought(now, v, k, d); }
    }
  }

  /** Saves that tear nothing span nothing closed. */
  lemma UntornSavesSpanNothing(s: Periods, v: PeriodSave, k: nat, d: Day)
    requires Tidy(s) && Accepted(s, v) && !Tears(s, v) && k in s.rows && s.rows[k].status == CLOSED && Contains(s.rows[k], d)
    ensures !Spans(s, v, d) && !Brings(v, d)
  {
    TidyIsAlone(s, k, d);
    SaveKeepsTidyIff(s, v);
    ClosedRowIsFinal(s, [v], k);
    assert [v][..0] == [] && AfterPeriodSaves(s, [v]) == AfterPeriodSave(s, v);
    TidyIsAlone(AfterPeriodSave(s, v), k, d);
    SaveKeepsAloneIff(s, v, k, d);
  }

  /** A closed period outside its month: January 2025 is inserted, a save of dates and status by an
      instance about March closes it over March, and then the open period of March is inserted. */
  lemma StrayClosedPeriod()
    ensures var jan := Period(2025, 1, Day(2025, 1, 1), Day(2025, 1, 31), OPEN, "");
            var mar := Period(2025, 3, Day(2025, 3, 1), Day(2025, 3, 31), OPEN, "");
            var torn := PeriodSave(Some(0), mar.(status := CLOSED), Some({Start, Finish, StatusField}), true);
            var insert := PeriodSave(None, mar, None, true);
            var s1 := AfterPeriodSave(NO_PERIODS, PeriodSave(None, jan, None, true));
            var s2 := AfterPeriodSave(s1, torn);
            var day := Day(2025, 3, 15);
      && Accepted(s1, torn) && Tears(s1, torn) && Alone(s2, 0, day) && !InItsMonth(s2.rows[0])
      && Accepted(s2, insert) && !Spans(s2, insert, day) && Brings(insert, day)
      && Contains(AfterPeriodSave(s2, insert).rows[1], day) && AfterPeriodSave(s2, insert).rows[1].status == OPEN
  {
    var jan := Period(2025, 1, Day(2025, 1, 1), Day(2025, 1, 31), OPEN, "");
    var mar := Period(2025, 3, Day(2025, 3, 1), Day(2025, 3, 31), OPEN, "");
    var f := {Start, Finish, StatusField};
    var torn := PeriodSave(Some(0), mar.(status := CLOSED), Some(f), true);
    var s1 := AfterPeriodSave(NO_PERIODS, PeriodSave(None, jan, None, true));
    assert s1 == Periods(map[0 := jan], 1);
    assert Merge(jan, torn.inst, f) == mar.(month := 1, status := CLOSED);
    assert Start in f * {Month, Start, Finish} && Month in {Month, Start, Finish} && Month !in f;
    var s2 := AfterPeriodSave(s1, torn);
    assert s2 == Periods(map[0 := mar.(month := 1, status := CLOSED)], 1);
  }

  /** An open period over a closed day: January is closed; saving only the start of an instance about
      December makes the open February period run from 1 December to 28 February. */
  lemma OpenPeriodOverClosedDay()
    ensures var jan := Period(2025, 1, Day(2025, 1, 1), Day(2025, 1, 31), CLOSED, "");
            var feb := Period(2025, 2, Day(2025, 2, 1), Day(2025, 2, 28), OPEN, "");
            var dec := Period(2024, 12, Day(2024, 12, 1), Day(2024, 12, 31), OPEN, "");
            var s := Periods(map[1 := jan, 2 := feb], 3);
            var v := PeriodSave(Some(2), dec, Some({Start}), true);
            var day := Day(2025, 1, 15);
      && Tidy(s) && Alone(s, 1, day) && Accepted(s, v) && Spans(s, v, day)
      && AfterPeriodSave(s, v).rows[2] == feb.(start := dec.start) && Contains(AfterPeriodSave(s, v).rows[2], day)
  {
    var jan := Period(2025, 1, Day(2025, 1, 1), Day(2025, 1, 31), CLOSED, "");
    var feb := Period(2025, 2, Day(2025, 2, 1), Day(2025, 2, 28), OPEN, "");
    var dec := Period(2024, 12, Day(2024, 12, 1), Day(2024, 12, 31), OPEN, "");
    TwoMonthsAreTidy(jan, feb);
    TidyIsAlone(Periods(map[1 := jan, 2 := feb], 3), 1, Day(2025, 1, 15));
    assert Merge(feb, dec, Some({Start}).value) == feb.(start := dec.start);
  }

  lemma TwoMonthsAreTidy(a: Period, b: Period)
    requires InRange(a) && InItsYear(a) && InItsMonth(a) && InRange(b) && InItsYear(b) && InItsMonth(b) && a.month != b.month
    ensures Tidy(Periods(map[1 := a, 2 := b], 3))
  {
  }

  /** Closing a tidy, open period through the service always succeeds once its sheets are posted, and
      tears nothing. */
  lemma ClosingIsSafe(s: Periods, k: nat)
    requires Tidy(s) && k in s.rows && s.rows[k].status == OPEN
    ensures var v := PeriodSave(Some(k), s.rows[k].(status := CLOSED), Some({StatusField}), true);
      Accepted(s, v) && !Tears(s, v) && Tidy(AfterPeriodSave(s, v)) && AfterPeriodSave(s, v).rows[k] == s.rows[k].(status := CLOSED)
  {
    var v := PeriodSave(Some(k), s.rows[k].(status := CLOSED), Some({StatusField}), true);
    assert Written(s, v) == s.rows[k].(status := CLOSED);
    assert {StatusField} * {Year, Start, Finish} == {} && {StatusField} * {Month, Start, Finish} == {};
    SaveKeepsTidyIff(s, v);
  }
}
