/** Staff advances: `StaffAdvance.save` with its posted-reference guard and partial updates, and the
    service that disburses and recovers advances through it. Amounts are integer paise.
 */
module StaffAdvances {
  import opened Options

  datatype Status = DRAFT | APPROVED | DISBURSED | PARTIALLY_RECOVERED | RECOVERED | CANCELLED

  datatype Field = Employee | Amount | Recovered | StatusField | FinanceAccount | ReferenceNo | Approval | Journal | Notes | UpdatedAt

  datatype Row = Row(employee: nat, amount: int, recovered: int, status: Status, financeAccount: Option<nat>,
                     referenceNo: string, approvedBy: Option<nat>, journal: Option<nat>, notes: string, updatedAt: int)

  datatype Store = Store(rows: map<nat, Row>, next: nat)

  const RECOVERY_TRACKING_FIELDS := {Recovered, StatusField, UpdatedAt}

  function Outstanding(r: Row): int {
    if r.amount - r.recovered > 0 then r.amount - r.recovered else 0
  }

  // ----- One save -----

  /** One call of `save`: the instance in memory, `update_fields`, the clock, and whether the
      instance's finance account is active. */
  datatype Save = Save(pk: Option<nat>, inst: Row, fields: Option<set<Field>>, now: int, active: bool)

  predicate TracksRecovery(fields: Option<set<Field>>) {
    fields.Some? && fields.value != {} && fields.value <= RECOVERY_TRACKING_FIELDS
  }

  /** `full_clean` of the instance in memory. */
  predicate Clean(s: Store, v: Save) {
    && v.inst.amount >= 1 && v.inst.recovered >= 0 && v.inst.recovered <= v.inst.amount
    && (v.inst.financeAccount.Some? ==> v.active)
    && (v.inst.journal.Some? ==> forall k <- s.rows :: v.pk != Some(k) ==> s.rows[k].journal != v.inst.journal)
  }

  predicate Accepted(s: Store, v: Save) {
    && (TracksRecovery(v.fields) || !(v.pk.Some? && v.pk.value in s.rows && s.rows[v.pk.value].journal.Some?))
    && Clean(s, v)
    && (v.fields.Some? && v.fields.value != {} ==> v.pk.Some? && v.pk.value in s.rows)
  }

  /** The stored row after an UPDATE of `fields`: those from memory, the others as they were. */
  function Merge(stored: Row, inst: Row, fields: set<Field>, now: int): Row {
    Row(if Employee in fields then inst.employee else stored.employee,
        if Amount in fields then inst.amount else stored.amount,
        if Recovered in fields then inst.recovered else stored.recovered,
        if StatusField in fields then inst.status else stored.status,
        if FinanceAccount in fields then inst.financeAccount else stored.financeAccount,
        if ReferenceNo in fields then inst.referenceNo else stored.referenceNo,
        if Approval in fields then inst.approvedBy else stored.approvedBy,
        if Journal in fields then inst.journal else stored.journal,
        if Notes in fields then inst.notes else stored.notes,
        if UpdatedAt in fields then now else stored.updatedAt)
  }

  function KeyFor(s: Store, v: Save): nat {
    match v.pk case None => s.next case Some(k) => k
  }

  /** An empty `update_fields` is a save that writes nothing. */
  function AfterSave(s: Store, v: Save): Store {
    if !Accepted(s, v) || v.fields == Some({}) then s
    else
      var k := KeyFor(s, v);
      var row := if v.fields.Some? && k in s.rows then Merge(s.rows[k], v.inst, v.fields.value, v.now) else v.inst.(updatedAt := v.now);
      Store(s.rows[k := row], if s.next <= k then k + 1 else s.next)
  }

  function AfterSaves(s: Store, vs: seq<Save>): Store {
    if vs == [] then s else AfterSave(AfterSaves(s, vs[..|vs| - 1]), vs[|vs| - 1])
  }

  class AdvanceTable {
    var rows: map<nat, Row>
    var next: nat

    function Now(): Store
      reads this
    {
      Store(rows, next)
    }

    constructor ()
      ensures Now() == Store(map[], 0)
    {
      rows, next := map[], 0;
    }
  }

  /** An instance in memory. */
  class StaffAdvance {
    var pk: Option<nat>
    var row: Row

    constructor (pk: Option<nat>, row: Row)
      ensures this.pk == pk && this.row == row
    {
      this.pk, this.row := pk, row;
    }

    method SaveTo(table: AdvanceTable, fields: Option<set<Field>>, now: int, active: bool) returns (ok: bool)
      modifies this, table
      ensures var s, v := old(table.Now()), Save(old(pk), old(row), fields, now, active);
        && ok == Accepted(s, v)
        && table.Now() == AfterSave(s, v)
        && pk == (if ok && fields.None? then Some(KeyFor(s, v)) else old(pk))
        && row == (if ok && (fields.None? || UpdatedAt in fields.value) then old(row).(updatedAt := now) else old(row))
    {
      ok := false;
      var tracking := fields.Some? && fields.value != {} && fields.value <= RECOVERY_TRACKING_FIELDS;
      if !tracking && pk.Some? && pk.value in table.rows {
        if table.rows[pk.value].journal.Some? { return; }
      }
      if !Clean(table.Now(), Save(pk, row, fields, now, active)) { return; }
      if fields.Some? {
        if fields.value == {} { return true; }
        if pk.None? || pk.value !in table.rows { return; }
        table.rows := table.rows[pk.value := Merge(table.rows[pk.value], row, fields.value, now)];
        if table.next <= pk.value { table.next := pk.value + 1; }
        if UpdatedAt in fields.value { row := row.(updatedAt := now); }
      } else {
        if pk.None? { pk := Some(table.next); }
        row := row.(updatedAt := now);
        table.rows := table.rows[pk.value := row];
        if table.next <= pk.value { table.next := pk.value + 1; }
      }
      ok := true;
    }
  }

  // ----- What a save writes -----

  datatype Value = StatusValue(s: Status) | Number(n: int) | Text(t: string) | Ref(r: Option<nat>)

  /** One column of a row. */
  function Column(r: Row, f: Field): Value {
    match f
    case Employee => Number(r.employee)
    case Amount => Number(r.amount)
    case Recovered => Number(r.recovered)
    case StatusField => StatusValue(r.status)
    case FinanceAccount => Ref(r.financeAccount)
    case ReferenceNo => Text(r.referenceNo)
    case Approval => Ref(r.approvedBy)
    case Journal => Ref(r.journal)
    case Notes => Text(r.notes)
    case UpdatedAt => Number(r.updatedAt)
  }

  /** After an accepted save every written column is the instance's, the timestamp the current time;
      every other column and every other row is as it was. */
  lemma SaveWritesListedColumns(s: Store, v: Save, k: nat, f: Field)
    requires Accepted(s, v) && (v.pk == Some(k) || (v.pk.None? && k == s.next && k !in s.rows)) && (v.fields.None? || v.fields.value != {})
    ensures var s' := AfterSave(s, v);
      && s'.rows.Keys == s.rows.Keys + {k} && (forall j <- s.rows :: j != k ==> s'.rows[j] == s.rows[j])
      && Column(s'.rows[k], f) == if v.fields.None? || f in v.fields.value
                                  then (if f == UpdatedAt then Number(v.now) else Column(v.inst, f)) else Column(s.rows[k], f)
  {
  }

  /** What a save of a stored row is asked. */
  lemma SaveIsAcceptedIff(s: Store, v: Save, k: nat)
    requires k in s.rows && v.pk == Some(k)
    ensures Accepted(s, v) <==>
      && (s.rows[k].journal.None? || (v.fields.Some? && v.fields.value != {} && forall f <- v.fields.value :: f == Recovered || f == StatusField || f == UpdatedAt))
      && v.inst.amount > 0 && 0 <= v.inst.recovered <= v.inst.amount
      && (v.inst.financeAccount.None? || v.active)
      && (v.inst.journal.None? || forall j <- s.rows :: j == k || s.rows[j].journal != v.inst.journal)
  {
  }

  // ----- What runs of saves keep -----

  ghost predicate KeysBelowNext(s: Store) { forall k <- s.rows :: k < s.next }

  /** All but the three recovery-tracking fields agree. */
  predicate SameDisbursement(a: Row, b: Row) {
    a.(recovered := b.recovered, status := b.status, updatedAt := b.updatedAt) == b
  }

  /** Once a stored advance has a journal, no sequence of full and partial saves, of any instances,
      changes anything of it but the three recovery-tracking fields. */
  lemma {:induction false} DisbursementIsFrozen(s: Store, vs: seq<Save>, k: nat)
    requires KeysBelowNext(s) && k in s.rows && s.rows[k].journal.Some?
    ensures var s' := AfterSaves(s, vs);
      KeysBelowNext(s') && k in s'.rows && SameDisbursement(s.rows[k], s'.rows[k])
  {
    if vs != [] {
      DisbursementIsFrozen(s, vs[..|vs| - 1], k);
    }
  }

  ghost predicate WithinAmount(r: Row) { 0 <= r.recovered <= r.amount }

  /** A save that writes one of the two amounts while memory and table disagree on the other, and
      the written one does not fit the stored one. */
  predicate Overruns(stored: Row, v: Save) {
    && v.fields.Some?
    && ((Recovered in v.fields.value && Amount !in v.fields.value && v.inst.recovered > stored.amount)
        || (Amount in v.fields.value && Recovered !in v.fields.value && stored.recovered > v.inst.amount))
  }

  /** The check that recovered stays within the amount is made on the instance, not on the row that
      results. It protects the table exactly when the save does not overrun. */
  lemma RecoveredWithinAmountIffNoOverrun(s: Store, v: Save, k: nat)
    requires k in s.rows && v.pk == Some(k) && WithinAmount(s.rows[k]) && Accepted(s, v)
    ensures WithinAmount(AfterSave(s, v).rows[k]) <==> !Overruns(s.rows[k], v)
  {
  }

  ghost predicate AllWithin(s: Store) { forall k <- s.rows :: WithinAmount(s.rows[k]) }

  ghost predicate AlwaysWithin(s: Store, vs: seq<Save>) {
    AllWithin(AfterSaves(s, vs)) && (vs == [] || AlwaysWithin(s, vs[..|vs| - 1]))
  }

  /** An accepted save of a stored row that overruns it. */
  predicate OverrunsIn(s: Store, v: Save) {
    Accepted(s, v) && v.pk.Some? && v.pk.value in s.rows && Overruns(s.rows[v.pk.value], v)
  }

  lemma AgreementIsNoOverrun(s: Store, v: Save)
    requires AllWithin(s) && (v.pk.Some? && v.pk.value in s.rows ==> v.inst.amount == s.rows[v.pk.value].amount)
    ensures !OverrunsIn(s, v)
  {
  }

  ghost predicate NeverOverruns(s: Store, vs: seq<Save>) {
    vs == [] || (NeverOverruns(s, vs[..|vs| - 1]) && !OverrunsIn(AfterSaves(s, vs[..|vs| - 1]), vs[|vs| - 1]))
  }

  lemma SaveKeepsWithinIff(s: Store, v: Save)
    requires AllWithin(s)
    ensures AllWithin(AfterSave(s, v)) <==> !OverrunsIn(s, v)
  {
    if Accepted(s, v) && v.pk.Some? && v.pk.value in s.rows {
      RecoveredWithinAmountIffNoOverrun(s, v, v.pk.value);
    }
  }

  /** Over any mix of full and partial saves, of old rows and new, every stored advance stays within
      its amount at every moment if and only if no save overruns the row it finds; and then what is
      outstanding and what is recovered always make up the amount. */
  lemma {:induction false} RunsStayWithinIffNoOverrun(s: Store, vs: seq<Save>)
    requires AllWithin(s)
    ensures AlwaysWithin(s, vs) <==> NeverOverruns(s, vs)
    ensures AlwaysWithin(s, vs) ==> forall k <- AfterSaves(s, vs).rows ::
      var r := AfterSaves(s, vs).rows[k]; Outstanding(r) + r.recovered == r.amount
  {
    if vs != [] {
      RunsStayWithinIffNoOverrun(s, vs[..|vs| - 1]);
      var now := AfterSaves(s, vs[..|vs| - 1]);
      if AllWithin(now) { SaveKeepsWithinIff(now, vs[|vs| - 1]); }
    }
  }

  /** Every saved instance has the amount that is stored. */
  ghost predicate AmountsAgree(s: Store, vs: seq<Save>) {
    vs == [] || (AmountsAgree(s, vs[..|vs| - 1])
                 && var now, v := AfterSaves(s, vs[..|vs| - 1]), vs[|vs| - 1];
                    v.pk.Some? && v.pk.value in now.rows ==> v.inst.amount == now.rows[v.pk.value].amount)
  }

  /** In particular over every run of instances that agree with the table on the amount. */
  lemma {:induction false} AgreementIsEnough(s: Store, vs: seq<Save>)
    requires AllWithin(s) && AmountsAgree(s, vs)
    ensures AlwaysWithin(s, vs)
    ensures forall k <- AfterSaves(s, vs).rows ::
      var r := AfterSaves(s, vs).rows[k]; 0 <= r.recovered <= r.amount && Outstanding(r) + r.recovered == r.amount
  {
    if vs != [] {
      AgreementIsEnough(s, vs[..|vs| - 1]);
      var now, v := AfterSaves(s, vs[..|vs| - 1]), vs[|vs| - 1];
      SaveKeepsWithinIff(now, v);
      AgreementIsNoOverrun(now, v);
    }
  }

  /** A stale instance: 1.00 was advanced, memory says 5.00, and 3.00 is stored as recovered. */
  lemma StaleInstanceOverrecovers()
    ensures var stored := Row(1, 100, 0, DISBURSED, None, "", None, Some(7), "", 0);
            var s := Store(map[1 := stored], 2);
            var v := Save(Some(1), stored.(amount := 500, recovered := 300), Some({Recovered, StatusField, UpdatedAt}), 1, true);
      Accepted(s, v) && AfterSave(s, v).rows[1].recovered == 300 && AfterSave(s, v).rows[1].amount == 100
  {
  }

  // ----- The service -----

  /** A recovery row. */
  datatype Recovery = Recovery(advance: nat, amount: int)

  /** A line on the staff advance asset account. */
  datatype Posting = Posting(advance: nat, debit: int, credit: int)

  datatype Books = Books(store: Store, recoveries: seq<Recovery>, asset: seq<Posting>)

  /** `active`: the row's finance account is active when it is saved; `ready`: the journal could be
      booked and posted; `journal`: the id it got. Both recovery functions are `Recover`: they differ
      in the account debited, not in what happens to the advance. */
  datatype Call =
    | Request(row: Row, active: bool)
    | Approve(advance: nat, user: nat, active: bool)
    | Disburse(advance: nat, account: nat, journal: nat, ready: bool, active: bool)
    | Recover(advance: nat, amount: int, ready: bool, active: bool)

  const BLANK := Row(0, 0, 0, DRAFT, None, "", None, None, "", 0)

  /** The save a call ends with: a freshly locked row, changed in memory. */
  function FinalSave(s: Store, c: Call): Save {
    match c
    case Request(row, active) => Save(None, row.(status := DRAFT, recovered := 0, journal := None), None, 0, active)
    case Approve(k, user, active) =>
      var row := if k in s.rows then s.rows[k] else BLANK;
      Save(Some(k), row.(status := APPROVED, approvedBy := Some(user)), Some({StatusField, Approval, UpdatedAt}), 0, active)
    case Disburse(k, account, journal, _, active) =>
      var row := if k in s.rows then s.rows[k] else BLANK;
      Save(Some(k), row.(financeAccount := Some(account), status := DISBURSED, journal := Some(journal)),
           Some({FinanceAccount, ReferenceNo, StatusField, Journal, UpdatedAt}), 0, active)
    case Recover(k, value, _, active) =>
      var row := if k in s.rows then s.rows[k] else BLANK;
      var total := row.recovered + value;
      Save(Some(k), row.(recovered := total, status := if total == row.amount then RECOVERED else PARTIALLY_RECOVERED),
           Some({Recovered, StatusField, UpdatedAt}), 0, active)
  }

  /** The checks a call makes before it writes. */
  predicate Permitted(s: Store, c: Call) {
    match c
    case Request(_, _) => true
    case Approve(k, _, _) => k in s.rows && s.rows[k].status == DRAFT
    case Disburse(k, _, _, ready, _) => k in s.rows && s.rows[k].status == APPROVED && ready && s.rows[k].amount > 0
    case Recover(k, value, ready, _) =>
      k in s.rows && s.rows[k].status in {DISBURSED, PARTIALLY_RECOVERED} && 0 < value <= Outstanding(s.rows[k]) && ready
  }

  /** The recovery row a call adds, if any, */
  function NewRecoveries(c: Call): seq<Recovery> {
    if c.Recover? then [Recovery(c.advance, c.amount)] else []
  }

  /** and the line it books on the asset account. */
  function NewPostings(v: Save, c: Call): seq<Posting> {
    if c.Disburse? then [Posting(c.advance, v.inst.amount, 0)]
    else if c.Recover? then [Posting(c.advance, 0, c.amount)]
    else []
  }

  /** All writes of a call happen or none does. */
  function AfterCall(b: Books, c: Call): Books {
    var v := FinalSave(b.store, c);
    if !Permitted(b.store, c) || !Accepted(b.store, v) then b
    else Books(AfterSave(b.store, v), b.recoveries + NewRecoveries(c), b.asset + NewPostings(v, c))
  }

  function AfterCalls(b: Books, cs: seq<Call>): Books {
    if cs == [] then b else AfterCall(AfterCalls(b, cs[..|cs| - 1]), cs[|cs| - 1])
  }

  function RecoveredRows(rs: seq<Recovery>, k: nat): int {
    if rs == [] then 0 else
      RecoveredRows(rs[..|rs| - 1], k) + (if rs[|rs| - 1].advance == k then rs[|rs| - 1].amount else 0)
  }

  function AssetBalance(ps: seq<Posting>, k: nat): int {
    if ps == [] then 0 else
      AssetBalance(ps[..|ps| - 1], k) + (if ps[|ps| - 1].advance == k then ps[|ps| - 1].debit - ps[|ps| - 1].credit else 0)
  }

  /** What `outstanding_staff_advances` counts for one advance. */
  function Owed(r: Row): int {
    if r.status in {DISBURSED, PARTIALLY_RECOVERED} then Outstanding(r) else 0
  }

  /** The status of an advance says exactly where its money is. */
  predicate StatusMatches(r: Row) {
    match r.status
    case DRAFT => r.journal.None? && r.recovered == 0
    case APPROVED => r.journal.None? && r.recovered == 0
    case DISBURSED => r.journal.Some? && r.recovered == 0
    case PARTIALLY_RECOVERED => r.journal.Some? && 0 < r.recovered < r.amount
    case RECOVERED => r.journal.Some? && r.recovered == r.amount
    case CANCELLED => false
  }

  ghost predicate Conserved(b: Books, k: nat) {
    if k in b.store.rows then
      var r := b.store.rows[k];
      && r.amount >= 1 && StatusMatches(r)
      && RecoveredRows(b.recoveries, k) == r.recovered
      && AssetBalance(b.asset, k) == Owed(r)
    else RecoveredRows(b.recoveries, k) == 0 && AssetBalance(b.asset, k) == 0
  }

  lemma {:induction false} RecoveredRowsAppend(rs: seq<Recovery>, more: seq<Recovery>, k: nat)
    ensures RecoveredRows(rs + more, k) == RecoveredRows(rs, k) + RecoveredRows(more, k)
  {
    if more == [] {
      assert rs + more == rs;
    } else {
      assert (rs + more)[..|rs + more| - 1] == rs + more[..|more| - 1];
      RecoveredRowsAppend(rs, more[..|more| - 1], k);
    }
  }

  lemma {:induction false} AssetBalanceAppend(ps: seq<Posting>, more: seq<Posting>, k: nat)
    ensures AssetBalance(ps + more, k) == AssetBalance(ps, k) + AssetBalance(more, k)
  {
    if more == [] {
      assert ps + more == ps;
    } else {
      assert (ps + more)[..|ps + more| - 1] == ps + more[..|more| - 1];
      AssetBalanceAppend(ps, more[..|more| - 1], k);
    }
  }

  /** How much an effective call recovers, and what it puts on the asset account. */
  function RecoveredBy(c: Call): int { if c.Recover? then c.amount else 0 }

  function BookedBy(v: Save, c: Call): int {
    if c.Disburse? then v.inst.amount else if c.Recover? then -c.amount else 0
  }

  /** An effective call writes one row, */
  lemma CallWrites(b: Books, c: Call)
    requires Permitted(b.store, c) && Accepted(b.store, FinalSave(b.store, c))
    ensures var s', v := AfterCall(b, c).store, FinalSave(b.store, c);
      && s'.rows == b.store.rows[KeyFor(b.store, v) := v.inst.(updatedAt := 0)]
      && (!c.Request? ==> KeyFor(b.store, v) == c.advance)
  {
  }

  /** and moves the sums of that advance only. */
  lemma CallBooks(b: Books, c: Call, k: nat)
    requires Permitted(b.store, c) && Accepted(b.store, FinalSave(b.store, c))
    ensures var b', v := AfterCall(b, c), FinalSave(b.store, c);
      var mine := !c.Request? && c.advance == k;
      && RecoveredRows(b'.recoveries, k) == RecoveredRows(b.recoveries, k) + (if mine then RecoveredBy(c) else 0)
      && AssetBalance(b'.asset, k) == AssetBalance(b.asset, k) + (if mine then BookedBy(v, c) else 0)
  {
    var v := FinalSave(b.store, c);
    RecoveredRowsAppend(b.recoveries, NewRecoveries(c), k);
    AssetBalanceAppend(b.asset, NewPostings(v, c), k);
  }

  function OldRecovered(s: Store, k: nat): int { if k in s.rows then s.rows[k].recovered else 0 }

  function OldOwed(s: Store, k: nat): int { if k in s.rows then Owed(s.rows[k]) else 0 }

  /** The row in memory when a call saves it, against the row it was read from. */
  lemma RowStep(s: Store, c: Call)
    requires KeysBelowNext(s) && Permitted(s, c) && Accepted(s, FinalSave(s, c))
    requires !c.Request? ==> StatusMatches(s.rows[c.advance])
    ensures var v := FinalSave(s, c);
      var k := KeyFor(s, v);
      && v.inst.amount >= 1 && StatusMatches(v.inst)
      && v.inst.recovered == OldRecovered(s, k) + RecoveredBy(c)
      && Owed(v.inst) == OldOwed(s, k) + BookedBy(v, c)
  {
  }

  lemma ConservedStep(b: Books, b': Books, key: nat, r: Row, recovered: int, booked: int, k: nat)
    requires Conserved(b, k) && b'.store.rows == b.store.rows[key := r]
    requires r.amount >= 1 && StatusMatches(r)
    requires r.recovered == OldRecovered(b.store, key) + recovered && Owed(r) == OldOwed(b.store, key) + booked
    requires RecoveredRows(b'.recoveries, k) == RecoveredRows(b.recoveries, k) + (if key == k then recovered else 0)
    requires AssetBalance(b'.asset, k) == AssetBalance(b.asset, k) + (if key == k then booked else 0)
    ensures Conserved(b', k)
  {
  }

  lemma CallConserves(b: Books, c: Call, k: nat)
    requires KeysBelowNext(b.store) && Conserved(b, k)
    requires !c.Request? && c.advance in b.store.rows ==> StatusMatches(b.store.rows[c.advance])
    ensures Conserved(AfterCall(b, c), k)
  {
    var v := FinalSave(b.store, c);
    if Permitted(b.store, c) && Accepted(b.store, v) {
      CallWrites(b, c);
      CallBooks(b, c, k);
      RowStep(b.store, c);
      ConservedStep(b, AfterCall(b, c), KeyFor(b.store, v), v.inst.(updatedAt := 0), RecoveredBy(c), BookedBy(v, c), k);
    }
  }

  const NO_BOOKS := Books(Store(map[], 0), [], [])

  /** Conservation over every sequence of service calls: for each advance the recovered amount is the
      sum of its recovery rows, the asset account carries exactly what is still owed, the status
      tells which case holds, and recovered never exceeds the amount. */
  lemma {:induction false} ServiceConserves(cs: seq<Call>)
    ensures var b := AfterCalls(NO_BOOKS, cs);
      && KeysBelowNext(b.store) && (forall k :: Conserved(b, k))
      && (forall k <- b.store.rows :: WithinAmount(b.store.rows[k]))
  {
    if cs != [] {
      var b, c := AfterCalls(NO_BOOKS, cs[..|cs| - 1]), cs[|cs| - 1];
      ServiceConserves(cs[..|cs| - 1]);
      forall k ensures Conserved(AfterCall(b, c), k) {
        if !c.Request? { assert Conserved(b, c.advance); }
        CallConserves(b, c, k);
      }
    }
    var b := AfterCalls(NO_BOOKS, cs);
    forall k | k in b.store.rows ensures WithinAmount(b.store.rows[k]) { assert Conserved(b, k); }
  }

  ghost predicate JournalsDiffer(s: Store) {
    forall j, k :: j in s.rows && k in s.rows && j != k && s.rows[j].journal.Some? ==> s.rows[j].journal != s.rows[k].journal
  }

  lemma {:induction false} ServiceKeepsJournalsApart(cs: seq<Call>)
    ensures JournalsDiffer(AfterCalls(NO_BOOKS, cs).store)
  {
    if cs != [] {
      var b, c := AfterCalls(NO_BOOKS, cs[..|cs| - 1]), cs[|cs| - 1];
      ServiceKeepsJournalsApart(cs[..|cs| - 1]);
      ServiceConserves(cs[..|cs| - 1]);
      var v := FinalSave(b.store, c);
      if Permitted(b.store, c) && Accepted(b.store, v) {
        CallWrites(b, c);
        OneJournalMore(b.store, AfterCall(b, c).store, KeyFor(b.store, v), v);
      }
    }
  }

  lemma OneJournalMore(s: Store, s': Store, key: nat, v: Save)
    requires JournalsDiffer(s) && Clean(s, v) && s'.rows == s.rows[key := v.inst.(updatedAt := 0)]
    requires v.pk == Some(key) || (v.pk.None? && key !in s.rows)
    ensures JournalsDiffer(s')
  {
  }

  /** After any sequence of calls, a recovery that passes the service's checks is never refused by the
      model's own, as long as the disbursing account is still active. */
  lemma PermittedRecoveryIsSaved(cs: seq<Call>, c: Call)
    requires c.Recover? && Permitted(AfterCalls(NO_BOOKS, cs).store, c) && c.active
    ensures Accepted(AfterCalls(NO_BOOKS, cs).store, FinalSave(AfterCalls(NO_BOOKS, cs).store, c))
  {
    var b := AfterCalls(NO_BOOKS, cs);
    ServiceConserves(cs);
    ServiceKeepsJournalsApart(cs);
    assert Conserved(b, c.advance);
  }

  // ----- When a call takes effect -----

  /** The conditions of a call, said about the rows and the call alone. */
  predicate Effective(rows: map<nat, Row>, c: Call) {
    match c
    case Request(row, active) => row.amount > 0 && (row.financeAccount.None? || active)
    case Approve(k, _, active) => k in rows && rows[k].status == DRAFT && (rows[k].financeAccount.None? || active)
    case Disburse(k, _, journal, ready, active) =>
      k in rows && rows[k].status == APPROVED && ready && active && forall j <- rows :: rows[j].journal != Some(journal)
    case Recover(k, value, ready, active) =>
      && k in rows && (rows[k].status == DISBURSED || rows[k].status == PARTIALLY_RECOVERED)
      && 0 < value && rows[k].recovered + value <= rows[k].amount && ready && (rows[k].financeAccount.None? || active)
  }

  /** In every state the service reaches, a call takes effect exactly when its conditions hold. */
  lemma CallTakesEffectIff(cs: seq<Call>, c: Call)
    ensures AfterCall(AfterCalls(NO_BOOKS, cs), c) != AfterCalls(NO_BOOKS, cs) <==> Effective(AfterCalls(NO_BOOKS, cs).store.rows, c)
  {
    var b := AfterCalls(NO_BOOKS, cs);
    ServiceConserves(cs);
    ServiceKeepsJournalsApart(cs);
    if !c.Request? { assert Conserved(b, c.advance); }
    EffectiveIff(b.store, c);
    if Permitted(b.store, c) && Accepted(b.store, FinalSave(b.store, c)) { CallChangesRow(b, c); }
  }

  lemma EffectiveIff(s: Store, c: Call)
    requires KeysBelowNext(s) && JournalsDiffer(s)
    requires !c.Request? && c.advance in s.rows ==>
      s.rows[c.advance].amount >= 1 && StatusMatches(s.rows[c.advance]) && 0 <= s.rows[c.advance].recovered <= s.rows[c.advance].amount
    ensures Permitted(s, c) && Accepted(s, FinalSave(s, c)) <==> Effective(s.rows, c)
  {
  }

  lemma CallChangesRow(b: Books, c: Call)
    requires KeysBelowNext(b.store) && Permitted(b.store, c) && Accepted(b.store, FinalSave(b.store, c))
    ensures AfterCall(b, c) != b
  {
    var key := KeyFor(b.store, FinalSave(b.store, c));
    if key in b.store.rows && !c.Recover? { assert AfterCall(b, c).store.rows[key].status != b.store.rows[key].status; }
    if c.Recover? { assert |AfterCall(b, c).recoveries| != |b.recoveries|; }
  }

  /** An approval of `k` that took effect. */
  predicate ApprovedIn(cs: seq<Call>, k: nat) {
    cs != [] && (ApprovedIn(cs[..|cs| - 1], k)
                 || var before, after := AfterCalls(NO_BOOKS, cs[..|cs| - 1]).store.rows, AfterCalls(NO_BOOKS, cs).store.rows;
                    cs[|cs| - 1].Approve? && cs[|cs| - 1].advance == k && k in before && k in after
                    && before[k].status == DRAFT && after[k].status == APPROVED)
  }

  /** No advance leaves DRAFT, and none gets a journal, before an approval of it took effect. */
  lemma {:induction false} NothingWithoutApproval(cs: seq<Call>, k: nat)
    requires k in AfterCalls(NO_BOOKS, cs).store.rows
    requires var r := AfterCalls(NO_BOOKS, cs).store.rows[k]; r.status != DRAFT || r.journal.Some?
    ensures ApprovedIn(cs, k)
  {
    ServiceConserves(cs);
    assert Conserved(AfterCalls(NO_BOOKS, cs), k);
    if cs != [] {
      var init, c := cs[..|cs| - 1], cs[|cs| - 1];
      var b := AfterCalls(NO_BOOKS, init);
      if Permitted(b.store, c) && Accepted(b.store, FinalSave(b.store, c)) {
        CallWrites(b, c);
        ServiceConserves(init);
        if KeyFor(b.store, FinalSave(b.store, c)) != k || !c.Approve? { NothingWithoutApproval(init, k); }
      } else {
        NothingWithoutApproval(init, k);
      }
    }
  }

  /** An advance requested, approved, disbursed and recovered in full: what each call stores, and that
      nothing is owed at the end. */
  lemma AdvanceLifecycle(cs: seq<Call>, row: Row, user: nat, account: nat, journal: nat)
    requires row.amount > 0 && forall j <- AfterCalls(NO_BOOKS, cs).store.rows :: AfterCalls(NO_BOOKS, cs).store.rows[j].journal != Some(journal)
    ensures var b := AfterCalls(NO_BOOKS, cs);
      var k := b.store.next;
      var b1 := AfterCall(b, Request(row, true));
      var b2 := AfterCall(b1, Approve(k, user, true));
      var b3 := AfterCall(b2, Disburse(k, account, journal, true, true));
      var b4 := AfterCall(b3, Recover(k, row.amount, true, true));
      && k !in b.store.rows
      && k in b1.store.rows && b1.store.rows[k].status == DRAFT && b1.store.rows[k].amount == row.amount && b1.store.rows[k].recovered == 0
      && b2.store.rows == b1.store.rows[k := b1.store.rows[k].(status := APPROVED, approvedBy := Some(user))]
      && b3.store.rows == b2.store.rows[k := b2.store.rows[k].(status := DISBURSED, financeAccount := Some(account), journal := Some(journal))]
      && b4.store.rows == b3.store.rows[k := b3.store.rows[k].(status := RECOVERED, recovered := row.amount)]
      && Outstanding(b3.store.rows[k]) == row.amount && AssetBalance(b3.asset, k) == row.amount
      && Outstanding(b4.store.rows[k]) == 0 && AssetBalance(b4.asset, k) == 0 && RecoveredRows(b4.recoveries, k) == row.amount
  {
    var b := AfterCalls(NO_BOOKS, cs);
    var k := b.store.next;
    ServiceConserves(cs);
    var r1 := row.(status := DRAFT, recovered := 0, journal := None, updatedAt := 0);
    var b1 := Effect(b, Request(row, true), k, r1);
    var r2 := r1.(status := APPROVED, approvedBy := Some(user));
    var b2 := Effect(b1, Approve(k, user, true), k, r2);
    var r3 := r2.(status := DISBURSED, financeAccount := Some(account), journal := Some(journal));
    var b3 := Effect(b2, Disburse(k, account, journal, true, true), k, r3);
    var r4 := r3.(status := RECOVERED, recovered := row.amount);
    var b4 := Effect(b3, Recover(k, row.amount, true, true), k, r4);
    assert Conserved(b, k);
  }

  /** One call that takes effect on row `k`. */
  lemma Effect(b: Books, c: Call, k: nat, row: Row) returns (b': Books)
    requires KeysBelowNext(b.store) && Permitted(b.store, c) && Accepted(b.store, FinalSave(b.store, c))
    requires KeyFor(b.store, FinalSave(b.store, c)) == k && FinalSave(b.store, c).inst.(updatedAt := 0) == row
    requires Conserved(b, k) && (!c.Request? ==> StatusMatches(b.store.rows[c.advance]))
    ensures b' == AfterCall(b, c) && b'.store.rows == b.store.rows[k := row] && Conserved(b', k) && KeysBelowNext(b'.store)
  {
    b' := AfterCall(b, c);
    CallWrites(b, c);
    CallConserves(b, c, k);
  }

  function TotalOwed(rows: map<nat, Row>, keys: seq<nat>): int {
    if keys == [] then 0 else
      TotalOwed(rows, keys[..|keys| - 1]) + (if keys[|keys| - 1] in rows then Owed(rows[keys[|keys| - 1]]) else 0)
  }

  function TotalAsset(asset: seq<Posting>, keys: seq<nat>): int {
    if keys == [] then 0 else TotalAsset(asset, keys[..|keys| - 1]) + AssetBalance(asset, keys[|keys| - 1])
  }

  /** `total_outstanding_staff_advance` over the rows of one employee. */
  method TotalOutstanding(rows: map<nat, Row>, keys: seq<nat>) returns (total: int)
    requires forall k <- keys :: k in rows
    ensures total == TotalOwed(rows, keys)
  {
    total := 0;
    var i := 0;
    while i < |keys|
      invariant 0 <= i <= |keys| && total == TotalOwed(rows, keys[..i])
    {
      assert keys[..i + 1][..i] == keys[..i];
      if rows[keys[i]].status in {DISBURSED, PARTIALLY_RECOVERED} {
        total := total + Outstanding(rows[keys[i]]);
      }
      i := i + 1;
    }
    assert keys[..i] == keys;
  }

  /** What an employee's advances report as outstanding is what the asset account carries for them. */
  lemma {:induction false} ReportedOutstandingIsOnTheBooks(cs: seq<Call>, keys: seq<nat>)
    ensures var b := AfterCalls(NO_BOOKS, cs); TotalOwed(b.store.rows, keys) == TotalAsset(b.asset, keys)
  {
    if keys != [] {
      ReportedOutstandingIsOnTheBooks(cs, keys[..|keys| - 1]);
      ServiceConserves(cs);
      assert Conserved(AfterCalls(NO_BOOKS, cs), keys[|keys| - 1]);
    }
  }
}
