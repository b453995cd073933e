/** The two immutable-status guards, proved once for any table and then read off for each document.

    Every document save first compares the status of the stored row with the status about to be
    written. The accounting guard refuses any save of a frozen row that is not a listed transition;
    the billing guard also lets a frozen row be saved under the status it already has.
 */
module StatusGuards {
  import opened Options

  /** The statuses of all documents together; each document uses some of them. */
  datatype Status =
    | DRAFT | OPEN | REQUESTED | APPROVED | POSTED | PAID_PARTIAL | PAID | REJECTED | CANCELLED | VOID | CLOSED
    | CONFIRMED | DELIVERED | INVOICED | CANCELLED_PRE_INVOICE | CANCELLED_AFTER_DELIVERY
    | REVERSED_POST_INVOICE | RETURNED | EXCHANGED_CLOSED | ARCHIVED

  datatype Guard = Accounting | Billing

  datatype Table = Table(frozen: set<Status>, allowed: set<(Status, Status)>)

  /** `_status_transition_blocked` of the billing module. */
  predicate TransitionBlocked(was: Status, now: Status, allowed: set<(Status, Status)>) {
    if was == now then false else (was, now) !in allowed
  }

  predicate Accepts(g: Guard, t: Table, was: Status, now: Status) {
    if was !in t.frozen then true
    else match g
      case Accounting => (was, now) in t.allowed
      case Billing => !TransitionBlocked(was, now, t.allowed)
  }

  /** A history of stored statuses in which every save passed the guard. */
  predicate AcceptsRun(g: Guard, t: Table, run: seq<Status>) {
    forall i :: 0 < i < |run| ==> Accepts(g, t, run[i - 1], run[i])
  }

  predicate Irreflexive(t: Table) { forall s <- t.frozen :: (s, s) !in t.allowed }

  // ----- How the two guards relate -----

  /** The history without the saves that kept a frozen row under its status. */
  function DropRepeats(t: Table, run: seq<Status>): (d: seq<Status>)
    ensures run == [] <==> d == []
    ensures run != [] ==> d[|d| - 1] == run[|run| - 1] && d[0] == run[0]
  {
    if |run| <= 1 then run else
      var d, last := DropRepeats(t, run[..|run| - 1]), run[|run| - 1];
      if last == run[|run| - 2] && last in t.frozen then d else d + [last]
  }

  lemma RunSplits(g: Guard, t: Table, run: seq<Status>)
    requires |run| > 1
    ensures AcceptsRun(g, t, run) <==>
      AcceptsRun(g, t, run[..|run| - 1]) && Accepts(g, t, run[|run| - 2], run[|run| - 1])
  {
    var init := run[..|run| - 1];
    if AcceptsRun(g, t, init) && Accepts(g, t, run[|run| - 2], run[|run| - 1]) {
      forall i | 0 < i < |run| ensures Accepts(g, t, run[i - 1], run[i]) {
        if i < |init| { assert Accepts(g, t, init[i - 1], init[i]); }
      }
    }
    if AcceptsRun(g, t, run) {
      forall i | 0 < i < |init| ensures Accepts(g, t, init[i - 1], init[i]) {
        assert Accepts(g, t, run[i - 1], run[i]);
      }
    }
  }

  /** For any table, billing accepts a history exactly when accounting accepts what is left of it
      without the frozen repeats. */
  lemma {:induction false} BillingIsAccountingWithRepeats(t: Table, run: seq<Status>)
    ensures AcceptsRun(Billing, t, run) <==> AcceptsRun(Accounting, t, DropRepeats(t, run))
  {
    if |run| > 1 {
      var init, d := run[..|run| - 1], DropRepeats(t, run);
      BillingIsAccountingWithRepeats(t, init);
      RunSplits(Billing, t, run);
      if d != DropRepeats(t, init) {
        assert d[..|d| - 1] == DropRepeats(t, init);
        RunSplits(Accounting, t, d);
      }
    }
  }

  /** For a table that lists no frozen status after itself, accounting accepts exactly the histories
      that billing accepts and that have no frozen repeat. */
  lemma {:induction false} AccountingIsBillingWithoutRepeats(t: Table, run: seq<Status>)
    requires Irreflexive(t)
    ensures AcceptsRun(Accounting, t, run) <==> AcceptsRun(Billing, t, run) && DropRepeats(t, run) == run
  {
    BillingIsAccountingWithRepeats(t, run);
    if AcceptsRun(Accounting, t, run) { NoRepeatToDrop(t, run); }
  }

  lemma {:induction false} NoRepeatToDrop(t: Table, run: seq<Status>)
    requires Irreflexive(t) && AcceptsRun(Accounting, t, run)
    ensures DropRepeats(t, run) == run
  {
    if |run| > 1 {
      RunSplits(Accounting, t, run);
      NoRepeatToDrop(t, run[..|run| - 1]);
    }
  }

  /** Listed transitions out of a status that is not frozen never affect a decision. */
  lemma UnfrozenRowsNeverMatter(g: Guard, t: Table, was: Status, now: Status)
    ensures Accepts(g, t, was, now) == Accepts(g, t.(allowed := set r <- t.allowed | r.0 in t.frozen), was, now)
  {
  }

  // ----- How long a frozen history can be -----

  /** Every transition out of a frozen status leads to a frozen status of lower rank, and to the
      next lower rank at least once. */
  ghost predicate Ranked(t: Table, rank: Status -> nat) {
    && (forall p, q :: p in t.frozen && (p, q) in t.allowed ==> q in t.frozen && rank(q) < rank(p))
    && (forall p :: p in t.frozen && rank(p) > 0 ==> exists q :: (p, q) in t.allowed && rank(q) == rank(p) - 1)
  }

  /** Once frozen, always frozen, and every accounting save strictly lowers the rank. */
  lemma {:induction false} FrozenRunDescends(t: Table, rank: Status -> nat, run: seq<Status>)
    requires Ranked(t, rank) && run != [] && run[0] in t.frozen && AcceptsRun(Accounting, t, run)
    ensures var last := run[|run| - 1]; last in t.frozen && rank(last) + |run| - 1 <= rank(run[0])
  {
    if |run| > 1 {
      RunSplits(Accounting, t, run);
      FrozenRunDescends(t, rank, run[..|run| - 1]);
    }
  }

  /** The bound is reached. */
  lemma {:induction false} LongestRun(t: Table, rank: Status -> nat, s: Status) returns (run: seq<Status>)
    requires Ranked(t, rank) && s in t.frozen
    ensures run != [] && run[0] == s && AcceptsRun(Accounting, t, run) && |run| - 1 == rank(s)
    decreases rank(s)
  {
    run := [s];
    if rank(s) > 0 {
      var q :| (s, q) in t.allowed && rank(q) == rank(s) - 1;
      var rest := LongestRun(t, rank, q);
      run := run + rest;
      forall i | 0 < i < |run| ensures Accepts(Accounting, t, run[i - 1], run[i]) {
        if i > 1 { assert Accepts(Accounting, t, rest[i - 2], rest[i - 1]); }
      }
    }
  }

  /** A frozen row takes at most `rank` more accounting saves, and at most `rank` more status
      changes under billing; both bounds are exact. */
  lemma FrozenBoundIsExact(t: Table, rank: Status -> nat, s: Status)
    requires Ranked(t, rank) && s in t.frozen
    ensures forall run :: run != [] && run[0] == s && AcceptsRun(Accounting, t, run) ==> |run| - 1 <= rank(s)
    ensures forall run :: run != [] && run[0] == s && AcceptsRun(Billing, t, run) ==> |DropRepeats(t, run)| - 1 <= rank(s)
    ensures exists run :: run != [] && run[0] == s && AcceptsRun(Accounting, t, run) && |run| - 1 == rank(s)
  {
    forall run | run != [] && run[0] == s && AcceptsRun(Accounting, t, run) ensures |run| - 1 <= rank(s) {
      FrozenRunDescends(t, rank, run);
    }
    forall run | run != [] && run[0] == s && AcceptsRun(Billing, t, run) ensures |DropRepeats(t, run)| - 1 <= rank(s) {
      BillingIsAccountingWithRepeats(t, run);
      FrozenRunDescends(t, rank, DropRepeats(t, run));
    }
    var run := LongestRun(t, rank, s);
  }

  // ----- Saves of whole tables -----

  datatype Doc<Body> = Doc(status: Status, body: Body)

  /** What `update_fields` selects: everything, or some fields, with or without the status. */
  datatype Fields = Whole | Part(status: bool)

  /** One call of `save`: the instance's key, its fields, the fields written, and whether
      `full_clean` passes. Where only a part is written, `doc.body` is the body that results. */
  datatype Save<Body> = Save(pk: Option<nat>, doc: Doc<Body>, fields: Fields, clean: bool)

  predicate WritesStatus(f: Fields) { f.Whole? || f.status }

  datatype Store<Body> = Store(rows: map<nat, Doc<Body>>, next: nat)

  function KeyFor<Body>(s: Store<Body>, v: Save<Body>): nat {
    match v.pk case None => s.next case Some(k) => k
  }

  predicate Saved<Body>(g: Guard, t: Table, s: Store<Body>, v: Save<Body>) {
    && (v.pk.Some? && v.pk.value in s.rows ==> Accepts(g, t, s.rows[v.pk.value].status, v.doc.status))
    && v.clean && (v.fields.Part? ==> v.pk.Some? && v.pk.value in s.rows)
  }

  /** The row a successful save stores. */
  function Stored<Body>(s: Store<Body>, v: Save<Body>): Doc<Body> {
    if WritesStatus(v.fields) || v.pk.None? || v.pk.value !in s.rows then v.doc
    else v.doc.(status := s.rows[v.pk.value].status)
  }

  function AfterSave<Body>(g: Guard, t: Table, s: Store<Body>, v: Save<Body>): Store<Body> {
    if !Saved(g, t, s, v) then s
    else var k := KeyFor(s, v);
      Store(s.rows[k := Stored(s, v)], if s.next <= k then k + 1 else s.next)
  }

  function AfterSaves<Body>(g: Guard, t: Table, s: Store<Body>, vs: seq<Save<Body>>): Store<Body> {
    if vs == [] then s else AfterSave(g, t, AfterSaves(g, t, s, vs[..|vs| - 1]), vs[|vs| - 1])
  }

  /** The statuses row `k` is stored under, from now on: one per successful save of that row that
      writes its status. */
  function History<Body>(g: Guard, t: Table, s: Store<Body>, vs: seq<Save<Body>>, k: nat): (h: seq<Status>)
    requires k in s.rows
    ensures h != [] && h[0] == s.rows[k].status
  {
    if vs == [] then [s.rows[k].status] else
      var before, v := AfterSaves(g, t, s, vs[..|vs| - 1]), vs[|vs| - 1];
      var h := History(g, t, s, vs[..|vs| - 1], k);
      if Saved(g, t, before, v) && KeyFor(before, v) == k && WritesStatus(v.fields) then h + [v.doc.status] else h
  }

  class DocumentTable<Body> {
    const guard: Guard
    const table: Table
    var rows: map<nat, Doc<Body>>
    var next: nat

    function Now(): Store<Body>
      reads this
    {
      Store(rows, next)
    }

    constructor (guard: Guard, table: Table)
      ensures this.guard == guard && this.table == table && Now() == Store(map[], 0)
    {
      this.guard, this.table := guard, table;
      rows, next := map[], 0;
    }

    /** `save`: the guard, then `full_clean`, then the write. */
    method SaveDocument(pk: Option<nat>, doc: Doc<Body>, fields: Fields, clean: bool) returns (ok: bool, key: nat)
      modifies this
      ensures var v := Save(pk, doc, fields, clean);
        && ok == Saved(guard, table, old(Now()), v)
        && Now() == AfterSave(guard, table, old(Now()), v)
        && (ok ==> key == KeyFor(old(Now()), v))
    {
      ok, key := false, 0;
      if pk.Some? && pk.value in rows {
        var previous := rows[pk.value].status;
        if previous in table.frozen {
          var passes := match guard
            case Accounting => (previous, doc.status) in table.allowed
            case Billing => !TransitionBlocked(previous, doc.status, table.allowed);
          if !passes { return; }
        }
      }
      if !clean { return; }
      if fields.Part? {
        if pk.None? || pk.value !in rows { return; }
        key := pk.value;
        rows := rows[key := if fields.status then doc else Doc(rows[key].status, doc.body)];
      } else {
        key := match pk case None => next case Some(k) => k;
        rows := rows[key := doc];
      }
      if next <= key { next := key + 1; }
      ok := true;
    }
  }

  /** A save changes its own row to what it brings, with the stored status if it leaves the status out, and
      no other; it is refused, and changes nothing, exactly when the guard, the checks or a missing row
      stand against it. */
  lemma DocumentSaveChanges<Body>(g: Guard, t: Table, s: Store<Body>, v: Save<Body>, k: nat)
    requires v.pk == Some(k) && k in s.rows
    ensures AfterSave(g, t, s, v).rows ==
      if v.clean && (s.rows[k].status !in t.frozen || (s.rows[k].status, v.doc.status) in t.allowed || (g.Billing? && s.rows[k].status == v.doc.status))
      then s.rows[k := Doc(if v.fields == Part(false) then s.rows[k].status else v.doc.status, v.doc.body)] else s.rows
  {
  }

  /** A new row is stored as it is brought, under the next key, if it passes the checks. */
  lemma DocumentInsert<Body>(g: Guard, t: Table, s: Store<Body>, v: Save<Body>)
    requires v.pk.None?
    ensures AfterSave(g, t, s, v).rows == if v.clean && v.fields.Whole? then s.rows[s.next := v.doc] else s.rows
  {
  }

  ghost predicate KeysBelowNext<Body>(s: Store<Body>) { forall k <- s.rows :: k < s.next }

  /** Rows are never lost, and every row's history is one the guard accepts, ending in its status. */
  lemma {:induction false} HistoriesAreAccepted<Body>(g: Guard, t: Table, s: Store<Body>, vs: seq<Save<Body>>, k: nat)
    requires KeysBelowNext(s) && k in s.rows
    ensures var s', h := AfterSaves(g, t, s, vs), History(g, t, s, vs, k);
      && KeysBelowNext(s') && k in s'.rows
      && h[0] == s.rows[k].status && h[|h| - 1] == s'.rows[k].status && AcceptsRun(g, t, h)
  {
    if vs != [] {
      HistoriesAreAccepted(g, t, s, vs[..|vs| - 1], k);
      var h, h0 := History(g, t, s, vs, k), History(g, t, s, vs[..|vs| - 1], k);
      if h != h0 {
        assert h[..|h| - 1] == h0;
        RunSplits(g, t, h);
      }
    }
  }

  /** Over any sequence of saves of any rows, a row found in frozen status `p` stays frozen; under
      accounting at most `rank(p)` of the saves write its status, and under billing at most
      `rank(p)` change it. */
  lemma FrozenRowIsNearlyFinal<Body>(g: Guard, t: Table, rank: Status -> nat, s: Store<Body>, vs: seq<Save<Body>>, k: nat)
    requires KeysBelowNext(s) && k in s.rows && s.rows[k].status in t.frozen && Ranked(t, rank)
    ensures var s', h := AfterSaves(g, t, s, vs), History(g, t, s, vs, k);
      && k in s'.rows && s'.rows[k].status in t.frozen
      && |if g.Accounting? then h else DropRepeats(t, h)| - 1 <= rank(s.rows[k].status)
      && (rank(s.rows[k].status) == 0 ==> s'.rows[k].status == s.rows[k].status)
  {
    HistoriesAreAccepted(g, t, s, vs, k);
    var h := History(g, t, s, vs, k);
    if g.Accounting? {
      FrozenRunDescends(t, rank, h);
    } else {
      BillingIsAccountingWithRepeats(t, h);
      FrozenRunDescends(t, rank, DropRepeats(t, h));
    }
  }

  /** The guard judges the status in memory, so an accepted accounting save lowers the rank of a
      frozen row exactly when it writes the status it was judged by. */
  lemma FrozenSaveAdvancesIff<Body>(t: Table, rank: Status -> nat, s: Store<Body>, v: Save<Body>, k: nat)
    requires v.pk == Some(k) && k in s.rows && s.rows[k].status in t.frozen && Ranked(t, rank)
    requires Saved(Accounting, t, s, v)
    ensures rank(AfterSave(Accounting, t, s, v).rows[k].status) < rank(s.rows[k].status) <==> WritesStatus(v.fields)
  {
  }

  /** Partial saves that leave the status out are not bounded: wherever a transition is left, an
      instance that carries the next status in memory can rewrite the frozen row for ever. */
  lemma {:induction false} PartialSavesAreUnbounded<Body>(t: Table, s: Store<Body>, k: nat, next: Status, bodies: seq<Body>)
    requires KeysBelowNext(s) && k in s.rows && (s.rows[k].status, next) in t.allowed
    ensures var vs := seq(|bodies|, i requires 0 <= i < |bodies| => Save(Some(k), Doc(next, bodies[i]), Part(false), true));
            var s' := AfterSaves(Accounting, t, s, vs);
      && k in s'.rows && KeysBelowNext(s') && s'.rows[k].status == s.rows[k].status
      && (bodies != [] ==> s'.rows[k].body == bodies[|bodies| - 1])
  {
    if bodies != [] {
      var init := bodies[..|bodies| - 1];
      var vs := seq(|bodies|, i requires 0 <= i < |bodies| => Save(Some(k), Doc(next, bodies[i]), Part(false), true));
      assert vs[..|vs| - 1] == seq(|init|, i requires 0 <= i < |init| => Save(Some(k), Doc(next, init[i]), Part(false), true));
      PartialSavesAreUnbounded(t, s, k, next, init);
    }
  }

  /** Where no transition is left, an accounting row is final under partial saves too. */
  lemma {:induction false} FinalRowsNeverChange<Body>(t: Table, s: Store<Body>, vs: seq<Save<Body>>, k: nat)
    requires KeysBelowNext(s) && k in s.rows && s.rows[k].status in t.frozen
    requires forall q :: (s.rows[k].status, q) !in t.allowed
    ensures var s' := AfterSaves(Accounting, t, s, vs); KeysBelowNext(s') && k in s'.rows && s'.rows[k] == s.rows[k]
  {
    if vs != [] { FinalRowsNeverChange(t, s, vs[..|vs| - 1], k); }
  }

  /** "Immutable once it reaches" its status: a frozen row of any table can still be changed by some
      sequence of saves if and only if the guard is billing's or a transition is left. */
  lemma FrozenRowsThatCanBeRewritten<Body>(g: Guard, t: Table, s: Store<Body>, k: nat, body: Body)
    requires KeysBelowNext(s) && k in s.rows && s.rows[k].status in t.frozen && body != s.rows[k].body
    ensures (exists vs :: k in AfterSaves(g, t, s, vs).rows && AfterSaves(g, t, s, vs).rows[k] != s.rows[k])
            <==> g.Billing? || exists q :: (s.rows[k].status, q) in t.allowed
  {
    var was := s.rows[k].status;
    if g.Billing? {
      OneSaveRewrites(g, t, s, k, Doc(was, body));
    } else if exists q :: (was, q) in t.allowed {
      var q :| (was, q) in t.allowed;
      OneSaveRewrites(g, t, s, k, Doc(q, body));
    } else {
      forall vs ensures k in AfterSaves(g, t, s, vs).rows && AfterSaves(g, t, s, vs).rows[k] == s.rows[k] {
        FinalRowsNeverChange(t, s, vs, k);
      }
    }
  }

  lemma OneSaveRewrites<Body>(g: Guard, t: Table, s: Store<Body>, k: nat, doc: Doc<Body>)
    requires k in s.rows && Accepts(g, t, s.rows[k].status, doc.status)
    ensures var vs := [Save(Some(k), doc, Whole, true)]; k in AfterSaves(g, t, s, vs).rows && AfterSaves(g, t, s, vs).rows[k] == doc
  {
    var v := Save(Some(k), doc, Whole, true);
    assert [v][..0] == [] && AfterSaves(g, t, s, [v]) == AfterSave(g, t, s, v);
  }

  // ----- The documents -----

  const JOURNAL_ENTRY := Table({POSTED, VOID}, {(POSTED, VOID)})
  const EXPENSE_VOUCHER := Table({APPROVED, POSTED, CANCELLED}, {(APPROVED, POSTED), (APPROVED, CANCELLED)})
  const PAYROLL_PERIOD := Table({CLOSED}, {})
  const LEAVE_REQUEST := Table({APPROVED, REJECTED, CANCELLED}, {})
  const SALARY_SHEET := Table({APPROVED, POSTED, PAID_PARTIAL, PAID},
    {(APPROVED, POSTED), (POSTED, PAID_PARTIAL), (POSTED, PAID), (PAID_PARTIAL, PAID)})
  const EXPENSE_CLAIM := Table({APPROVED, POSTED, PAID_PARTIAL, PAID, REJECTED, CANCELLED},
    {(APPROVED, POSTED), (POSTED, PAID_PARTIAL), (POSTED, PAID), (PAID_PARTIAL, PAID)})
  /** Money movements, vendor settlements and depreciation runs. */
  const SETTLEMENT := Table({POSTED, CANCELLED}, {})
  /** Tax invoices, credit notes and debit notes. */
  const TAX_DOCUMENT := Table({APPROVED, POSTED, CANCELLED}, {(APPROVED, POSTED), (APPROVED, CANCELLED), (POSTED, CANCELLED)})
  /** Billing invoices, credit notes and debit notes. */
  const BILLING_DOCUMENT := Table({APPROVED, POSTED, CANCELLED, VOID}, {(APPROVED, POSTED), (APPROVED, CANCELLED), (POSTED, VOID)})
  const RECEIPT := Table({POSTED, VOID}, {(POSTED, VOID)})
  const DIRECT_SALE := Table(
    {INVOICED, CANCELLED, CANCELLED_PRE_INVOICE, CANCELLED_AFTER_DELIVERY, REVERSED_POST_INVOICE, RETURNED, EXCHANGED_CLOSED, ARCHIVED},
    {(INVOICED, REVERSED_POST_INVOICE), (INVOICED, RETURNED), (INVOICED, CANCELLED_AFTER_DELIVERY), (INVOICED, ARCHIVED),
     (INVOICED, EXCHANGED_CLOSED), (DELIVERED, RETURNED), (DELIVERED, CANCELLED_AFTER_DELIVERY), (DELIVERED, ARCHIVED)})

  /** The number of saves each frozen status still allows: journals and receipts, */
  function JournalRank(s: Status): nat { if s == POSTED then 1 else 0 }
  /** expense vouchers, */
  function VoucherRank(s: Status): nat { if s == APPROVED then 1 else 0 }
  /** salary sheets and expense claims, */
  function PayrollRank(s: Status): nat { match s case APPROVED => 3 case POSTED => 2 case PAID_PARTIAL => 1 case _ => 0 }
  /** tax and billing documents, */
  function DocumentRank(s: Status): nat { match s case APPROVED => 2 case POSTED => 1 case _ => 0 }
  /** direct sales, */
  function SaleRank(s: Status): nat { if s == INVOICED then 1 else 0 }
  /** and documents with no transition at all. */
  function FinalRank(s: Status): nat { 0 }

  lemma JournalIsRanked()
    ensures Ranked(JOURNAL_ENTRY, JournalRank) && Irreflexive(JOURNAL_ENTRY) && RECEIPT == JOURNAL_ENTRY
  {
    assert (POSTED, VOID) in JOURNAL_ENTRY.allowed;
  }

  lemma VoucherIsRanked()
    ensures Ranked(EXPENSE_VOUCHER, VoucherRank) && Irreflexive(EXPENSE_VOUCHER)
  {
    assert (APPROVED, POSTED) in EXPENSE_VOUCHER.allowed;
  }

  lemma FinalDocumentsAreRanked()
    ensures Ranked(PAYROLL_PERIOD, FinalRank) && Ranked(LEAVE_REQUEST, FinalRank) && Ranked(SETTLEMENT, FinalRank)
    ensures Irreflexive(PAYROLL_PERIOD) && Irreflexive(LEAVE_REQUEST) && Irreflexive(SETTLEMENT)
  {
  }

  lemma SalarySheetIsRanked()
    ensures Ranked(SALARY_SHEET, PayrollRank) && Irreflexive(SALARY_SHEET)
  {
    assert (APPROVED, POSTED) in SALARY_SHEET.allowed;
    assert (POSTED, PAID_PARTIAL) in SALARY_SHEET.allowed;
    assert (PAID_PARTIAL, PAID) in SALARY_SHEET.allowed;
  }

  lemma ExpenseClaimIsRanked()
    ensures Ranked(EXPENSE_CLAIM, PayrollRank) && Irreflexive(EXPENSE_CLAIM)
  {
    assert (APPROVED, POSTED) in EXPENSE_CLAIM.allowed;
    assert (POSTED, PAID_PARTIAL) in EXPENSE_CLAIM.allowed;
    assert (PAID_PARTIAL, PAID) in EXPENSE_CLAIM.allowed;
  }

  lemma TaxDocumentIsRanked()
    ensures Ranked(TAX_DOCUMENT, DocumentRank) && Irreflexive(TAX_DOCUMENT)
  {
    assert (APPROVED, POSTED) in TAX_DOCUMENT.allowed;
    assert (POSTED, CANCELLED) in TAX_DOCUMENT.allowed;
  }

  lemma BillingDocumentIsRanked()
    ensures Ranked(BILLING_DOCUMENT, DocumentRank) && Irreflexive(BILLING_DOCUMENT)
  {
    assert (APPROVED, POSTED) in BILLING_DOCUMENT.allowed;
    assert (POSTED, VOID) in BILLING_DOCUMENT.allowed;
  }

  lemma FrozenSaleMoves(p: Status, q: Status)
    requires p in DIRECT_SALE.frozen && (p, q) in DIRECT_SALE.allowed
    ensures p == INVOICED && q in DIRECT_SALE.frozen && q != INVOICED
  {
  }

  lemma DirectSaleIsRanked()
    ensures Ranked(DIRECT_SALE, SaleRank) && Irreflexive(DIRECT_SALE)
  {
    forall p, q | p in DIRECT_SALE.frozen && (p, q) in DIRECT_SALE.allowed
      ensures p == INVOICED && q in DIRECT_SALE.frozen && q != INVOICED
    {
      FrozenSaleMoves(p, q);
    }
    assert (INVOICED, RETURNED) in DIRECT_SALE.allowed;
  }

  // ----- The decisions, document by document -----

  /** The accounting guard's answer for a stored and a new status, written out. */
  lemma JournalMoves(was: Status, now: Status)
    ensures Accepts(Accounting, JOURNAL_ENTRY, was, now) <==>
      match was case POSTED => now == VOID case VOID => false case _ => true
  {
  }

  lemma VoucherMoves(was: Status, now: Status)
    ensures Accepts(Accounting, EXPENSE_VOUCHER, was, now) <==>
      match was case APPROVED => now == POSTED || now == CANCELLED case POSTED => false case CANCELLED => false case _ => true
  {
  }

  lemma FinalMoves(was: Status, now: Status)
    ensures Accepts(Accounting, PAYROLL_PERIOD, was, now) <==> was != CLOSED
    ensures Accepts(Accounting, LEAVE_REQUEST, was, now) <==> was != APPROVED && was != REJECTED && was != CANCELLED
    ensures Accepts(Accounting, SETTLEMENT, was, now) <==> was != POSTED && was != CANCELLED
  {
  }

  lemma SalarySheetMoves(was: Status, now: Status)
    ensures Accepts(Accounting, SALARY_SHEET, was, now) <==>
      match was
      case APPROVED => now == POSTED
      case POSTED => now == PAID_PARTIAL || now == PAID
      case PAID_PARTIAL => now == PAID
      case PAID => false
      case _ => true
  {
  }

  lemma ExpenseClaimMoves(was: Status, now: Status)
    ensures Accepts(Accounting, EXPENSE_CLAIM, was, now) <==>
      match was
      case APPROVED => now == POSTED
      case POSTED => now == PAID_PARTIAL || now == PAID
      case PAID_PARTIAL => now == PAID
      case PAID => false
      case REJECTED => false
      case CANCELLED => false
      case _ => true
  {
  }

  lemma TaxDocumentMoves(was: Status, now: Status)
    ensures Accepts(Accounting, TAX_DOCUMENT, was, now) <==>
      match was case APPROVED => now == POSTED || now == CANCELLED case POSTED => now == CANCELLED case CANCELLED => false case _ => true
  {
  }

  /** The billing guard's answer, where keeping the status is always allowed. */
  lemma BillingDocumentMoves(was: Status, now: Status)
    ensures Accepts(Billing, BILLING_DOCUMENT, was, now) <==>
      now == was || match was
                    case APPROVED => now == POSTED || now == CANCELLED
                    case POSTED => now == VOID
                    case CANCELLED => false
                    case VOID => false
                    case _ => true
    ensures Accepts(Billing, RECEIPT, was, now) <==> now == was || match was case POSTED => now == VOID case VOID => false case _ => true
  {
  }

  lemma DirectSaleMoves(was: Status, now: Status)
    ensures Accepts(Billing, DIRECT_SALE, was, now) <==>
      || now == was || was !in DIRECT_SALE.frozen
      || (was == INVOICED && now in {REVERSED_POST_INVOICE, RETURNED, CANCELLED_AFTER_DELIVERY, ARCHIVED, EXCHANGED_CLOSED})
    ensures was in DIRECT_SALE.frozen <==>
      was == INVOICED || was == CANCELLED || was == CANCELLED_PRE_INVOICE || was == CANCELLED_AFTER_DELIVERY
      || was == REVERSED_POST_INVOICE || was == RETURNED || was == EXCHANGED_CLOSED || was == ARCHIVED
  {
  }

  /** Whatever is saved, a salary sheet takes at most 3, 2, 1, 0 more saves of its status from
      APPROVED, POSTED, PAID_PARTIAL, PAID. */
  lemma SalarySheetSaves<Body>(s: Store<Body>, vs: seq<Save<Body>>, k: nat)
    requires KeysBelowNext(s) && k in s.rows && s.rows[k].status in {APPROVED, POSTED, PAID_PARTIAL, PAID}
    ensures |History(Accounting, SALARY_SHEET, s, vs, k)| - 1 <= PayrollRank(s.rows[k].status)
  {
    SalarySheetIsRanked();
    FrozenRowIsNearlyFinal(Accounting, SALARY_SHEET, PayrollRank, s, vs, k);
  }

  lemma OpenSalesAreNotFrozen(p: Status)
    ensures p in {DRAFT, CONFIRMED, DELIVERED} ==> p !in DIRECT_SALE.frozen
  {
  }

  /** Once INVOICED, whatever is saved afterwards, a direct sale is never again DRAFT, CONFIRMED or
      DELIVERED and its status changes at most once more; the other frozen statuses are final. */
  lemma InvoicedSaleNeverReopens<Body>(s: Store<Body>, vs: seq<Save<Body>>, k: nat)
    requires KeysBelowNext(s) && k in s.rows && s.rows[k].status in DIRECT_SALE.frozen
    ensures var s', was := AfterSaves(Billing, DIRECT_SALE, s, vs), s.rows[k].status;
      && k in s'.rows && s'.rows[k].status !in {DRAFT, CONFIRMED, DELIVERED}
      && |DropRepeats(DIRECT_SALE, History(Billing, DIRECT_SALE, s, vs, k))| <= (if was == INVOICED then 2 else 1)
      && (was != INVOICED ==> s'.rows[k].status == was)
  {
    DirectSaleIsRanked();
    FrozenRowIsNearlyFinal(Billing, DIRECT_SALE, SaleRank, s, vs, k);
    OpenSalesAreNotFrozen(AfterSaves(Billing, DIRECT_SALE, s, vs).rows[k].status);
  }

  /** The billing guard never protects the contents of a document, posted or even VOID: under the
      status it has, any other body replaces the stored one. Accounting would refuse that save. */
  lemma PostedInvoiceCanBeRewritten<Body>(s: Store<Body>, k: nat, body: Body)
    requires k in s.rows && s.rows[k].status in BILLING_DOCUMENT.frozen
    ensures var v := Save(Some(k), Doc(s.rows[k].status, body), Whole, true);
      && AfterSaves(Billing, BILLING_DOCUMENT, s, [v]).rows == s.rows[k := Doc(s.rows[k].status, body)]
      && AfterSaves(Accounting, BILLING_DOCUMENT, s, [v]) == s
  {
    BillingDocumentIsRanked();
    var v := Save(Some(k), Doc(s.rows[k].status, body), Whole, true);
    assert [v][..0] == [];
    assert AfterSaves(Billing, BILLING_DOCUMENT, s, [v]) == AfterSave(Billing, BILLING_DOCUMENT, s, v);
    assert AfterSaves(Accounting, BILLING_DOCUMENT, s, [v]) == AfterSave(Accounting, BILLING_DOCUMENT, s, v);
  }
}
