/** `TaxInvoice.save`: the immutable-status guard, the twelve fields locked once the invoice leaves
    DRAFT (INV-3), the five money fields locked while the IRN is kept (INV-4), normalisation,
    `clean`, and full or partial writes. Amounts are integer paise.
 */
module TaxInvoices {
  import opened Options
  import opened StatusGuards
  import opened Texts

  // ----- Rows -----

  datatype Money = Money(taxable: int, cgst: int, sgst: int, igst: int, total: int)

  datatype Identity = Identity(invoiceDate: int, supplyKind: bool, supplierName: string, supplierGstin: string,
                               recipientName: string, recipientGstin: string, docSeries: nat)

  /** The twelve locked fields are `money` and `ident` together. */
  datatype Row = Row(status: Status, money: Money, ident: Identity, irn: string, journal: Option<nat>, notes: string)

  datatype Field =
    | Taxable | Cgst | Sgst | Igst | Total
    | InvoiceDate | SupplyKind | SupplierName | SupplierGstin | RecipientName | RecipientGstin | DocSeries
    | StatusField | Irn | Journal | Notes

  datatype Invoices = Invoices(rows: map<nat, Row>, next: nat)

  function Normal(r: Row): Row {
    r.(ident := r.ident.(supplierName := Strip(r.ident.supplierName), supplierGstin := Upper(Strip(r.ident.supplierGstin)),
                         recipientName := Strip(r.ident.recipientName), recipientGstin := Upper(Strip(r.ident.recipientGstin))),
       notes := Strip(r.notes))
  }

  predicate AddsUp(m: Money) { m.total == m.taxable + m.cgst + m.sgst + m.igst }

  predicate NonNegative(m: Money) { m.taxable >= 0 && m.cgst >= 0 && m.sgst >= 0 && m.igst >= 0 && m.total >= 0 }

  // ----- One save -----

  /** One call of `save`; `valid` stands for the field checks that involve other tables. */
  datatype InvoiceSave = InvoiceSave(pk: Option<nat>, inst: Row, fields: Option<set<Field>>, valid: bool)

  /** The comparisons of the raw instance with the stored row. */
  predicate PassesLocks(stored: Row, inst: Row) {
    && Accepts(Accounting, TAX_DOCUMENT, stored.status, inst.status)
    && (stored.status != DRAFT ==> inst.money == stored.money && inst.ident == stored.ident)
    && (inst.irn != "" && stored.irn == inst.irn ==> inst.money == stored.money)
  }

  predicate Unlocked(s: Invoices, v: InvoiceSave) {
    v.pk.Some? && v.pk.value in s.rows ==> PassesLocks(s.rows[v.pk.value], v.inst)
  }

  predicate Accepted(s: Invoices, v: InvoiceSave) {
    && Unlocked(s, v)
    && v.inst.status in {DRAFT, APPROVED, POSTED, CANCELLED}
    && AddsUp(v.inst.money) && NonNegative(v.inst.money)
    && (v.inst.status == POSTED ==> v.inst.journal.Some?)
    && v.valid
    && (v.fields.Some? && v.fields.value != {} ==> v.pk.Some? && v.pk.value in s.rows)
  }

  function MergeMoney(stored: Money, inst: Money, fields: set<Field>): Money {
    Money(if Taxable in fields then inst.taxable else stored.taxable,
          if Cgst in fields then inst.cgst else stored.cgst,
          if Sgst in fields then inst.sgst else stored.sgst,
          if Igst in fields then inst.igst else stored.igst,
          if Total in fields then inst.total else stored.total)
  }

  function Merge(stored: Row, inst: Row, fields: set<Field>): Row {
    Row(if StatusField in fields then inst.status else stored.status,
        MergeMoney(stored.money, inst.money, fields),
        Identity(if InvoiceDate in fields then inst.ident.invoiceDate else stored.ident.invoiceDate,
                 if SupplyKind in fields then inst.ident.supplyKind else stored.ident.supplyKind,
                 if SupplierName in fields then inst.ident.supplierName else stored.ident.supplierName,
                 if SupplierGstin in fields then inst.ident.supplierGstin else stored.ident.supplierGstin,
                 if RecipientName in fields then inst.ident.recipientName else stored.ident.recipientName,
                 if RecipientGstin in fields then inst.ident.recipientGstin else stored.ident.recipientGstin,
                 if DocSeries in fields then inst.ident.docSeries else stored.ident.docSeries),
        if Irn in fields then inst.irn else stored.irn,
        if Journal in fields then inst.journal else stored.journal,
        if Notes in fields then inst.notes else stored.notes)
  }

  function Key(s: Invoices, v: InvoiceSave): nat {
    match v.pk case None => s.next case Some(k) => k
  }

  /** The row a save writes: the normalised instance, or its listed fields over the stored row. */
  function Written(s: Invoices, v: InvoiceSave): Row {
    var k := Key(s, v);
    if v.fields.Some? && k in s.rows then Merge(s.rows[k], Normal(v.inst), v.fields.value) else Normal(v.inst)
  }

  function AfterInvoiceSave(s: Invoices, v: InvoiceSave): Invoices {
    if !Accepted(s, v) || v.fields == Some({}) then s
    else Invoices(s.rows[Key(s, v) := Written(s, v)], if s.next <= Key(s, v) then Key(s, v) + 1 else s.next)
  }

  function AfterInvoiceSaves(s: Invoices, vs: seq<InvoiceSave>): Invoices {
    if vs == [] then s else AfterInvoiceSave(AfterInvoiceSaves(s, vs[..|vs| - 1]), vs[|vs| - 1])
  }

  class InvoiceTable {
    var rows: map<nat, Row>
    var next: nat

    function Now(): Invoices
      reads this
    {
      Invoices(rows, next)
    }

    constructor ()
      ensures Now() == Invoices(map[], 0)
    {
      rows, next := map[], 0;
    }
  }

  /** An invoice instance in memory. */
  class TaxInvoice {
    var pk: Option<nat>
    var row: Row

    constructor (pk: Option<nat>, row: Row)
      ensures this.pk == pk && this.row == row
    {
      this.pk, this.row := pk, row;
    }

    /** The guard and the two locks, one after the other. */
    method CompareWith(existing: Row) returns (passes: bool)
      ensures passes == PassesLocks(existing, row)
    {
      if existing.status in TAX_DOCUMENT.frozen && (existing.status, row.status) !in TAX_DOCUMENT.allowed { return false; }
      if existing.status != DRAFT && !(row.money == existing.money && row.ident == existing.ident) { return false; }
      if row.irn != "" && existing.irn != "" && existing.irn == row.irn && row.money != existing.money { return false; }
      return true;
    }

    method SaveTo(table: InvoiceTable, fields: Option<set<Field>>, valid: bool) returns (ok: bool)
      modifies this, table
      ensures var s, v := old(table.Now()), InvoiceSave(old(pk), old(row), fields, valid);
        && ok == Accepted(s, v) && table.Now() == AfterInvoiceSave(s, v)
        && row == (if Unlocked(s, v) then Normal(old(row)) else old(row))
        && pk == (if ok && fields.None? then Some(Key(s, v)) else old(pk))
    {
      ok := false;
      if pk.Some? && pk.value in table.rows {
        var passes := CompareWith(table.rows[pk.value]);
        if !passes { return; }
      }
      row := Normal(row);
      if row.status !in {DRAFT, APPROVED, POSTED, CANCELLED} || !AddsUp(row.money) || !NonNegative(row.money) { return; }
      if row.status == POSTED && row.journal.None? { return; }
      if !valid { return; }
      if fields.Some? {
        if fields.value == {} { return true; }
        if pk.None? || pk.value !in table.rows { return; }
        table.rows := table.rows[pk.value := Merge(table.rows[pk.value], row, fields.value)];
      } else {
        if pk.None? { pk := Some(table.next); }
        table.rows := table.rows[pk.value := row];
      }
      if table.next <= pk.value { table.next := pk.value + 1; }
      ok := true;
    }
  }

  // ----- What a save writes -----

  datatype Value = StatusValue(s: Status) | Amount(n: int) | Text(t: string) | Flag(b: bool) | Ref(r: Option<nat>)

  /** One column of a row. */
  function Column(r: Row, f: Field): Value {
    match f
    case Taxable => Amount(r.money.taxable)
    case Cgst => Amount(r.money.cgst)
    case Sgst => Amount(r.money.sgst)
    case Igst => Amount(r.money.igst)
    case Total => Amount(r.money.total)
    case InvoiceDate => Amount(r.ident.invoiceDate)
    case SupplyKind => Flag(r.ident.supplyKind)
    case SupplierName => Text(r.ident.supplierName)
    case SupplierGstin => Text(r.ident.supplierGstin)
    case RecipientName => Text(r.ident.recipientName)
    case RecipientGstin => Text(r.ident.recipientGstin)
    case DocSeries => Amount(r.ident.docSeries)
    case StatusField => StatusValue(r.status)
    case Irn => Text(r.irn)
    case Journal => Ref(r.journal)
    case Notes => Text(r.notes)
  }

  /** The column of the instance as it is written: names and notes stripped, GSTINs also upper-cased, the
      rest as given. */
  function CleanColumn(r: Row, f: Field): Value {
    match f
    case SupplierName => Text(Strip(r.ident.supplierName))
    case RecipientName => Text(Strip(r.ident.recipientName))
    case Notes => Text(Strip(r.notes))
    case SupplierGstin => Text(Upper(Strip(r.ident.supplierGstin)))
    case RecipientGstin => Text(Upper(Strip(r.ident.recipientGstin)))
    case _ => Column(r, f)
  }

  /** After an accepted save every written column is the instance's, every other one is as it was, and
      no other invoice changes. */
  lemma SaveWritesListedColumns(s: Invoices, v: InvoiceSave, k: nat, f: Field)
    requires Accepted(s, v) && (v.pk == Some(k) || (v.pk.None? && k == s.next && k !in s.rows)) && (v.fields.None? || v.fields.value != {})
    ensures var s' := AfterInvoiceSave(s, v);
      && s'.rows.Keys == s.rows.Keys + {k} && (forall j <- s.rows :: j != k ==> s'.rows[j] == s.rows[j])
      && Column(s'.rows[k], f) == if v.fields.None? || f in v.fields.value then CleanColumn(v.inst, f) else Column(s.rows[k], f)
  {
  }

  lemma EmptySaveWritesNothing(s: Invoices, v: InvoiceSave)
    ensures v.fields == Some({}) || !Accepted(s, v) ==> AfterInvoiceSave(s, v) == s
  {
  }

  /** What a save is asked: a free way from the stored status, the two locks, amounts that add up and are
      not negative, and a journal for POSTED. */
  lemma SaveIsAcceptedIff(s: Invoices, stored: Row, inst: Row, k: nat, fields: Option<set<Field>>, valid: bool)
    requires k in s.rows && s.rows[k] == stored
    ensures Accepted(s, InvoiceSave(Some(k), inst, fields, valid)) <==>
      && (match stored.status
          case APPROVED => inst.status == POSTED || inst.status == CANCELLED
          case POSTED => inst.status == CANCELLED
          case CANCELLED => false
          case _ => inst.status in {DRAFT, APPROVED, POSTED, CANCELLED})
      && (stored.status != DRAFT ==> forall f :: LockedAlways(f) ==> Column(inst, f) == Column(stored, f))
      && (inst.irn != "" && inst.irn == stored.irn ==> forall f :: IsMoney(f) ==> Column(inst, f) == Column(stored, f))
      && inst.money.total == inst.money.taxable + inst.money.cgst + inst.money.sgst + inst.money.igst
      && 0 <= inst.money.taxable && 0 <= inst.money.cgst && 0 <= inst.money.sgst && 0 <= inst.money.igst && 0 <= inst.money.total
      && (inst.status == POSTED ==> inst.journal.Some?)
      && valid
  {
    ColumnsDecide(stored, inst);
    TaxDocumentMoves(stored.status, inst.status);
  }

  lemma InsertIsAcceptedIff(s: Invoices, inst: Row, valid: bool)
    ensures Accepted(s, InvoiceSave(None, inst, None, valid)) <==>
      && inst.status in {DRAFT, APPROVED, POSTED, CANCELLED}
      && inst.money.total == inst.money.taxable + inst.money.cgst + inst.money.sgst + inst.money.igst
      && 0 <= inst.money.taxable && 0 <= inst.money.cgst && 0 <= inst.money.sgst && 0 <= inst.money.igst && 0 <= inst.money.total
      && (inst.status == POSTED ==> inst.journal.Some?)
      && valid
  {
  }

  predicate IsMoney(f: Field) { f in {Taxable, Cgst, Sgst, Igst, Total} }

  predicate LockedAlways(f: Field) { f !in {StatusField, Irn, Journal, Notes} }

  lemma ColumnsDecide(a: Row, b: Row)
    ensures a.money == b.money <==> forall f :: IsMoney(f) ==> Column(a, f) == Column(b, f)
    ensures a.money == b.money && a.ident == b.ident <==> forall f :: LockedAlways(f) ==> Column(a, f) == Column(b, f)
  {
    if forall f :: IsMoney(f) ==> Column(a, f) == Column(b, f) { MoneyColumns(a, b); }
    if forall f :: LockedAlways(f) ==> Column(a, f) == Column(b, f) {
      forall f | IsMoney(f) ensures Column(a, f) == Column(b, f) { assert LockedAlways(f); }
      MoneyColumns(a, b);
      assert Column(a, InvoiceDate) == Column(b, InvoiceDate) && Column(a, SupplyKind) == Column(b, SupplyKind);
      assert Column(a, SupplierName) == Column(b, SupplierName) && Column(a, SupplierGstin) == Column(b, SupplierGstin);
      assert Column(a, RecipientName) == Column(b, RecipientName) && Column(a, RecipientGstin) == Column(b, RecipientGstin);
      assert Column(a, DocSeries) == Column(b, DocSeries);
    }
  }

  lemma MoneyColumns(a: Row, b: Row)
    requires forall f :: IsMoney(f) ==> Column(a, f) == Column(b, f)
    ensures a.money == b.money
  {
    assert IsMoney(Taxable) && IsMoney(Cgst) && IsMoney(Sgst) && IsMoney(Igst) && IsMoney(Total);
    assert Column(a, Taxable) == Column(b, Taxable) && Column(a, Cgst) == Column(b, Cgst) && Column(a, Sgst) == Column(b, Sgst);
    assert Column(a, Igst) == Column(b, Igst) && Column(a, Total) == Column(b, Total);
  }

  // ----- The status over runs -----

  /** The save as the status guard sees it. */
  function AsSave(s: Invoices, v: InvoiceSave): Save<Row> {
    var stored := v.pk.Some? && v.pk.value in s.rows;
    var row := Normal(v.inst);
    var checked := Accepted(s, v) && v.fields != Some({});
    if v.fields.None? then Save(v.pk, Doc(v.inst.status, row.(status := DRAFT)), Whole, checked)
    else Save(v.pk, Doc(v.inst.status, (if stored then Merge(s.rows[v.pk.value], row, v.fields.value) else row).(status := DRAFT)),
              Part(StatusField in v.fields.value), checked)
  }

  /** The table as the status guard sees it: the status, and the rest of the row. */
  function AsStore(s: Invoices): Store<Row> {
    Store(map k | k in s.rows :: Doc(s.rows[k].status, s.rows[k].(status := DRAFT)), s.next)
  }

  function AsSaves(s: Invoices, vs: seq<InvoiceSave>): seq<Save<Row>> {
    if vs == [] then [] else
      AsSaves(s, vs[..|vs| - 1]) + [AsSave(AfterInvoiceSaves(s, vs[..|vs| - 1]), vs[|vs| - 1])]
  }

  lemma SaveIsGuardedSave(s: Invoices, v: InvoiceSave)
    ensures AsStore(AfterInvoiceSave(s, v)) == AfterSave(Accounting, TAX_DOCUMENT, AsStore(s), AsSave(s, v))
  {
    var g, t := AsSave(s, v), AsStore(s);
    if Accepted(s, v) && v.fields != Some({}) {
      assert Saved(Accounting, TAX_DOCUMENT, t, g);
      assert AsStore(AfterInvoiceSave(s, v)).rows == t.rows[Key(s, v) := Stored(t, g)];
    }
  }

  /** A run of invoice saves is, to its statuses, a run of guarded saves with the table of tax documents. */
  lemma {:induction false} InvoiceRunIsGuardedRun(s: Invoices, vs: seq<InvoiceSave>)
    ensures AsStore(AfterInvoiceSaves(s, vs)) == AfterSaves(Accounting, TAX_DOCUMENT, AsStore(s), AsSaves(s, vs))
  {
    if vs != [] {
      InvoiceRunIsGuardedRun(s, vs[..|vs| - 1]);
      SaveIsGuardedSave(AfterInvoiceSaves(s, vs[..|vs| - 1]), vs[|vs| - 1]);
      var saves := AsSaves(s, vs);
      assert saves[..|saves| - 1] == AsSaves(s, vs[..|vs| - 1]);
    }
  }

  /** So a stored invoice takes at most two more statuses from APPROVED, one from POSTED, none from
      CANCELLED, and never leaves these three. */
  lemma InvoiceStatusesAreBounded(s: Invoices, vs: seq<InvoiceSave>, k: nat)
    requires Consistent(s) && k in s.rows && s.rows[k].status in {APPROVED, POSTED, CANCELLED}
    ensures var s' := AfterInvoiceSaves(s, vs);
      && k in s'.rows && s'.rows[k].status in {APPROVED, POSTED, CANCELLED}
      && |History(Accounting, TAX_DOCUMENT, AsStore(s), AsSaves(s, vs), k)| - 1
         <= (match s.rows[k].status case APPROVED => 2 case POSTED => 1 case _ => 0)
  {
    InvoiceRunIsGuardedRun(s, vs);
    TaxDocumentIsRanked();
    FrozenRowIsNearlyFinal(Accounting, TAX_DOCUMENT, DocumentRank, AsStore(s), AsSaves(s, vs), k);
    assert AsStore(AfterInvoiceSaves(s, vs)).rows[k].status == AfterInvoiceSaves(s, vs).rows[k].status;
    FrozenTaxStatuses(AfterInvoiceSaves(s, vs).rows[k].status);
  }

  lemma FrozenTaxStatuses(p: Status)
    ensures p in TAX_DOCUMENT.frozen ==> p in {APPROVED, POSTED, CANCELLED}
  {
  }

  /** Approving, posting and cancelling, each by a partial save of an instance loaded from the table, are
      all accepted and leave exactly that status, with the journal written on posting. */
  lemma InvoiceLifecycle(s: Invoices, k: nat, journal: nat)
    requires k in s.rows && s.rows[k].status == DRAFT && AddsUp(s.rows[k].money) && NonNegative(s.rows[k].money) && Normal(s.rows[k]) == s.rows[k]
    ensures var row := s.rows[k];
            var approve := InvoiceSave(Some(k), row.(status := APPROVED), Some({StatusField}), true);
            var post := InvoiceSave(Some(k), row.(status := POSTED, journal := Some(journal)), Some({StatusField, Journal}), true);
            var cancel := InvoiceSave(Some(k), row.(status := CANCELLED, journal := Some(journal)), Some({StatusField}), true);
            var s1 := AfterInvoiceSave(s, approve);
            var s2 := AfterInvoiceSave(s1, post);
            var s3 := AfterInvoiceSave(s2, cancel);
      && s1.rows == s.rows[k := row.(status := APPROVED)]
      && s2.rows == s.rows[k := row.(status := POSTED, journal := Some(journal))]
      && s3.rows == s.rows[k := row.(status := CANCELLED, journal := Some(journal))]
  {
    var row := s.rows[k];
    var s1 := StatusStep(s, k, row.(status := APPROVED), {StatusField});
    var posted := row.(status := POSTED, journal := Some(journal));
    var s2 := StatusStep(s1, k, posted, {StatusField, Journal});
    var s3 := StatusStep(s2, k, posted.(status := CANCELLED), {StatusField});
  }

  /** One such partial save. */
  lemma StatusStep(s: Invoices, k: nat, inst: Row, f: set<Field>) returns (s': Invoices)
    requires k in s.rows && StatusField in f && f <= {StatusField, Journal} && inst.(status := s.rows[k].status, journal := s.rows[k].journal) == s.rows[k]
    requires inst.journal == s.rows[k].journal || Journal in f
    requires AddsUp(inst.money) && NonNegative(inst.money) && Normal(inst) == inst && (inst.status == POSTED ==> inst.journal.Some?)
    requires match s.rows[k].status
             case DRAFT => inst.status == APPROVED
             case APPROVED => inst.status == POSTED
             case POSTED => inst.status == CANCELLED
             case _ => false
    ensures s' == AfterInvoiceSave(s, InvoiceSave(Some(k), inst, Some(f), true)) && s'.rows == s.rows[k := inst]
  {
    var v := InvoiceSave(Some(k), inst, Some(f), true);
    SaveIsAcceptedIff(s, s.rows[k], inst, k, Some(f), true);
    ColumnsDecide(s.rows[k], inst);
    assert Merge(s.rows[k], inst, f) == inst;
    s' := AfterInvoiceSave(s, v);
  }

  // ----- The twelve locked fields -----

  ghost predicate Consistent(s: Invoices) {
    forall k <- s.rows :: k < s.next && Normal(s.rows[k]) == s.rows[k] && s.rows[k].status in {DRAFT, APPROVED, POSTED, CANCELLED}
  }

  lemma NormalIsIdempotent(r: Row)
    ensures Normal(Normal(r)) == Normal(r)
  {
    NormalisingIsIdempotent(r.ident.supplierName);
    NormalisingIsIdempotent(r.ident.supplierGstin);
    NormalisingIsIdempotent(r.ident.recipientName);
    NormalisingIsIdempotent(r.ident.recipientGstin);
    NormalisingIsIdempotent(r.notes);
  }

  lemma MergeKeepsNormal(a: Row, b: Row, fields: set<Field>)
    requires Normal(a) == a && Normal(b) == b
    ensures Normal(Merge(a, b, fields)) == Merge(a, b, fields)
  {
  }

  lemma SaveKeepsConsistent(s: Invoices, v: InvoiceSave)
    requires Consistent(s)
    ensures Consistent(AfterInvoiceSave(s, v))
  {
    NormalIsIdempotent(v.inst);
    if Key(s, v) in s.rows && v.fields.Some? {
      MergeKeepsNormal(s.rows[Key(s, v)], Normal(v.inst), v.fields.value);
    }
  }

  /** One accepted save of a row that has left DRAFT: it stays out of DRAFT with the same twelve
      fields, although what is compared is the raw instance and what is written is normalised. */
  lemma LockedSave(s: Invoices, v: InvoiceSave, k: nat)
    requires Consistent(s) && k in s.rows && s.rows[k].status != DRAFT
    ensures var s' := AfterInvoiceSave(s, v);
      && k in s'.rows && s'.rows[k].status != DRAFT
      && s'.rows[k].money == s.rows[k].money && s'.rows[k].ident == s.rows[k].ident
  {
    if Accepted(s, v) && v.fields != Some({}) && Key(s, v) == k {
      var stored := s.rows[k];
      assert Normal(v.inst).ident == Normal(stored).ident;
      TaxDocumentMoves(stored.status, v.inst.status);
    }
  }

  lemma {:induction false} LockedRun(s: Invoices, vs: seq<InvoiceSave>, k: nat)
    requires Consistent(s) && k in s.rows && s.rows[k].status != DRAFT
    ensures var s' := AfterInvoiceSaves(s, vs);
      && Consistent(s') && k in s'.rows && s'.rows[k].status != DRAFT
      && s'.rows[k].money == s.rows[k].money && s'.rows[k].ident == s.rows[k].ident
  {
    if vs != [] {
      LockedRun(s, vs[..|vs| - 1], k);
      SaveKeepsConsistent(AfterInvoiceSaves(s, vs[..|vs| - 1]), vs[|vs| - 1]);
      LockedSave(AfterInvoiceSaves(s, vs[..|vs| - 1]), vs[|vs| - 1], k);
    }
  }

  lemma {:induction false} SavesAppend(s: Invoices, a: seq<InvoiceSave>, b: seq<InvoiceSave>)
    ensures AfterInvoiceSaves(s, a + b) == AfterInvoiceSaves(AfterInvoiceSaves(s, a), b)
  {
    if b == [] {
      assert a + b == a;
    } else {
      assert (a + b)[..|a + b| - 1] == a + b[..|b| - 1];
      SavesAppend(s, a, b[..|b| - 1]);
    }
  }

  lemma {:induction false} RunKeepsConsistent(s: Invoices, vs: seq<InvoiceSave>)
    requires Consistent(s)
    ensures Consistent(AfterInvoiceSaves(s, vs))
  {
    if vs != [] {
      RunKeepsConsistent(s, vs[..|vs| - 1]);
      SaveKeepsConsistent(AfterInvoiceSaves(s, vs[..|vs| - 1]), vs[|vs| - 1]);
    }
  }

  const NO_INVOICES := Invoices(map[], 0)

  /** INV-3: in any run of full and partial saves from an empty table, any two versions of an invoice
      stored outside DRAFT agree on all twelve locked fields. */
  lemma NonDraftVersionsAgree(vs: seq<InvoiceSave>, i: nat, j: nat, k: nat)
    requires i <= j <= |vs|
    requires var a := AfterInvoiceSaves(NO_INVOICES, vs[..i]); k in a.rows && a.rows[k].status != DRAFT
    ensures var a, b := AfterInvoiceSaves(NO_INVOICES, vs[..i]), AfterInvoiceSaves(NO_INVOICES, vs[..j]);
      && k in b.rows && b.rows[k].status != DRAFT
      && b.rows[k].money == a.rows[k].money && b.rows[k].ident == a.rows[k].ident
  {
    assert vs[..j] == vs[..i] + vs[i..j];
    SavesAppend(NO_INVOICES, vs[..i], vs[i..j]);
    RunKeepsConsistent(NO_INVOICES, vs[..i]);
    LockedRun(AfterInvoiceSaves(NO_INVOICES, vs[..i]), vs[i..j], k);
  }

  // ----- The total -----

  /** How far the money fields a partial save leaves out are from the instance it was checked on. */
  function Drift(stored: Money, inst: Money, fields: set<Field>): int {
    (if Total in fields then 0 else stored.total - inst.total)
    - (if Taxable in fields then 0 else stored.taxable - inst.taxable)
    - (if Cgst in fields then 0 else stored.cgst - inst.cgst)
    - (if Sgst in fields then 0 else stored.sgst - inst.sgst)
    - (if Igst in fields then 0 else stored.igst - inst.igst)
  }

  predicate Drifts(s: Invoices, v: InvoiceSave) {
    v.fields.Some? && v.pk.Some? && v.pk.value in s.rows
    && Drift(s.rows[v.pk.value].money, v.inst.money, v.fields.value) != 0
  }

  ghost predicate AllAddUp(s: Invoices) { forall k <- s.rows :: AddsUp(s.rows[k].money) }

  lemma MergedMoneyAddsUp(stored: Money, inst: Money, fields: set<Field>)
    requires AddsUp(stored) && AddsUp(inst)
    ensures AddsUp(MergeMoney(stored, inst, fields)) <==> Drift(stored, inst, fields) == 0
  {
  }

  /** `clean` checks the instance. The stored total equals taxable plus tax after an accepted write
      exactly when the money fields left out do not drift; a full save never does. */
  lemma TotalKeptIffNoDrift(s: Invoices, v: InvoiceSave)
    requires AllAddUp(s) && Accepted(s, v) && v.fields != Some({})
    ensures AllAddUp(AfterInvoiceSave(s, v)) <==> !Drifts(s, v)
    ensures v.fields.None? ==> AllAddUp(AfterInvoiceSave(s, v))
  {
    OneRowAddsUp(s, AfterInvoiceSave(s, v), Key(s, v), Written(s, v));
    if v.fields.Some? { MergedMoneyAddsUp(s.rows[v.pk.value].money, v.inst.money, v.fields.value); }
  }

  lemma OneRowAddsUp(s: Invoices, s': Invoices, k: nat, row: Row)
    requires AllAddUp(s) && s'.rows == s.rows[k := row]
    ensures AllAddUp(s') <==> AddsUp(row.money)
  {
    assert s'.rows[k] == row;
  }

  ghost predicate AlwaysAddUp(s: Invoices, vs: seq<InvoiceSave>) {
    AllAddUp(AfterInvoiceSaves(s, vs)) && (vs == [] || AlwaysAddUp(s, vs[..|vs| - 1]))
  }

  /** No save that writes something drifts at its turn. */
  ghost predicate NeverDrifts(s: Invoices, vs: seq<InvoiceSave>) {
    vs == [] || (NeverDrifts(s, vs[..|vs| - 1])
                 && (Accepted(AfterInvoiceSaves(s, vs[..|vs| - 1]), vs[|vs| - 1]) && vs[|vs| - 1].fields != Some({})
                     ==> !Drifts(AfterInvoiceSaves(s, vs[..|vs| - 1]), vs[|vs| - 1])))
  }

  /** Over any run every stored version adds up at every moment if and only if no save drifts, */
  lemma {:induction false} StoredTotalsAddUp(vs: seq<InvoiceSave>)
    ensures AlwaysAddUp(NO_INVOICES, vs) <==> NeverDrifts(NO_INVOICES, vs)
  {
    if vs != [] {
      var s, v := AfterInvoiceSaves(NO_INVOICES, vs[..|vs| - 1]), vs[|vs| - 1];
      StoredTotalsAddUp(vs[..|vs| - 1]);
      if AllAddUp(s) && Accepted(s, v) && v.fields != Some({}) { TotalKeptIffNoDrift(s, v); }
    }
  }

  /** and full saves alone never do. */
  lemma {:induction false} FullSavesNeverDrift(vs: seq<InvoiceSave>)
    requires forall v <- vs :: v.fields.None?
    ensures NeverDrifts(NO_INVOICES, vs)
  {
    if vs != [] {
      assert vs[|vs| - 1] in vs && forall v <- vs[..|vs| - 1] :: v in vs;
      FullSavesNeverDrift(vs[..|vs| - 1]);
    }
  }

  // ----- The IRN lock -----

  /** Every save of `k` in the run carries this IRN in memory. */
  ghost predicate KeepsIrn(vs: seq<InvoiceSave>, k: nat, irn: string) {
    forall v <- vs :: v.pk == Some(k) ==> v.inst.irn == irn
  }

  /** INV-4, where it holds: while every instance saved carries the IRN that is stored, the five money
      fields are fixed, in DRAFT too. */
  lemma {:induction false} IrnLocksMoney(s: Invoices, vs: seq<InvoiceSave>, k: nat)
    requires k in s.rows && k < s.next && s.rows[k].irn != "" && KeepsIrn(vs, k, s.rows[k].irn)
    ensures var s' := AfterInvoiceSaves(s, vs);
      && k in s'.rows && k < s'.next && s'.rows[k].irn == s.rows[k].irn && s'.rows[k].money == s.rows[k].money
  {
    if vs != [] {
      assert vs[|vs| - 1] in vs;
      IrnLocksMoney(s, vs[..|vs| - 1], k);
    }
  }

  /** Where it does not: "once set, invoice fields are immutable" fails exactly for an instance whose
      IRN in memory is not the stored one. For a DRAFT row, some accepted save changes the money
      fields if and only if that save carries another IRN, or none. */
  lemma IrnLockFailsIffIrnDiffers(s: Invoices, k: nat, irn: string)
    requires k in s.rows && s.rows[k].status == DRAFT && s.rows[k].irn != ""
    ensures (exists v: InvoiceSave :: v.pk == Some(k) && v.inst.irn == irn && Accepted(s, v)
                               && AfterInvoiceSave(s, v).rows[k].money != s.rows[k].money)
            <==> irn != s.rows[k].irn
  {
    if irn != s.rows[k].irn {
      var v := OtherIrnUnlocks(s, k, irn);
    }
    forall v: InvoiceSave | v.pk == Some(k) && v.inst.irn == s.rows[k].irn && Accepted(s, v)
      ensures AfterInvoiceSave(s, v).rows[k].money == s.rows[k].money
    {
      SameIrnLocks(s, v, k);
    }
  }

  lemma SameIrnLocks(s: Invoices, v: InvoiceSave, k: nat)
    requires k in s.rows && s.rows[k].irn != "" && v.pk == Some(k) && v.inst.irn == s.rows[k].irn && Accepted(s, v)
    ensures AfterInvoiceSave(s, v).rows[k].money == s.rows[k].money
  {
    assert Normal(v.inst).money == s.rows[k].money;
  }

  function OtherMoney(m: Money): Money {
    if m.total == 0 then Money(1, 0, 0, 0, 1) else Money(0, 0, 0, 0, 0)
  }

  lemma DraftIsOpen(s: Invoices, v: InvoiceSave, k: nat)
    requires k in s.rows && s.rows[k].status == DRAFT && v.pk == Some(k) && v.fields.None? && v.valid
    requires v.inst.irn != s.rows[k].irn && v.inst.status == DRAFT && AddsUp(v.inst.money) && NonNegative(v.inst.money)
    ensures Accepted(s, v)
  {
  }

  lemma FullSaveWritesMoney(s: Invoices, v: InvoiceSave, k: nat)
    requires Accepted(s, v) && v.pk == Some(k) && v.fields.None?
    ensures k in AfterInvoiceSave(s, v).rows && AfterInvoiceSave(s, v).rows[k].money == v.inst.money
  {
  }

  lemma OtherIrnUnlocks(s: Invoices, k: nat, irn: string) returns (v: InvoiceSave)
    requires k in s.rows && s.rows[k].status == DRAFT && irn != s.rows[k].irn
    ensures v.pk == Some(k) && v.inst.irn == irn && Accepted(s, v) && AfterInvoiceSave(s, v).rows[k].money != s.rows[k].money
  {
    var stored := s.rows[k];
    v := InvoiceSave(Some(k), stored.(irn := irn, money := OtherMoney(stored.money)), None, true);
    DraftIsOpen(s, v, k);
    FullSaveWritesMoney(s, v, k);
  }

  /** The table may even keep its IRN: a partial save of the money fields by an instance that has lost
      the IRN in memory leaves the stored IRN on changed amounts. */
  lemma StoredIrnIsNotEnough()
    ensures var stored := Row(DRAFT, Money(100, 9, 9, 0, 118), Identity(0, true, "A", "", "B", "", 1), "IRN", None, "");
            var s := Invoices(map[1 := stored], 2);
            var v := InvoiceSave(Some(1), stored.(irn := "", money := Money(200, 18, 18, 0, 236)), Some({Taxable, Cgst, Sgst, Igst, Total}), true);
      && Accepted(s, v)
      && AfterInvoiceSave(s, v).rows[1].irn == "IRN" && AfterInvoiceSave(s, v).rows[1].money.total == 236
  {
  }
}
