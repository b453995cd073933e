/** `DirectSale.save`: the status guard, the branch taken from counter, account or default, `clean`,
    and full or partial writes. Amounts are integer paise.
 */
module DirectSales {
  import opened Options
  import opened StatusGuards
  import opened Texts

  // ----- Sales and the tables they point to -----

  /** A sale without its status. */
  datatype Sale = Sale(grand: int, received: int, balance: int, branch: Option<nat>, counter: Option<nat>, account: Option<nat>,
                       customer: Option<nat>, customerName: string, deliveryRequired: bool, deliveredAt: Option<int>)

  datatype Field = StatusField | Grand | Received | Balance | Branch | Counter | Account | Customer | CustomerName | DeliveryRequired | DeliveredAt

  /** The branch of each cash counter, the branch, if any, of each finance account, and the primary
      branch, if there is one. */
  datatype Org = Org(counters: map<nat, nat>, accounts: map<nat, Option<nat>>, primary: Option<nat>)

  type Sales = Store<Sale>

  /** One call of `save`; `valid` stands for the choices, lengths and other foreign keys. */
  datatype SaleSave = SaleSave(pk: Option<nat>, inst: Doc<Sale>, fields: Option<set<Field>>, org: Org, valid: bool)

  predicate LinksExist(r: Sale, org: Org) {
    (r.counter.Some? ==> r.counter.value in org.counters) && (r.account.Some? ==> r.account.value in org.accounts)
  }

  function CounterBranch(r: Sale, org: Org): Option<nat> {
    if r.counter.Some? && r.counter.value in org.counters then Some(org.counters[r.counter.value]) else None
  }

  function AccountBranch(r: Sale, org: Org): Option<nat> {
    if r.account.Some? && r.account.value in org.accounts then org.accounts[r.account.value] else None
  }

  /** The branch-filling step; following a link to a missing row raises and leaves the branch empty. */
  function Filled(r: Sale, org: Org): Sale {
    if r.branch.Some? then r
    else if r.counter.Some? then r.(branch := CounterBranch(r, org))
    else if r.account.Some? && r.account.value !in org.accounts then r
    else if AccountBranch(r, org).Some? then r.(branch := AccountBranch(r, org))
    else r.(branch := org.primary)
  }

  /** The instance as `save` leaves it before it is checked and written. */
  function Prepared(r: Sale, org: Org): Sale { Filled(r.(customerName := Strip(r.customerName)), org) }

  /** `clean`, check by check. */
  predicate Clean(status: Status, r: Sale, org: Org) {
    && LinksExist(r, org)
    && r.grand - r.received >= 0 && r.balance == r.grand - r.received
    && (r.customer.Some? || Strip(r.customerName) != "")
    && (r.counter.Some? && r.branch.Some? ==> r.branch.value == org.counters[r.counter.value])
    && (r.account.Some? && r.branch.Some? && org.accounts[r.account.value].Some? ==> r.branch == org.accounts[r.account.value])
    && (r.deliveryRequired && status == DELIVERED ==> r.deliveredAt.Some?)
  }

  function Merge(stored: Sale, inst: Sale, f: set<Field>): Sale {
    Sale(if Grand in f then inst.grand else stored.grand,
         if Received in f then inst.received else stored.received,
         if Balance in f then inst.balance else stored.balance,
         if Branch in f then inst.branch else stored.branch,
         if Counter in f then inst.counter else stored.counter,
         if Account in f then inst.account else stored.account,
         if Customer in f then inst.customer else stored.customer,
         if CustomerName in f then inst.customerName else stored.customerName,
         if DeliveryRequired in f then inst.deliveryRequired else stored.deliveryRequired,
         if DeliveredAt in f then inst.deliveredAt else stored.deliveredAt)
  }

  predicate Checked(v: SaleSave) {
    v.valid && LinksExist(v.inst.body, v.org) && Clean(v.inst.status, Prepared(v.inst.body, v.org), v.org)
  }

  /** The save as the status guard sees it: what it writes, and whether it passes the checks. A save of
      no fields at all writes nothing. */
  function AsSave(s: Sales, v: SaleSave): Save<Sale> {
    var row := Prepared(v.inst.body, v.org);
    if v.fields.None? then Save(v.pk, Doc(v.inst.status, row), Whole, Checked(v))
    else
      var body := if v.pk.Some? && v.pk.value in s.rows then Merge(s.rows[v.pk.value].body, row, v.fields.value) else row;
      Save(v.pk, Doc(v.inst.status, body), Part(StatusField in v.fields.value), Checked(v) && v.fields.value != {})
  }

  /** The status guard lets the save through. */
  predicate Unblocked(s: Sales, v: SaleSave) {
    v.pk.Some? && v.pk.value in s.rows ==> Accepts(Billing, DIRECT_SALE, s.rows[v.pk.value].status, v.inst.status)
  }

  predicate Accepted(s: Sales, v: SaleSave) {
    && Unblocked(s, v)
    && Checked(v)
    && (v.fields.Some? && v.fields.value != {} ==> v.pk.Some? && v.pk.value in s.rows)
  }

  function AfterSaleSave(s: Sales, v: SaleSave): Sales { AfterSave(Billing, DIRECT_SALE, s, AsSave(s, v)) }

  function AfterSaleSaves(s: Sales, vs: seq<SaleSave>): Sales {
    if vs == [] then s else AfterSaleSave(AfterSaleSaves(s, vs[..|vs| - 1]), vs[|vs| - 1])
  }

  class SaleTable {
    var rows: map<nat, Doc<Sale>>
    var next: nat

    function Now(): Sales
      reads this
    {
      Store(rows, next)
    }

    constructor ()
      ensures Now() == Store(map[], 0)
    {
      rows, next := map[], 0;
    }
  }

  /** A sale instance in memory. */
  class DirectSale {
    var pk: Option<nat>
    var status: Status
    var sale: Sale

    constructor (pk: Option<nat>, status: Status, sale: Sale)
      ensures this.pk == pk && this.status == status && this.sale == sale
    {
      this.pk, this.status, this.sale := pk, status, sale;
    }

    /** The branch step of `save`, in the order of the source. */
    method FillBranch(org: Org)
      modifies this`sale
      ensures sale == Filled(old(sale), org)
    {
      if sale.branch.None? {
        var branch: Option<nat> := None;
        if sale.counter.Some? {
          if sale.counter.value !in org.counters { return; }
          branch := Some(org.counters[sale.counter.value]);
        }
        if branch.None? && sale.account.Some? {
          if sale.account.value !in org.accounts { return; }
          branch := org.accounts[sale.account.value];
        }
        if branch.None? { branch := org.primary; }
        sale := sale.(branch := branch);
      }
    }

    /** `clean`: every check is made, the errors are reported together. */
    method CleanSale(org: Org) returns (ok: bool)
      requires LinksExist(sale, org)
      ensures ok == Clean(status, sale, org)
    {
      ok := true;
      var computed := sale.grand - sale.received;
      if computed < 0 { ok := false; } else if sale.balance != computed { ok := false; }
      if sale.customer.None? && Strip(sale.customerName) == "" { ok := false; }
      if sale.counter.Some? {
        var counterBranch := org.counters[sale.counter.value];
        if sale.branch.Some? && sale.branch.value != counterBranch { ok := false; }
      }
      if sale.account.Some? {
        var accountBranch := org.accounts[sale.account.value];
        if sale.branch.Some? && accountBranch.Some? && sale.branch != accountBranch { ok := false; }
      }
      if sale.deliveryRequired && status == DELIVERED && sale.deliveredAt.None? { ok := false; }
    }

    method SaveTo(table: SaleTable, fields: Option<set<Field>>, org: Org, valid: bool) returns (ok: bool)
      modifies this, table
      ensures var s, v := old(table.Now()), SaleSave(old(pk), Doc(old(status), old(sale)), fields, org, valid);
        && ok == Accepted(s, v) && table.Now() == AfterSaleSave(s, v)
        && status == old(status) && pk == (if ok && fields.None? then Some(KeyFor(s, AsSave(s, v))) else old(pk))
        && sale == (if Unblocked(s, v) then Prepared(old(sale), org) else old(sale))
    {
      ok := PassesGuard(table);
      if !ok { return; }
      ok := false;
      sale := sale.(customerName := Strip(sale.customerName));
      FillBranch(org);
      if !LinksExist(sale, org) { return; }
      var clean := CleanSale(org);
      if !clean || !valid { return; }
      ok := Write(table, fields);
    }

    method PassesGuard(table: SaleTable) returns (ok: bool)
      ensures ok == (pk.Some? && pk.value in table.rows ==> Accepts(Billing, DIRECT_SALE, table.rows[pk.value].status, status))
    {
      ok := true;
      if pk.Some? && pk.value in table.rows && table.rows[pk.value].status in DIRECT_SALE.frozen {
        ok := !TransitionBlocked(table.rows[pk.value].status, status, DIRECT_SALE.allowed);
      }
    }

    /** `super().save`: an INSERT or UPDATE of everything, or an UPDATE of the listed fields. */
    method Write(table: SaleTable, fields: Option<set<Field>>) returns (ok: bool)
      modifies this`pk, table
      ensures ok == (fields.Some? && fields.value != {} ==> old(pk).Some? && old(pk).value in old(table.rows))
      ensures pk == if fields.None? then Some(match old(pk) case None => old(table.next) case Some(k) => k) else old(pk)
      ensures var key := match pk case None => 0 case Some(k) => k;
        if !ok || fields == Some({}) then table.Now() == old(table.Now())
        else && table.next == (if old(table.next) <= key then key + 1 else old(table.next))
             && table.rows == old(table.rows)[key :=
                  if fields.None? then Doc(status, sale)
                  else Doc(if StatusField in fields.value then status else old(table.rows)[key].status,
                           Merge(old(table.rows)[key].body, sale, fields.value))]
    {
      ok := true;
      if fields.Some? {
        if fields.value == {} { return; }
        if pk.None? || pk.value !in table.rows { return false; }
        var stored := table.rows[pk.value];
        table.rows := table.rows[pk.value := Doc(if StatusField in fields.value then status else stored.status,
                                                 Merge(stored.body, sale, fields.value))];
      } else {
        if pk.None? { pk := Some(table.next); }
        table.rows := table.rows[pk.value := Doc(status, sale)];
      }
      if table.next <= pk.value { table.next := pk.value + 1; }
    }
  }

  // ----- What a save asks and writes -----

  /** Where the branch of a sale comes from: its own, its counter's, its account's, the primary one. */
  lemma BranchComesFrom(r: Sale, org: Org)
    requires LinksExist(r, org)
    ensures Prepared(r, org) == r.(customerName := Strip(r.customerName), branch := Prepared(r, org).branch)
    ensures r.branch.Some? ==> Prepared(r, org).branch == r.branch
    ensures r.branch.None? && r.counter.Some? ==> Prepared(r, org).branch == Some(org.counters[r.counter.value])
    ensures r.branch.None? && r.counter.None? && r.account.Some? && org.accounts[r.account.value].Some? ==>
      Prepared(r, org).branch == org.accounts[r.account.value]
    ensures r.branch.None? && r.counter.None? && (r.account.None? || org.accounts[r.account.value].None?) ==>
      Prepared(r, org).branch == org.primary
  {
  }

  lemma CleanIff(status: Status, r: Sale, org: Org)
    ensures LinksExist(r, org) && Clean(status, Prepared(r, org), org) <==>
      && LinksExist(r, org)
      && r.received <= r.grand && r.balance + r.received == r.grand
      && (r.customer.Some? || exists i :: 0 <= i < |r.customerName| && !IsSpace(r.customerName[i]))
      && (r.counter.Some? && r.branch.Some? ==> r.branch == Some(org.counters[r.counter.value]))
      && (r.account.Some? && org.accounts[r.account.value].Some? ==>
            var branch := if r.branch.Some? then r.branch else if r.counter.Some? then Some(org.counters[r.counter.value]) else org.accounts[r.account.value];
            branch == org.accounts[r.account.value])
      && (r.deliveryRequired && status == DELIVERED ==> r.deliveredAt.Some?)
  {
    NormalisingIsIdempotent(r.customerName);
    BlankIff(r.customerName);
  }

  /** A sale is saved exactly when its status may follow the stored one, its links exist, its totals
      balance, it names a customer, its branch is that of counter and account, and a delivered one that
      needs delivery says when. */
  lemma WholeSaveIsAcceptedIff(s: Sales, pk: Option<nat>, status: Status, r: Sale, org: Org, valid: bool)
    ensures Accepted(s, SaleSave(pk, Doc(status, r), None, org, valid)) <==>
      && (pk.Some? && pk.value in s.rows ==>
            || s.rows[pk.value].status == status
            || s.rows[pk.value].status in {DRAFT, CONFIRMED, DELIVERED} || s.rows[pk.value].status !in DIRECT_SALE.frozen
            || (s.rows[pk.value].status == INVOICED && status in {REVERSED_POST_INVOICE, RETURNED, CANCELLED_AFTER_DELIVERY, ARCHIVED, EXCHANGED_CLOSED}))
      && LinksExist(r, org)
      && r.received <= r.grand && r.balance + r.received == r.grand
      && (r.customer.Some? || exists i :: 0 <= i < |r.customerName| && !IsSpace(r.customerName[i]))
      && (r.counter.Some? && r.branch.Some? ==> r.branch == Some(org.counters[r.counter.value]))
      && (r.account.Some? && org.accounts[r.account.value].Some? ==>
            var branch := if r.branch.Some? then r.branch else if r.counter.Some? then Some(org.counters[r.counter.value]) else org.accounts[r.account.value];
            branch == org.accounts[r.account.value])
      && (r.deliveryRequired && status == DELIVERED ==> r.deliveredAt.Some?)
      && valid
  {
    CleanIff(status, r, org);
    if pk.Some? && pk.value in s.rows {
      DirectSaleMoves(s.rows[pk.value].status, status);
      OpenSalesAreNotFrozen(s.rows[pk.value].status);
    }
  }

  datatype Value = Number(n: int) | Ref(r: Option<nat>) | Text(t: string) | Flag(b: bool) | Moment(m: Option<int>) | StatusValue(s: Status)

  /** One column of a row. */
  function Column(d: Doc<Sale>, f: Field): Value {
    match f
    case StatusField => StatusValue(d.status)
    case Grand => Number(d.body.grand)
    case Received => Number(d.body.received)
    case Balance => Number(d.body.balance)
    case Branch => Ref(d.body.branch)
    case Counter => Ref(d.body.counter)
    case Account => Ref(d.body.account)
    case Customer => Ref(d.body.customer)
    case CustomerName => Text(d.body.customerName)
    case DeliveryRequired => Flag(d.body.deliveryRequired)
    case DeliveredAt => Moment(d.body.deliveredAt)
  }

  /** After an accepted save every written column is that of the prepared instance, every other column and
      every other sale is as it was. */
  lemma SaveWritesListedColumns(s: Sales, v: SaleSave, k: nat, f: Field)
    requires Accepted(s, v) && (v.pk == Some(k) || (v.pk.None? && k == s.next && k !in s.rows)) && (v.fields.None? || v.fields.value != {})
    ensures var s' := AfterSaleSave(s, v);
      && s'.rows.Keys == s.rows.Keys + {k} && (forall j <- s.rows :: j != k ==> s'.rows[j] == s.rows[j])
      && Column(s'.rows[k], f) == if v.fields.None? || f in v.fields.value
                                  then Column(Doc(v.inst.status, Prepared(v.inst.body, v.org)), f) else Column(s.rows[k], f)
  {
  }

  // ----- The status over runs -----

  /** The run as the status guard sees it. */
  function AsSaves(s: Sales, vs: seq<SaleSave>): seq<Save<Sale>> {
    if vs == [] then [] else
      AsSaves(s, vs[..|vs| - 1]) + [AsSave(AfterSaleSaves(s, vs[..|vs| - 1]), vs[|vs| - 1])]
  }

  lemma {:induction false} SaleRunIsGuardedRun(s: Sales, vs: seq<SaleSave>)
    ensures AfterSaleSaves(s, vs) == AfterSaves(Billing, DIRECT_SALE, s, AsSaves(s, vs))
  {
    if vs != [] {
      SaleRunIsGuardedRun(s, vs[..|vs| - 1]);
      var saves := AsSaves(s, vs);
      assert saves[..|saves| - 1] == AsSaves(s, vs[..|vs| - 1]);
    }
  }

  /** Once INVOICED, whatever is saved of whatever sales, in full or in part, a sale is never again
      DRAFT, CONFIRMED or DELIVERED and its status changes at most once more; the other frozen
      statuses are final. */
  lemma InvoicedSaleIsNeverReopened(s: Sales, vs: seq<SaleSave>, k: nat)
    requires KeysBelowNext(s) && k in s.rows && s.rows[k].status in DIRECT_SALE.frozen
    ensures var s' := AfterSaleSaves(s, vs);
      && k in s'.rows && s'.rows[k].status !in {DRAFT, CONFIRMED, DELIVERED}
      && |DropRepeats(DIRECT_SALE, History(Billing, DIRECT_SALE, s, AsSaves(s, vs), k))| <= (if s.rows[k].status == INVOICED then 2 else 1)
      && (s.rows[k].status != INVOICED ==> s'.rows[k].status == s.rows[k].status)
  {
    SaleRunIsGuardedRun(s, vs);
    InvoicedSaleNeverReopens(s, AsSaves(s, vs), k);
  }

  // ----- Totals -----

  predicate Balanced(r: Sale) { r.balance == r.grand - r.received >= 0 }

  /** How far the totals a partial save leaves out are from the instance it was checked on. */
  function Drift(stored: Sale, inst: Sale, f: set<Field>): int {
    (if Balance in f then 0 else stored.balance - inst.balance)
    - (if Grand in f then 0 else stored.grand - inst.grand)
    + (if Received in f then 0 else stored.received - inst.received)
  }

  lemma MergedIsBalancedIff(stored: Sale, inst: Sale, f: set<Field>)
    requires Balanced(stored) && Balanced(inst)
    ensures Balanced(Merge(stored, inst, f)) <==> Drift(stored, inst, f) == 0
  {
  }

  /** An accepted partial save whose totals drift from the stored ones. */
  predicate Drifts(s: Sales, v: SaleSave) {
    && Accepted(s, v) && v.fields.Some? && v.pk.Some? && v.pk.value in s.rows
    && Drift(s.rows[v.pk.value].body, v.inst.body, v.fields.value) != 0
  }

  ghost predicate AllBalanced(s: Sales) { forall k <- s.rows :: Balanced(s.rows[k].body) }

  lemma OneRowBalanced(s: Sales, s': Sales, k: nat, doc: Doc<Sale>)
    requires AllBalanced(s) && s'.rows == s.rows[k := doc]
    ensures AllBalanced(s') <==> Balanced(doc.body)
  {
    assert s'.rows[k] == doc;
  }

  /** What an accepted save that writes something stores. */
  lemma AcceptedSaveWrites(s: Sales, v: SaleSave)
    requires Accepted(s, v) && v.fields != Some({})
    ensures var row, key := Prepared(v.inst.body, v.org), KeyFor(s, AsSave(s, v));
      && AfterSaleSave(s, v).rows == s.rows[key := Stored(s, AsSave(s, v))]
      && Stored(s, AsSave(s, v)).body == if v.fields.Some? then Merge(s.rows[v.pk.value].body, row, v.fields.value) else row
  {
  }

  /** A save keeps "balance is grand total minus received, and not negative" in the whole table exactly
      when it does not drift. A full save never does. */
  lemma SaveKeepsBalancedIff(s: Sales, v: SaleSave)
    requires AllBalanced(s)
    ensures AllBalanced(AfterSaleSave(s, v)) <==> !Drifts(s, v)
    ensures v.fields.None? ==> AllBalanced(AfterSaleSave(s, v))
  {
    if Accepted(s, v) && v.fields != Some({}) {
      AcceptedSaveWrites(s, v);
      OneRowBalanced(s, AfterSaleSave(s, v), KeyFor(s, AsSave(s, v)), Stored(s, AsSave(s, v)));
      if v.fields.Some? {
        MergedIsBalancedIff(s.rows[v.pk.value].body, Prepared(v.inst.body, v.org), v.fields.value);
      }
    }
  }

  ghost predicate AlwaysBalanced(s: Sales, vs: seq<SaleSave>) {
    AllBalanced(AfterSaleSaves(s, vs)) && (vs == [] || AlwaysBalanced(s, vs[..|vs| - 1]))
  }

  ghost predicate NeverDrifts(s: Sales, vs: seq<SaleSave>) {
    vs == [] || (NeverDrifts(s, vs[..|vs| - 1]) && !Drifts(AfterSaleSaves(s, vs[..|vs| - 1]), vs[|vs| - 1]))
  }

  /** Over any run every stored version is balanced if and only if no save drifts at its turn; */
  lemma {:induction false} StoredSalesBalanceIff(s: Sales, vs: seq<SaleSave>)
    requires AllBalanced(s)
    ensures AlwaysBalanced(s, vs) <==> NeverDrifts(s, vs)
  {
    if vs != [] {
      StoredSalesBalanceIff(s, vs[..|vs| - 1]);
      var now := AfterSaleSaves(s, vs[..|vs| - 1]);
      if AllBalanced(now) { SaveKeepsBalancedIff(now, vs[|vs| - 1]); }
    }
  }

  /** so over any run of full saves it is. */
  lemma {:induction false} FullSavesStayBalanced(s: Sales, vs: seq<SaleSave>)
    requires AllBalanced(s) && forall v <- vs :: v.fields.None?
    ensures AlwaysBalanced(s, vs)
  {
    if vs != [] {
      assert vs[|vs| - 1] in vs && forall v <- vs[..|vs| - 1] :: v in vs;
      FullSavesStayBalanced(s, vs[..|vs| - 1]);
      SaveKeepsBalancedIff(AfterSaleSaves(s, vs[..|vs| - 1]), vs[|vs| - 1]);
    }
  }

  /** `recalculate_direct_sale_settlement` writes received and balance only: it is safe exactly when the
      instance it computed them from has the stored grand total. */
  lemma SettlementIsSafeIff(s: Sales, v: SaleSave, k: nat)
    requires AllBalanced(s) && Accepted(s, v) && v.pk == Some(k) && v.fields == Some({Received, Balance})
    ensures AllBalanced(AfterSaleSave(s, v)) <==> v.inst.body.grand == s.rows[k].body.grand
  {
    SaveKeepsBalancedIff(s, v);
    assert Grand !in v.fields.value;
  }

  // ----- Branches -----

  /** The branch is that of the counter, and any branch set on the finance account. */
  predicate BranchFits(r: Sale, org: Org) {
    && LinksExist(r, org)
    && (CounterBranch(r, org).Some? ==> r.branch == CounterBranch(r, org))
    && (AccountBranch(r, org).Some? ==> r.branch == AccountBranch(r, org))
  }

  /** `clean` compares branches only where the sale has one; with the filling step before it, every
      accepted instance has the branch of its counter and any branch set on its account, */
  lemma AcceptedInstanceFits(s: Sales, v: SaleSave)
    requires Accepted(s, v)
    ensures BranchFits(Prepared(v.inst.body, v.org), v.org)
  {
  }

  /** which a sale that names counter and account of different branches can never be. */
  lemma CrossBranchSaleIsRefused(s: Sales, v: SaleSave)
    requires CounterBranch(v.inst.body, v.org).Some? && AccountBranch(v.inst.body, v.org).Some?
    requires CounterBranch(v.inst.body, v.org) != AccountBranch(v.inst.body, v.org)
    ensures !Accepted(s, v) && AfterSaleSave(s, v) == s
  {
  }

  /** A partial save that writes a branch over a link it leaves out, or a link over such a branch, where
      the two do not belong together. The branch filled in memory counts only if it is written. */
  predicate Misplaces(stored: Sale, inst: Sale, f: set<Field>, org: Org) {
    || (Counter in f && Branch !in f && CounterBranch(inst, org).Some? && stored.branch != CounterBranch(inst, org))
    || (Account in f && Branch !in f && AccountBranch(inst, org).Some? && stored.branch != AccountBranch(inst, org))
    || (Branch in f && Counter !in f && CounterBranch(stored, org).Some? && inst.branch != CounterBranch(stored, org))
    || (Branch in f && Account !in f && AccountBranch(stored, org).Some? && inst.branch != AccountBranch(stored, org))
  }

  lemma MergedFitsIff(stored: Sale, inst: Sale, f: set<Field>, org: Org)
    requires BranchFits(stored, org) && BranchFits(inst, org)
    ensures BranchFits(Merge(stored, inst, f), org) <==> !Misplaces(stored, inst, f, org)
  {
  }

  ghost predicate AllFit(s: Sales, org: Org) { forall k <- s.rows :: BranchFits(s.rows[k].body, org) }

  predicate MisplacesIn(s: Sales, v: SaleSave) {
    && Accepted(s, v) && v.fields.Some? && v.pk.Some? && v.pk.value in s.rows
    && Misplaces(s.rows[v.pk.value].body, Prepared(v.inst.body, v.org), v.fields.value, v.org)
  }

  lemma OneRowFits(s: Sales, s': Sales, k: nat, doc: Doc<Sale>, org: Org)
    requires AllFit(s, org) && s'.rows == s.rows[k := doc]
    ensures AllFit(s', org) <==> BranchFits(doc.body, org)
  {
    assert s'.rows[k] == doc;
  }

  /** A save keeps every stored sale in the branch of its counter and account exactly when it does not
      misplace one. */
  lemma SaveKeepsBranchesIff(s: Sales, v: SaleSave)
    requires AllFit(s, v.org)
    ensures AllFit(AfterSaleSave(s, v), v.org) <==> !MisplacesIn(s, v)
  {
    if Accepted(s, v) && v.fields != Some({}) {
      AcceptedSaveWrites(s, v);
      AcceptedInstanceFits(s, v);
      OneRowFits(s, AfterSaleSave(s, v), KeyFor(s, AsSave(s, v)), Stored(s, AsSave(s, v)), v.org);
      if v.fields.Some? {
        MergedFitsIff(s.rows[v.pk.value].body, Prepared(v.inst.body, v.org), v.fields.value, v.org);
      }
    }
  }

  ghost predicate AlwaysFit(s: Sales, vs: seq<SaleSave>, org: Org) {
    AllFit(AfterSaleSaves(s, vs), org) && (vs == [] || AlwaysFit(s, vs[..|vs| - 1], org))
  }

  ghost predicate NeverMisplaces(s: Sales, vs: seq<SaleSave>) {
    vs == [] || (NeverMisplaces(s, vs[..|vs| - 1]) && !MisplacesIn(AfterSaleSaves(s, vs[..|vs| - 1]), vs[|vs| - 1]))
  }

  /** Over any run, while counters and accounts keep their branches, all stored sales fit at every
      moment if and only if no save misplaces one. */
  lemma {:induction false} StoredBranchesFitIff(s: Sales, vs: seq<SaleSave>, org: Org)
    requires AllFit(s, org) && forall v <- vs :: v.org == org
    ensures AlwaysFit(s, vs, org) <==> NeverMisplaces(s, vs)
  {
    if vs != [] {
      assert vs[|vs| - 1] in vs && forall v <- vs[..|vs| - 1] :: v in vs;
      StoredBranchesFitIff(s, vs[..|vs| - 1], org);
      var now := AfterSaleSaves(s, vs[..|vs| - 1]);
      if AllFit(now, org) { SaveKeepsBranchesIff(now, vs[|vs| - 1]); }
    }
  }
}
