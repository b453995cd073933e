/** Brochure settings: the single PATCH, the bulk update over a list of product ids, and the
    order-keeping removal of repeated ids that feeds it.
 */
module Brochures {
  import opened Options

  // ----- Settings rows -----

  datatype Field =
    | PublicCatalog | RentCatalog | LeaseCatalog | LuckyEmiCatalog | SaleCatalog
    | MonthlyRent | LeaseMonthlyAmount | SecurityDeposit | SortOrder | Featured | ShortDescription | PublicBadge

  datatype Value = Flag(on: bool) | Amount(paise: Option<nat>) | Number(n: nat) | Text(text: string)

  type Settings = map<Field, Value>

  /** One row for each product that has one. */
  type Table = map<nat, Settings>

  /** The model's defaults, with every catalogue flag off: the row that is created on first use. */
  const CREATED: Settings := map[
    PublicCatalog := Flag(false), RentCatalog := Flag(false), LeaseCatalog := Flag(false),
    LuckyEmiCatalog := Flag(false), SaleCatalog := Flag(false),
    MonthlyRent := Amount(None), LeaseMonthlyAmount := Amount(None), SecurityDeposit := Amount(None),
    SortOrder := Number(100), Featured := Flag(false), ShortDescription := Text(""), PublicBadge := Text("")]

  function GetOrCreate(t: Table, id: nat): Settings { if id in t then t[id] else CREATED }

  /** What one PATCH makes of the table: nothing for an unknown product (404). */
  function Patched(products: set<nat>, t: Table, id: nat, updates: Settings): Table {
    if id !in products then t else t[id := GetOrCreate(t, id) + updates]
  }

  /** PATCH after PATCH, over every id of a list as it was sent. */
  function PatchedAll(products: set<nat>, t: Table, ids: seq<nat>, updates: Settings): Table {
    if ids == [] then t else Patched(products, PatchedAll(products, t, ids[..|ids| - 1], updates), ids[|ids| - 1], updates)
  }

  // ----- Repeated ids -----

  /** `list(dict.fromkeys(ids))`. */
  function Dedupe(ids: seq<nat>): seq<nat> {
    if ids == [] then [] else
      var d, last := Dedupe(ids[..|ids| - 1]), ids[|ids| - 1];
      if last in d then d else d + [last]
  }

  function IdSet(ids: seq<nat>): set<nat> { set id <- ids }

  ghost predicate Distinct(ids: seq<nat>) { forall i, j :: 0 <= i < j < |ids| ==> ids[i] != ids[j] }

  /** `i` is the first position of its id. */
  ghost predicate First(ids: seq<nat>, i: nat) { i < |ids| && forall j :: 0 <= j < i ==> ids[j] != ids[i] }

  /** The result has the same ids, each once. */
  lemma {:induction false} DedupeKeepsEachIdOnce(ids: seq<nat>)
    ensures Distinct(Dedupe(ids)) && IdSet(Dedupe(ids)) == IdSet(ids)
  {
    if ids != [] {
      var init, last := ids[..|ids| - 1], ids[|ids| - 1];
      DedupeKeepsEachIdOnce(init);
      assert forall id :: id in Dedupe(init) <==> id in IdSet(init);
      assert ids == init + [last];
      assert IdSet(ids) == IdSet(init) + {last};
    }
  }

  /** Its order is the order of first appearance. */
  lemma {:induction false} DedupeKeepsOrder(ids: seq<nat>, i: nat, j: nat) returns (p: nat, q: nat)
    requires i < j && First(ids, i) && First(ids, j)
    ensures p < q < |Dedupe(ids)| && Dedupe(ids)[p] == ids[i] && Dedupe(ids)[q] == ids[j]
  {
    var init := ids[..|ids| - 1];
    DedupeKeepsEachIdOnce(init);
    assert forall id :: id in Dedupe(init) <==> id in IdSet(init);
    if j < |init| {
      assert First(init, i) && First(init, j);
      p, q := DedupeKeepsOrder(init, i, j);
    } else {
      assert init[i] == ids[i] && ids[i] in IdSet(init);
      p :| 0 <= p < |Dedupe(init)| && Dedupe(init)[p] == ids[i];
      q := |Dedupe(init)|;
      assert ids[j] !in init;
    }
  }

  /** As many ids remain as there are different ones. */
  lemma {:induction false} DistinctCount(ids: seq<nat>)
    requires Distinct(ids)
    ensures |ids| == |IdSet(ids)|
  {
    if ids != [] {
      var init, last := ids[..|ids| - 1], ids[|ids| - 1];
      DistinctSplits(ids);
      DistinctCount(init);
    }
  }

  // ----- What the updates do -----

  /** What every way of updating a set of products comes to: the rows of the known products among
      them carry the updates, and every other row is as it was. */
  function UpdatedTable(products: set<nat>, t: Table, ids: set<nat>, updates: Settings): Table {
    map id | id in t.Keys + ids * products :: if id in ids && id in products then GetOrCreate(t, id) + updates else t[id]
  }

  /** One product's row before and after: `hit` says whether the product is updated. */
  function RowAfter(row: Option<Settings>, hit: bool, updates: Settings): Option<Settings> {
    if hit then Some((match row case None => CREATED case Some(r) => r) + updates) else row
  }

  function Lookup(t: Table, id: nat): Option<Settings> { if id in t then Some(t[id]) else None }

  lemma UpdatedRow(products: set<nat>, t: Table, ids: set<nat>, updates: Settings, id: nat)
    ensures Lookup(UpdatedTable(products, t, ids, updates), id) == RowAfter(Lookup(t, id), id in ids && id in products, updates)
  {
  }

  lemma SameTable(t: Table, u: Table)
    requires forall id :: Lookup(t, id) == Lookup(u, id)
    ensures t == u
  {
    forall id ensures id in t <==> id in u { assert Lookup(t, id) == Lookup(u, id); }
    assert t.Keys == u.Keys;
    forall id | id in t ensures t[id] == u[id] { assert Lookup(t, id) == Lookup(u, id); }
  }

  lemma RowTwice(row: Option<Settings>, hit: bool, updates: Settings)
    ensures RowAfter(RowAfter(row, hit, updates), hit, updates) == RowAfter(row, hit, updates)
  {
    if hit {
      var r := match row case None => CREATED case Some(r) => r;
      assert r + updates + updates == r + updates;
    }
  }

  lemma UpdatingAgain(products: set<nat>, t: Table, ids: set<nat>, id: nat, updates: Settings)
    ensures Patched(products, UpdatedTable(products, t, ids, updates), id, updates) == UpdatedTable(products, t, ids + {id}, updates)
  {
    var u, v := UpdatedTable(products, t, ids, updates), UpdatedTable(products, t, ids + {id}, updates);
    var p := Patched(products, u, id, updates);
    forall k ensures Lookup(p, k) == Lookup(v, k) {
      UpdatedRow(products, t, ids, updates, k);
      UpdatedRow(products, t, ids + {id}, updates, k);
      if k == id { RowTwice(Lookup(t, k), k in products, updates); }
    }
    SameTable(p, v);
  }

  /** PATCHing a list, in whatever order and however often, depends only on the set of its ids. */
  lemma {:induction false} PatchesDependOnTheSet(products: set<nat>, t: Table, ids: seq<nat>, updates: Settings)
    ensures PatchedAll(products, t, ids, updates) == UpdatedTable(products, t, IdSet(ids), updates)
  {
    if ids != [] {
      var init, last := ids[..|ids| - 1], ids[|ids| - 1];
      PatchesDependOnTheSet(products, t, init, updates);
      UpdatingAgain(products, t, IdSet(init), last, updates);
      assert IdSet(ids) == IdSet(init) + {last};
    } else {
      assert UpdatedTable(products, t, {}, updates) == t;
    }
  }

  /** A new settings row, column by column. */
  function Fresh(f: Field): Value {
    match f
    case PublicCatalog => Flag(false)
    case RentCatalog => Flag(false)
    case LeaseCatalog => Flag(false)
    case LuckyEmiCatalog => Flag(false)
    case SaleCatalog => Flag(false)
    case Featured => Flag(false)
    case SortOrder => Number(100)
    case ShortDescription => Text("")
    case PublicBadge => Text("")
    case MonthlyRent => Amount(None)
    case LeaseMonthlyAmount => Amount(None)
    case SecurityDeposit => Amount(None)
  }

  /** A PATCH of a known product stores the listed values; the other columns stay as they were, and in a
      row created by it every catalogue is off and every amount empty. */
  lemma PatchStoresListedValues(products: set<nat>, t: Table, id: nat, updates: Settings, f: Field)
    requires id in products && (id in t ==> f in t[id])
    ensures var after := Patched(products, t, id, updates);
      && id in after && f in after[id]
      && after[id][f] == (if f in updates then updates[f] else if id in t then t[id][f] else Fresh(f))
      && forall j <- t :: j != id ==> j in after && after[j] == t[j]
  {
  }

  // ----- The views -----

  /** The entries of a dictionary of updates, in its order. */
  function Entries(items: seq<(Field, Value)>): Settings {
    if items == [] then map[] else Entries(items[..|items| - 1])[items[|items| - 1].0 := items[|items| - 1].1]
  }

  datatype Product = Product(id: nat, rentEnabled: bool, leaseEnabled: bool)

  datatype Warning = RentMissing | LeaseMissing | DepositMissing

  /** `brochure_settings_warnings`. */
  function Warnings(p: Product, row: Settings): seq<Warning> {
    var get := (f: Field) => if f in row then row[f] else Amount(None);
    (if get(RentCatalog) == Flag(true) && get(MonthlyRent) == Amount(None) then [RentMissing] else [])
    + (if get(LeaseCatalog) == Flag(true) && get(LeaseMonthlyAmount) == Amount(None) then [LeaseMissing] else [])
    + (if (p.rentEnabled || p.leaseEnabled) && get(SecurityDeposit) == Amount(None) then [DepositMissing] else [])
  }

  /** A product is warned about a catalogue it is shown in without its price, and about a missing deposit. */
  lemma WarningsIff(p: Product, row: Settings)
    requires forall f: Field :: f in row
    ensures RentMissing in Warnings(p, row) <==> row[RentCatalog] == Flag(true) && row[MonthlyRent] == Amount(None)
    ensures LeaseMissing in Warnings(p, row) <==> row[LeaseCatalog] == Flag(true) && row[LeaseMonthlyAmount] == Amount(None)
    ensures DepositMissing in Warnings(p, row) <==> (p.rentEnabled || p.leaseEnabled) && row[SecurityDeposit] == Amount(None)
  {
  }

  /** With each field once, every entry is in the dictionary. */
  lemma {:induction false} EntryIsKept(items: seq<(Field, Value)>, i: nat)
    requires i < |items| && forall j, k :: 0 <= j < k < |items| ==> items[j].0 != items[k].0
    ensures items[i].0 in Entries(items) && Entries(items)[items[i].0] == items[i].1
  {
    if i < |items| - 1 { EntryIsKept(items[..|items| - 1], i); }
  }

  /** The known products of a list, in its order, with a row each from the given table, */
  function Report(products: map<nat, Product>, t: Table, ids: seq<nat>): seq<(nat, Settings)> {
    if ids == [] then [] else
      var init, last := Report(products, t, ids[..|ids| - 1]), ids[|ids| - 1];
      if last in products then init + [(last, GetOrCreate(t, last))] else init
  }

  /** and the warnings about those rows. */
  function WarningReport(products: map<nat, Product>, t: Table, ids: seq<nat>): seq<(nat, seq<Warning>)> {
    if ids == [] then [] else
      var init, last := WarningReport(products, t, ids[..|ids| - 1]), ids[|ids| - 1];
      if last in products then init + [(last, Warnings(products[last], GetOrCreate(t, last)))] else init
  }

  lemma {:induction false} ReportCounts(products: map<nat, Product>, t: Table, ids: seq<nat>)
    requires Distinct(ids)
    ensures |Report(products, t, ids)| == |IdSet(ids) * products.Keys|
  {
    if ids != [] {
      var init, last := ids[..|ids| - 1], ids[|ids| - 1];
      DistinctSplits(ids);
      ReportCounts(products, t, init);
      OneMoreKey(IdSet(init), last, products.Keys);
    }
  }

  lemma OneMoreKey(ids: set<nat>, last: nat, keys: set<nat>)
    requires last !in ids
    ensures |(ids + {last}) * keys| == |ids * keys| + if last in keys then 1 else 0
  {
    if last in keys {
      assert (ids + {last}) * keys == ids * keys + {last};
    } else {
      assert (ids + {last}) * keys == ids * keys;
    }
  }

  lemma DistinctSplits(ids: seq<nat>)
    requires ids != [] && Distinct(ids)
    ensures var init, last := ids[..|ids| - 1], ids[|ids| - 1];
      Distinct(init) && last !in IdSet(init) && IdSet(ids) == IdSet(init) + {last}
  {
    var init, last := ids[..|ids| - 1], ids[|ids| - 1];
    assert ids == init + [last];
  }

  class BrochureStore {
    var products: map<nat, Product>
    var settings: Table

    constructor (products: map<nat, Product>)
      ensures this.products == products && settings == map[]
    {
      this.products, settings := products, map[];
    }

    /** `_apply_settings_updates` on the product's row, created when there is none. */
    method ApplyUpdates(id: nat, items: seq<(Field, Value)>) returns (row: Settings)
      modifies this`settings
      ensures row == GetOrCreate(old(settings), id) + Entries(items)
      ensures settings == old(settings)[id := row]
    {
      row := if id in settings then settings[id] else CREATED;
      ghost var was := row;
      var i := 0;
      while i < |items|
        invariant 0 <= i <= |items| && row == was + Entries(items[..i])
      {
        assert items[..i + 1][..i] == items[..i];
        row := row[items[i].0 := items[i].1];
        i := i + 1;
      }
      assert items[..i] == items;
      settings := settings[id := row];
    }

    /** The single PATCH. */
    method Patch(id: nat, items: seq<(Field, Value)>) returns (found: bool)
      modifies this`settings
      ensures found == (id in products && items != [])
      ensures settings == if items != [] then Patched(products.Keys, old(settings), id, Entries(items)) else old(settings)
    {
      found := id in products && items != [];
      if found {
        var row := ApplyUpdates(id, items);
      }
    }

    /** The bulk update of a valid request. The rows and warnings it answers with are those of the
        final table; it updates what PATCHing every requested id, repeats included, would update. */
    method BulkUpdate(requested: seq<nat>, items: seq<(Field, Value)>)
        returns (rows: seq<(nat, Settings)>, warnings: seq<(nat, seq<Warning>)>, skipped: int)
      requires requested != [] && items != []
      modifies this`settings
      ensures settings == PatchedAll(products.Keys, old(settings), requested, Entries(items))
      ensures rows == Report(products, settings, Dedupe(requested))
      ensures warnings == WarningReport(products, settings, Dedupe(requested))
      ensures |rows| == |IdSet(requested) * products.Keys| && |rows| + skipped == |IdSet(requested)|
    {
      var ids := Dedupe(requested);
      ghost var t, u := settings, Entries(items);
      ghost var final := PatchedAll(products.Keys, t, ids, u);
      rows, warnings := [], [];
      var i := 0;
      while i < |ids|
        invariant 0 <= i <= |ids|
        invariant settings == PatchedAll(products.Keys, t, ids[..i], u)
        invariant rows == Report(products, final, ids[..i])
        invariant warnings == WarningReport(products, final, ids[..i])
      {
        NextId(products, t, requested, i, u);
        if ids[i] in products {
          var row := ApplyUpdates(ids[i], items);
          rows := rows + [(ids[i], row)];
          warnings := warnings + [(ids[i], Warnings(products[ids[i]], row))];
        }
        i := i + 1;
      }
      assert ids[..i] == ids;
      BulkTotals(products, t, requested, u);
      skipped := |ids| - |rows|;
    }
  }

  /** Product `i` of the list: what it adds to the report, and that its updated row is already final. */
  lemma NextId(products: map<nat, Product>, t: Table, requested: seq<nat>, i: nat, u: Settings)
    requires i < |Dedupe(requested)|
    ensures var ids := Dedupe(requested);
      var final, now, id := PatchedAll(products.Keys, t, ids, u), PatchedAll(products.Keys, t, ids[..i], u), ids[i];
      && PatchedAll(products.Keys, t, ids[..i + 1], u) == Patched(products.Keys, now, id, u)
      && (id in products ==> GetOrCreate(now, id) + u == GetOrCreate(final, id))
      && Report(products, final, ids[..i + 1])
         == Report(products, final, ids[..i]) + (if id in products then [(id, GetOrCreate(final, id))] else [])
      && WarningReport(products, final, ids[..i + 1])
         == WarningReport(products, final, ids[..i]) + (if id in products then [(id, Warnings(products[id], GetOrCreate(final, id)))] else [])
  {
    var ids := Dedupe(requested);
    assert ids[..i + 1][..i] == ids[..i];
    DedupeKeepsEachIdOnce(requested);
    if ids[i] in products { RowIsFinal(products.Keys, t, ids, i, u); }
    ReportStep(products, PatchedAll(products.Keys, t, ids, u), ids, i);
  }

  lemma RowIsFinal(products: set<nat>, t: Table, ids: seq<nat>, i: nat, u: Settings)
    requires Distinct(ids) && i < |ids| && ids[i] in products
    ensures GetOrCreate(PatchedAll(products, t, ids[..i], u), ids[i]) + u == GetOrCreate(PatchedAll(products, t, ids, u), ids[i])
  {
    NotYetUpdated(products, t, ids, i, u);
    PatchesDependOnTheSet(products, t, ids, u);
    assert ids[i] in IdSet(ids);
  }

  lemma ReportStep(products: map<nat, Product>, t: Table, ids: seq<nat>, i: nat)
    requires i < |ids|
    ensures Report(products, t, ids[..i + 1])
         == Report(products, t, ids[..i]) + (if ids[i] in products then [(ids[i], GetOrCreate(t, ids[i]))] else [])
    ensures WarningReport(products, t, ids[..i + 1])
         == WarningReport(products, t, ids[..i]) + (if ids[i] in products then [(ids[i], Warnings(products[ids[i]], GetOrCreate(t, ids[i])))] else [])
  {
    assert ids[..i + 1][..i] == ids[..i];
  }

  lemma BulkTotals(products: map<nat, Product>, t: Table, requested: seq<nat>, u: Settings)
    ensures var ids := Dedupe(requested);
      && PatchedAll(products.Keys, t, ids, u) == PatchedAll(products.Keys, t, requested, u)
      && |Report(products, PatchedAll(products.Keys, t, ids, u), ids)| == |IdSet(requested) * products.Keys|
      && |ids| == |IdSet(requested)|
  {
    DedupeKeepsEachIdOnce(requested);
    PatchesDependOnTheSet(products.Keys, t, Dedupe(requested), u);
    PatchesDependOnTheSet(products.Keys, t, requested, u);
    ReportCounts(products, PatchedAll(products.Keys, t, Dedupe(requested), u), Dedupe(requested));
    DistinctCount(Dedupe(requested));
  }

  lemma NotYetUpdated(products: set<nat>, t: Table, ids: seq<nat>, i: nat, updates: Settings)
    requires Distinct(ids) && i < |ids|
    ensures GetOrCreate(PatchedAll(products, t, ids[..i], updates), ids[i]) == GetOrCreate(t, ids[i])
  {
    PatchesDependOnTheSet(products, t, ids[..i], updates);
    assert ids[i] !in ids[..i];
  }

  // ----- The bulk update as an operation -----

  /** The table after a bulk update, as `BulkUpdate` leaves it. */
  function Bulk(products: set<nat>, t: Table, requested: seq<nat>, updates: Settings): Table {
    PatchedAll(products, t, Dedupe(requested), updates)
  }

  /** A bulk update is the PATCHes of the requested ids; any request with the same ids does the same;
      doing it twice is doing it once; rows of other products are untouched. */
  lemma BulkRefinesPatches(products: set<nat>, t: Table, requested: seq<nat>, other: seq<nat>, updates: Settings)
    requires IdSet(requested) == IdSet(other)
    ensures var b := Bulk(products, t, requested, updates);
      && b == PatchedAll(products, t, requested, updates) == Bulk(products, t, other, updates)
      && Bulk(products, b, requested, updates) == b
      && b.Keys == t.Keys + IdSet(requested) * products
      && forall id <- t :: id !in requested || id !in products ==> b[id] == t[id]
  {
    DedupeKeepsEachIdOnce(requested);
    DedupeKeepsEachIdOnce(other);
    var b := Bulk(products, t, requested, updates);
    PatchesDependOnTheSet(products, t, Dedupe(requested), updates);
    PatchesDependOnTheSet(products, t, requested, updates);
    PatchesDependOnTheSet(products, t, Dedupe(other), updates);
    PatchesDependOnTheSet(products, b, Dedupe(requested), updates);
    Twice(products, t, IdSet(requested), updates);
  }

  lemma Twice(products: set<nat>, t: Table, ids: set<nat>, updates: Settings)
    ensures var b := UpdatedTable(products, t, ids, updates); UpdatedTable(products, b, ids, updates) == b
  {
    var b := UpdatedTable(products, t, ids, updates);
    forall id ensures Lookup(UpdatedTable(products, b, ids, updates), id) == Lookup(b, id) {
      UpdatedRow(products, t, ids, updates, id);
      UpdatedRow(products, b, ids, updates, id);
      RowTwice(Lookup(t, id), id in ids && id in products, updates);
    }
    SameTable(UpdatedTable(products, b, ids, updates), b);
  }

  /** Bulk updates over disjoint ids, or of disjoint fields, commute. */
  lemma BulksCommute(products: set<nat>, t: Table, a: seq<nat>, u: Settings, b: seq<nat>, v: Settings)
    requires IdSet(a) * IdSet(b) * products == {} || u.Keys * v.Keys == {}
    ensures Bulk(products, Bulk(products, t, a, u), b, v) == Bulk(products, Bulk(products, t, b, v), a, u)
  {
    DedupeKeepsEachIdOnce(a);
    DedupeKeepsEachIdOnce(b);
    var x, y := Bulk(products, t, a, u), Bulk(products, t, b, v);
    PatchesDependOnTheSet(products, t, Dedupe(a), u);
    PatchesDependOnTheSet(products, t, Dedupe(b), v);
    PatchesDependOnTheSet(products, x, Dedupe(b), v);
    PatchesDependOnTheSet(products, y, Dedupe(a), u);
    UpdatesCommute(products, t, IdSet(a), u, IdSet(b), v);
  }

  lemma RowsCommute(row: Option<Settings>, hitU: bool, u: Settings, hitV: bool, v: Settings)
    requires hitU && hitV ==> u.Keys * v.Keys == {}
    ensures RowAfter(RowAfter(row, hitU, u), hitV, v) == RowAfter(RowAfter(row, hitV, v), hitU, u)
  {
    if hitU && hitV {
      var r := match row case None => CREATED case Some(r) => r;
      forall f: Field ensures f in u && f in v ==> f in u.Keys * v.Keys {}
      assert r + u + v == r + v + u;
    }
  }

  lemma UpdatesCommute(products: set<nat>, t: Table, a: set<nat>, u: Settings, b: set<nat>, v: Settings)
    requires a * b * products == {} || u.Keys * v.Keys == {}
    ensures UpdatedTable(products, UpdatedTable(products, t, a, u), b, v)
         == UpdatedTable(products, UpdatedTable(products, t, b, v), a, u)
  {
    var x, y := UpdatedTable(products, t, a, u), UpdatedTable(products, t, b, v);
    forall id ensures Lookup(UpdatedTable(products, x, b, v), id) == Lookup(UpdatedTable(products, y, a, u), id) {
      UpdatedRow(products, t, a, u, id);
      UpdatedRow(products, t, b, v, id);
      UpdatedRow(products, x, b, v, id);
      UpdatedRow(products, y, a, u, id);
      if id in a && id in b && id in products { assert id in a * b * products; }
      RowsCommute(Lookup(t, id), id in a && id in products, u, id in b && id in products, v);
    }
    SameTable(UpdatedTable(products, x, b, v), UpdatedTable(products, y, a, u));
  }
}
