/** The operational-data purge: repeated passes of whole-table deletes, each of which either
    removes a table together with its CASCADE dependents or fails on a PROTECT reference,
    until one pass deletes nothing.

    A database state is the set of rows still present. Deleting never changes the foreign-key
    value of a row that stays, except by clearing a SET_NULL reference to a deleted row, so the
    references are a constant of the run: one of them is live while both its ends are present.
 */
module Purge {

  /** A table. The script selects tables by class name only, whatever app they come from. */
  datatype Model = Model(app: string, name: string)

  datatype Row = Row(model: Model, id: nat)

  datatype OnDelete = Cascade | Protect | SetNull

  datatype Ref = Ref(src: Row, dst: Row, onDelete: OnDelete)

  /** Referential integrity: a row is never left with a CASCADE reference to a missing row. */
  ghost predicate Intact(refs: set<Ref>, rows: set<Row>) {
    forall f <- refs :: f.onDelete.Cascade? && f.src in rows ==> f.dst in rows
  }

  function RowsOf(rows: set<Row>, m: Model): set<Row> {
    set r <- rows | r.model == m
  }

  function Dependents(refs: set<Ref>, rows: set<Row>, s: set<Row>): set<Row> {
    set f <- refs | f.onDelete.Cascade? && f.dst in s && f.src in rows :: f.src
  }

  /** What the collector gathers for a delete of `s`: `s` and everything that cascades from it. */
  function Closure(refs: set<Ref>, rows: set<Row>, s: set<Row>): (c: set<Row>)
    requires s <= rows
    ensures s <= c <= rows
    ensures Dependents(refs, rows, c) <= c
    decreases rows - s
  {
    var more := Dependents(refs, rows, s) - s;
    if more == {} then s else
      assert s + more > s;
      Closure(refs, rows, s + more)
  }

  function Doomed(refs: set<Ref>, rows: set<Row>, m: Model): (c: set<Row>)
    ensures RowsOf(rows, m) <= c <= rows
  {
    Closure(refs, rows, RowsOf(rows, m))
  }

  /** A delete fails when any present row PROTECT-references a gathered row, even if that
      row is itself gathered. */
  predicate Blocked(refs: set<Ref>, rows: set<Row>, m: Model) {
    exists f <- refs :: f.onDelete.Protect? && f.src in rows && f.dst in Doomed(refs, rows, m)
  }

  function Delete(refs: set<Ref>, rows: set<Row>, m: Model): set<Row> {
    if Blocked(refs, rows, m) then rows else rows - Doomed(refs, rows, m)
  }

  /** The rows left after attempting the deletes of `order` one after another. */
  function Run(refs: set<Ref>, rows: set<Row>, order: seq<Model>): set<Row> {
    if order == [] then rows else Delete(refs, Run(refs, rows, order[..|order| - 1]), order[|order| - 1])
  }

  /** No selected table can lose another row. */
  ghost predicate Stuck(refs: set<Ref>, rows: set<Row>, models: seq<Model>) {
    forall m <- models :: RowsOf(rows, m) == {} || Blocked(refs, rows, m)
  }

  ghost predicate AllEmpty(rows: set<Row>, models: seq<Model>) {
    forall m <- models :: RowsOf(rows, m) == {}
  }

  /** A ranking of the selected tables that justifies every PROTECT reference into what the
      delete of `m` would gather: its source goes with a selected table of lower rank. */
  ghost predicate Ranked(refs: set<Ref>, rows: set<Row>, models: seq<Model>, rank: Model -> nat) {
    forall m <- models, f <- refs ::
      f.onDelete.Protect? && f.src in rows && f.dst in Doomed(refs, rows, m)
      ==> exists u <- models :: rank(u) < rank(m) && f.src in Doomed(refs, rows, u)
  }

  // ----- The closure -----

  /** The gathered set is the least one: any set closed under CASCADE that holds the seeds holds it. */
  lemma {:induction false} ClosureLeast(refs: set<Ref>, rows: set<Row>, s: set<Row>, x: set<Row>)
    requires s <= rows && s <= x && Dependents(refs, rows, x) <= x
    ensures Closure(refs, rows, s) <= x
    decreases rows - s
  {
    var more := Dependents(refs, rows, s) - s;
    if more != {} {
      assert s + more > s;
      assert Dependents(refs, rows, s) <= Dependents(refs, rows, x);
      ClosureLeast(refs, rows, s + more, x);
    }
  }

  /** Fewer rows, smaller gathered set. */
  lemma DoomedShrinks(refs: set<Ref>, rows: set<Row>, less: set<Row>, m: Model)
    requires less <= rows
    ensures Doomed(refs, less, m) <= Doomed(refs, rows, m)
  {
    var x := Doomed(refs, rows, m);
    assert Dependents(refs, less, x) <= Dependents(refs, rows, x);
    ClosureLeast(refs, less, RowsOf(less, m), x);
  }

  /** A row outlives every table it cascades from only if that table outlives it. */
  lemma DoomedGoesWithTable(refs: set<Ref>, rows: set<Row>, left: set<Row>, m: Model)
    requires left <= rows && Intact(refs, left) && RowsOf(left, m) == {}
    ensures Doomed(refs, rows, m) !! left
  {
    var x := rows - left;
    forall r | r in Dependents(refs, rows, x) ensures r in x {
      var f :| f in refs && f.onDelete.Cascade? && f.dst in x && f.src == r;
      assert r in left ==> f.dst in left;
    }
    forall r | r in RowsOf(rows, m) ensures r in x {
      assert r in left ==> r in RowsOf(left, m);
    }
    ClosureLeast(refs, rows, RowsOf(rows, m), x);
  }

  /** Deleting rows never blocks a table that was free. */
  lemma BlockedShrinks(refs: set<Ref>, rows: set<Row>, less: set<Row>, m: Model)
    requires less <= rows && Blocked(refs, less, m)
    ensures Blocked(refs, rows, m)
  {
    DoomedShrinks(refs, rows, less, m);
  }

  // ----- Single deletes and runs -----

  lemma DeleteFacts(refs: set<Ref>, rows: set<Row>, m: Model)
    requires Intact(refs, rows)
    ensures Delete(refs, rows, m) <= rows
    ensures Intact(refs, Delete(refs, rows, m))
    ensures Blocked(refs, rows, m) || RowsOf(Delete(refs, rows, m), m) == {}
    ensures |rows - Delete(refs, rows, m)| == |rows| - |Delete(refs, rows, m)|
  {
    var c := Doomed(refs, rows, m);
    assert Dependents(refs, rows, c) <= c;
    forall f | f in refs && f.onDelete.Cascade? && f.src in rows - c ensures f.dst in rows - c {
      assert f.dst in c ==> f.src in Dependents(refs, rows, c);
    }
    CardinalityOfPart(rows, Delete(refs, rows, m));
  }

  lemma CardinalityOfPart(rows: set<Row>, part: set<Row>)
    requires part <= rows
    ensures |rows - part| == |rows| - |part|
    ensures |part| == |rows| ==> part == rows
  {
    assert rows == part + (rows - part);
    if |part| == |rows| { assert rows - part == {}; }
  }

  lemma {:induction false} RunFacts(refs: set<Ref>, rows: set<Row>, order: seq<Model>)
    requires Intact(refs, rows)
    ensures Run(refs, rows, order) <= rows
    ensures Intact(refs, Run(refs, rows, order))
  {
    if order != [] {
      RunFacts(refs, rows, order[..|order| - 1]);
      DeleteFacts(refs, Run(refs, rows, order[..|order| - 1]), order[|order| - 1]);
    }
  }

  /** One more step of a run. */
  lemma RunStep(refs: set<Ref>, rows: set<Row>, order: seq<Model>, i: nat)
    requires i < |order|
    ensures Run(refs, rows, order[..i + 1]) == Delete(refs, Run(refs, rows, order[..i]), order[i])
  {
    assert order[..i + 1][..i] == order[..i];
  }

  lemma {:induction false} RunAppend(refs: set<Ref>, rows: set<Row>, a: seq<Model>, b: seq<Model>)
    ensures Run(refs, rows, a + b) == Run(refs, Run(refs, rows, a), b)
  {
    if b == [] {
      assert a + b == a;
    } else {
      var init := b[..|b| - 1];
      assert (a + b)[..|a + b| - 1] == a + init;
      RunAppend(refs, rows, a, init);
    }
  }

  /** What survives one run survives every prefix of it. */
  lemma RunPrefix(refs: set<Ref>, rows: set<Row>, order: seq<Model>, i: nat)
    requires Intact(refs, rows) && i <= |order|
    ensures Run(refs, rows, order) <= Run(refs, rows, order[..i])
    ensures Intact(refs, Run(refs, rows, order[..i]))
  {
    assert order == order[..i] + order[i..];
    RunAppend(refs, rows, order[..i], order[i..]);
    RunFacts(refs, rows, order[..i]);
    RunFacts(refs, Run(refs, rows, order[..i]), order[i..]);
  }

  // ----- Confluence: the order of the tables does not matter -----

  /** A stuck state lies inside every state reachable by deleting selected tables. */
  lemma {:induction false} StuckInsideRun(refs: set<Ref>, rows: set<Row>, models: seq<Model>, left: set<Row>, order: seq<Model>)
    requires Intact(refs, rows) && Intact(refs, left) && left <= rows && Stuck(refs, left, models)
    requires forall m <- order :: m in models
    ensures left <= Run(refs, rows, order)
  {
    if order != [] {
      var init, m := order[..|order| - 1], order[|order| - 1];
      StuckInsideRun(refs, rows, models, left, init);
      RunFacts(refs, rows, init);
      var now := Run(refs, rows, init);
      assert m in models;
      if !Blocked(refs, now, m) {
        if Blocked(refs, left, m) { BlockedShrinks(refs, now, left, m); }
        DoomedGoesWithTable(refs, now, left, m);
      }
    }
  }

  /** Two purges of the same selection that have both come to rest leave the same rows,
      whatever the order in which the tables were visited. */
  lemma PurgeIsOrderIndependent(refs: set<Ref>, rows: set<Row>, models: seq<Model>, a: seq<Model>, b: seq<Model>)
    requires Intact(refs, rows)
    requires forall m <- a + b :: m in models
    requires Stuck(refs, Run(refs, rows, a), models) && Stuck(refs, Run(refs, rows, b), models)
    ensures Run(refs, rows, a) == Run(refs, rows, b)
  {
    forall m | m in a ensures m in models { assert m in a + b; }
    forall m | m in b ensures m in models { assert m in a + b; }
    RunFacts(refs, rows, a);
    RunFacts(refs, rows, b);
    StuckInsideRun(refs, rows, models, Run(refs, rows, a), b);
    StuckInsideRun(refs, rows, models, Run(refs, rows, b), a);
  }

  /** Setup data is preserved: a row outside what the selected tables gather at the start survives. */
  lemma {:induction false} PurgeSparesTheRest(refs: set<Ref>, rows: set<Row>, order: seq<Model>, r: Row)
    requires Intact(refs, rows) && r in rows
    requires forall m <- order :: r !in Doomed(refs, rows, m)
    ensures r in Run(refs, rows, order)
  {
    if order != [] {
      var init, m := order[..|order| - 1], order[|order| - 1];
      PurgeSparesTheRest(refs, rows, init, r);
      RunFacts(refs, rows, init);
      DoomedShrinks(refs, rows, Run(refs, rows, init), m);
      assert m in order;
    }
  }

  // ----- Completeness: everything goes exactly when the blocking references can be ranked -----

  /** In a state where every lower-ranked table is already empty, a ranked table is free. */
  lemma RankedTableIsFree(refs: set<Ref>, rows: set<Row>, models: seq<Model>, rank: Model -> nat, now: set<Row>, m: Model)
    requires Ranked(refs, rows, models, rank) && now <= rows && Intact(refs, now) && m in models
    requires forall u <- models :: rank(u) < rank(m) ==> RowsOf(now, u) == {}
    ensures !Blocked(refs, now, m)
  {
    if Blocked(refs, now, m) {
      var f :| f in refs && f.onDelete.Protect? && f.src in now && f.dst in Doomed(refs, now, m);
      DoomedShrinks(refs, rows, now, m);
      var u :| u in models && rank(u) < rank(m) && f.src in Doomed(refs, rows, u);
      DoomedGoesWithTable(refs, rows, now, u);
      assert false;
    }
  }

  /** A table once empty stays empty. */
  lemma EmptyStays(refs: set<Ref>, rows: set<Row>, order: seq<Model>, i: nat, m: Model)
    requires Intact(refs, rows) && i <= |order| && RowsOf(Run(refs, rows, order[..i]), m) == {}
    ensures RowsOf(Run(refs, rows, order), m) == {}
  {
    RunPrefix(refs, rows, order, i);
    assert RowsOf(Run(refs, rows, order), m) <= RowsOf(Run(refs, rows, order[..i]), m);
  }

  /** If the blocking references are ranked, a state at rest has no selected row left. */
  lemma {:induction false} RankedEmpties(refs: set<Ref>, rows: set<Row>, models: seq<Model>, rank: Model -> nat, left: set<Row>, m: Model)
    requires Ranked(refs, rows, models, rank) && left <= rows && Intact(refs, left)
    requires Stuck(refs, left, models) && m in models
    ensures RowsOf(left, m) == {}
    decreases rank(m)
  {
    forall u | u in models && rank(u) < rank(m) ensures RowsOf(left, u) == {} {
      RankedEmpties(refs, rows, models, rank, left, u);
    }
    RankedTableIsFree(refs, rows, models, rank, left, m);
  }

  /** The step of a run at which a row disappears, and the table whose delete took it. */
  lemma {:induction false} WhenRowGoes(refs: set<Ref>, rows: set<Row>, order: seq<Model>, r: Row, n: nat) returns (i: nat)
    requires Intact(refs, rows) && r in rows && n <= |order| && r !in Run(refs, rows, order[..n])
    ensures i < n && r in Run(refs, rows, order[..i])
    ensures !Blocked(refs, Run(refs, rows, order[..i]), order[i])
    ensures r in Doomed(refs, Run(refs, rows, order[..i]), order[i])
    ensures r in Doomed(refs, rows, order[i])
    decreases n
  {
    assert order[..0] == [];
    assert n > 0;
    RunStep(refs, rows, order, n - 1);
    if r in Run(refs, rows, order[..n - 1]) {
      i := n - 1;
      RunFacts(refs, rows, order[..i]);
      DoomedShrinks(refs, rows, Run(refs, rows, order[..i]), order[i]);
    } else {
      i := WhenRowGoes(refs, rows, order, r, n - 1);
    }
  }

  /** The first step of a run at which a table is empty, or the length of the run. */
  ghost function FirstEmpty(refs: set<Ref>, rows: set<Row>, order: seq<Model>, m: Model, i: nat): (k: nat)
    requires i <= |order|
    ensures i <= k <= |order|
    ensures k < |order| ==> RowsOf(Run(refs, rows, order[..k]), m) == {}
    ensures forall j :: i <= j < k ==> RowsOf(Run(refs, rows, order[..j]), m) != {}
    decreases |order| - i
  {
    if i == |order| || RowsOf(Run(refs, rows, order[..i]), m) == {} then i
    else FirstEmpty(refs, rows, order, m, i + 1)
  }

  /** A run that empties every selected table yields a ranking: the step at which each table empties. */
  lemma EmptyingRanks(refs: set<Ref>, rows: set<Row>, models: seq<Model>, order: seq<Model>, rank: Model -> nat)
    requires Intact(refs, rows) && (forall m <- order :: m in models)
    requires AllEmpty(Run(refs, rows, order), models)
    requires forall m :: rank(m) == FirstEmpty(refs, rows, order, m, 0)
    ensures Ranked(refs, rows, models, rank)
  {
    forall m, f | m in models && f in refs && f.onDelete.Protect? && f.src in rows && f.dst in Doomed(refs, rows, m)
      ensures exists u <- models :: rank(u) < rank(m) && f.src in Doomed(refs, rows, u)
    {
      var k := rank(m);
      assert order[..|order|] == order;
      assert RowsOf(Run(refs, rows, order[..k]), m) == {};
      RunFacts(refs, rows, order[..k]);
      DoomedGoesWithTable(refs, rows, Run(refs, rows, order[..k]), m);
      var j := WhenRowGoes(refs, rows, order, f.dst, k);
      assert f.src !in Run(refs, rows, order[..j]);
      var i := WhenRowGoes(refs, rows, order, f.src, j);
      var u := order[i];
      RunStep(refs, rows, order, i);
      RunFacts(refs, rows, order[..i]);
      DeleteFacts(refs, Run(refs, rows, order[..i]), u);
      assert RowsOf(Run(refs, rows, order[..i + 1]), u) == {};
      assert u in models && rank(u) <= i + 1;
    }
  }

  /** The purge empties its whole selection if and only if the blocking references can be ranked. */
  lemma PurgeEmptiesIffRanked(refs: set<Ref>, rows: set<Row>, models: seq<Model>, order: seq<Model>)
    requires Intact(refs, rows) && (forall m <- order :: m in models)
    requires Stuck(refs, Run(refs, rows, order), models)
    ensures AllEmpty(Run(refs, rows, order), models) <==> exists rank: Model -> nat :: Ranked(refs, rows, models, rank)
  {
    RunFacts(refs, rows, order);
    if AllEmpty(Run(refs, rows, order), models) {
      var rank: Model -> nat := m => FirstEmpty(refs, rows, order, m, 0);
      EmptyingRanks(refs, rows, models, order, rank);
    }
    if exists rank: Model -> nat :: Ranked(refs, rows, models, rank) {
      var rank: Model -> nat :| Ranked(refs, rows, models, rank);
      forall m | m in models ensures RowsOf(Run(refs, rows, order), m) == {} {
        RankedEmpties(refs, rows, models, rank, Run(refs, rows, order), m);
      }
    }
  }

  // ----- Passes -----

  /** The rows left after `n` passes over `models`. */
  function Passes(refs: set<Ref>, rows: set<Row>, models: seq<Model>, n: nat): set<Row> {
    if n == 0 then rows else Run(refs, Passes(refs, rows, models, n - 1), models)
  }

  lemma {:induction false} PassesFacts(refs: set<Ref>, rows: set<Row>, models: seq<Model>, n: nat)
    requires Intact(refs, rows)
    ensures Passes(refs, rows, models, n) <= rows && Intact(refs, Passes(refs, rows, models, n))
  {
    if n > 0 {
      PassesFacts(refs, rows, models, n - 1);
      RunFacts(refs, Passes(refs, rows, models, n - 1), models);
    }
  }

  /** `n` passes are one long run. */
  lemma {:induction false} PassesAreOneRun(refs: set<Ref>, rows: set<Row>, models: seq<Model>, n: nat) returns (order: seq<Model>)
    ensures Passes(refs, rows, models, n) == Run(refs, rows, order)
    ensures forall m <- order :: m in models
  {
    if n == 0 {
      order := [];
    } else {
      var before := PassesAreOneRun(refs, rows, models, n - 1);
      RunAppend(refs, rows, before, models);
      order := before + models;
    }
  }

  /** A delete attempted inside a run either failed or left its table empty for good. */
  lemma AttemptSettles(refs: set<Ref>, rows: set<Row>, models: seq<Model>, i: nat)
    requires Intact(refs, rows) && i < |models|
    ensures Run(refs, rows, models) <= Run(refs, rows, models[..i]) <= rows
    ensures Intact(refs, Run(refs, rows, models[..i]))
    ensures Blocked(refs, Run(refs, rows, models[..i]), models[i]) || RowsOf(Run(refs, rows, models), models[i]) == {}
  {
    var now := Run(refs, rows, models[..i]);
    RunPrefix(refs, rows, models, i);
    RunFacts(refs, rows, models[..i]);
    RunStep(refs, rows, models, i);
    DeleteFacts(refs, now, models[i]);
    if !Blocked(refs, now, models[i]) {
      EmptyStays(refs, rows, models, i + 1, models[i]);
    }
  }

  /** A pass that changes nothing leaves a state at rest. */
  lemma IdlePassIsStuck(refs: set<Ref>, rows: set<Row>, models: seq<Model>)
    requires Intact(refs, rows) && Run(refs, rows, models) == rows
    ensures Stuck(refs, rows, models)
  {
    forall i | 0 <= i < |models| ensures RowsOf(rows, models[i]) == {} || Blocked(refs, rows, models[i]) {
      AttemptSettles(refs, rows, models, i);
      assert Run(refs, rows, models[..i]) == rows;
    }
  }

  /** A pass empties a ranked table once all tables of lower rank are empty before it. */
  lemma PassEmptiesNextRank(refs: set<Ref>, rows: set<Row>, models: seq<Model>, rank: Model -> nat, before: set<Row>, i: nat)
    requires Ranked(refs, rows, models, rank) && before <= rows && Intact(refs, before) && i < |models|
    requires forall u <- models :: rank(u) < rank(models[i]) ==> RowsOf(before, u) == {}
    ensures RowsOf(Run(refs, before, models), models[i]) == {}
  {
    AttemptSettles(refs, before, models, i);
    var now := Run(refs, before, models[..i]);
    forall u | u in models && rank(u) < rank(models[i]) ensures RowsOf(now, u) == {} {
      assert RowsOf(now, u) <= RowsOf(before, u);
    }
    RankedTableIsFree(refs, rows, models, rank, now, models[i]);
  }

  /** With a ranking, the tables of rank below `n` are empty after `n` passes. */
  lemma {:induction false} PassesClimbRanks(refs: set<Ref>, rows: set<Row>, models: seq<Model>, rank: Model -> nat, n: nat, i: nat)
    requires Intact(refs, rows) && Ranked(refs, rows, models, rank) && i < |models| && rank(models[i]) < n
    ensures RowsOf(Passes(refs, rows, models, n), models[i]) == {}
    decreases n
  {
    var before := Passes(refs, rows, models, n - 1);
    PassesFacts(refs, rows, models, n - 1);
    forall j | 0 <= j < |models| && rank(models[j]) < rank(models[i]) ensures RowsOf(before, models[j]) == {} {
      PassesClimbRanks(refs, rows, models, rank, n - 1, j);
    }
    PassEmptiesNextRank(refs, rows, models, rank, before, i);
  }

  /** If the ranks of the selected tables stay at or below `top`, the purge stops after at
      most `top + 2` passes: `top + 1` to empty the tables and one to notice. */
  lemma PassBound(refs: set<Ref>, rows: set<Row>, models: seq<Model>, rank: Model -> nat, top: nat, passes: nat)
    requires Intact(refs, rows) && Ranked(refs, rows, models, rank)
    requires forall m <- models :: rank(m) <= top
    requires forall i :: 0 < i < passes ==> Passes(refs, rows, models, i) != Passes(refs, rows, models, i - 1)
    ensures passes <= top + 2
  {
    if passes > top + 2 {
      var empty := Passes(refs, rows, models, top + 1);
      forall i | 0 <= i < |models| ensures RowsOf(empty, models[i]) == {} {
        PassesClimbRanks(refs, rows, models, rank, top + 1, i);
      }
      NothingSelectedNothingDeleted(refs, empty, models);
      assert Passes(refs, rows, models, top + 2) == empty;
      assert false;
    }
  }

  ghost predicate RankedUpTo(refs: set<Ref>, rows: set<Row>, models: seq<Model>, rank: Model -> nat, top: nat) {
    Ranked(refs, rows, models, rank) && forall m <- models :: rank(m) <= top
  }

  /** The purge as a whole: with ranks up to `top`, it comes to rest within `top + 2` passes and leaves
      every selected table empty. */
  lemma RankedPurgeEmpties(refs: set<Ref>, rows: set<Row>, models: seq<Model>, rank: Model -> nat, top: nat, passes: nat)
    requires Intact(refs, rows) && RankedUpTo(refs, rows, models, rank, top)
    requires Stuck(refs, Passes(refs, rows, models, passes), models)
    requires forall i :: 0 < i < passes ==> Passes(refs, rows, models, i) != Passes(refs, rows, models, i - 1)
    ensures AllEmpty(Passes(refs, rows, models, passes), models) && passes <= top + 2
  {
    PassBound(refs, rows, models, rank, top, passes);
    var order := PassesAreOneRun(refs, rows, models, passes);
    PurgeEmptiesIffRanked(refs, rows, models, order);
  }

  lemma {:induction false} NothingSelectedNothingDeleted(refs: set<Ref>, rows: set<Row>, models: seq<Model>)
    requires AllEmpty(rows, models)
    ensures Run(refs, rows, models) == rows
  {
    if models != [] {
      var init, m := models[..|models| - 1], models[|models| - 1];
      forall u | u in init ensures RowsOf(rows, u) == {} { assert u in models; }
      NothingSelectedNothingDeleted(refs, rows, init);
      assert m in models;
      ClosureLeast(refs, rows, {}, {});
    }
  }

  // ----- The script -----

  /** The tables the script visits: all models in registry order, filtered by class name. */
  function Selected(all: seq<Model>, names: set<string>): seq<Model> {
    if all == [] then [] else
      var last := all[|all| - 1];
      Selected(all[..|all| - 1], names) + (if last.name in names then [last] else [])
  }

  /** Exactly the models whose class name is listed, whatever their app. */
  lemma {:induction false} SelectedIff(all: seq<Model>, names: set<string>, m: Model)
    ensures m in Selected(all, names) <==> m in all && m.name in names
  {
    if all != [] {
      SelectedIff(all[..|all| - 1], names, m);
      assert all == all[..|all| - 1] + [all[|all| - 1]];
    }
  }

  /** The rows left once a pass has looked at the first `i` models. */
  function Midway(refs: set<Ref>, rows: set<Row>, all: seq<Model>, i: nat, names: set<string>): set<Row>
    requires i <= |all|
  {
    Run(refs, rows, Selected(all[..i], names))
  }

  /** One iteration of the loop over the models attempts at most one delete. */
  lemma PassStep(refs: set<Ref>, rows: set<Row>, all: seq<Model>, i: nat, names: set<string>, now: set<Row>)
    requires i < |all| && now == Midway(refs, rows, all, i, names)
    ensures all[i].name in names ==> Midway(refs, rows, all, i + 1, names) == Delete(refs, now, all[i])
    ensures all[i].name !in names ==> Midway(refs, rows, all, i + 1, names) == now
  {
    assert all[..i + 1][..i] == all[..i];
    var sofar := Selected(all[..i], names);
    if all[i].name in names {
      RunAppend(refs, rows, sofar, [all[i]]);
      assert [all[i]][..0] == [];
    } else {
      assert sofar + [] == sofar;
    }
  }

  lemma PassEnds(refs: set<Ref>, rows: set<Row>, all: seq<Model>, names: set<string>)
    ensures Midway(refs, rows, all, 0, names) == rows
    ensures Midway(refs, rows, all, |all|, names) == Run(refs, rows, Selected(all, names))
  {
    assert all[..|all|] == all;
  }

  class Database {
    const refs: set<Ref>
    var rows: set<Row>

    constructor (refs: set<Ref>, rows: set<Row>)
      ensures this.refs == refs && this.rows == rows
    {
      this.refs := refs;
      this.rows := rows;
    }

    /** `model.objects.all().delete()`: the number of rows removed, or a ProtectedError and no change. */
    method DeleteAll(m: Model) returns (failed: bool, count: nat)
      requires Intact(refs, rows)
      modifies this
      ensures failed == Blocked(refs, old(rows), m)
      ensures rows == Delete(refs, old(rows), m) && Intact(refs, rows) && rows <= old(rows)
      ensures failed ==> rows == old(rows)
      ensures count == |old(rows)| - |rows|
    {
      DeleteFacts(refs, rows, m);
      failed := Blocked(refs, rows, m);
      count := 0;
      if !failed {
        var gathered := Doomed(refs, rows, m);
        CardinalityOfPart(rows, gathered);
        rows := rows - gathered;
        count := |gathered|;
      }
    }

    /** The pass loop. Returns the reported total and the number of the last pass. */
    method Purge(allModels: seq<Model>, names: set<string>) returns (deleted: nat, passes: nat)
      requires Intact(refs, rows)
      modifies this
      ensures deleted == |old(rows)| - |rows|
      ensures Intact(refs, rows) && rows <= old(rows)
      ensures Stuck(refs, rows, Selected(allModels, names))
      ensures passes > 0 && rows == Passes(refs, old(rows), Selected(allModels, names), passes)
      ensures forall i :: 0 < i < passes ==>
        Passes(refs, old(rows), Selected(allModels, names), i) != Passes(refs, old(rows), Selected(allModels, names), i - 1)
      ensures forall rank: Model -> nat, top: nat :: RankedUpTo(refs, old(rows), Selected(allModels, names), rank, top) ==>
        AllEmpty(rows, Selected(allModels, names)) && passes <= top + 2
    {
      ghost var start, models := rows, Selected(allModels, names);
      deleted, passes := 0, 1;
      while true
        invariant Intact(refs, rows) && rows <= start && deleted == |start| - |rows|
        invariant passes > 0 && rows == Passes(refs, start, models, passes - 1)
        invariant forall i :: 0 < i < passes ==> Passes(refs, start, models, i) != Passes(refs, start, models, i - 1)
        decreases |rows|
      {
        ghost var before := rows;
        var passDeleted := OnePass(allModels, names);
        deleted := deleted + passDeleted;
        if passDeleted == 0 {
          CardinalityOfPart(before, rows);
          IdlePassIsStuck(refs, rows, models);
          break;
        }
        passes := passes + 1;
      }
      forall rank: Model -> nat, top: nat | RankedUpTo(refs, start, models, rank, top)
        ensures AllEmpty(rows, models) && passes <= top + 2
      {
        RankedPurgeEmpties(refs, start, models, rank, top, passes);
      }
    }

    /** The body of the pass loop: one attempt per selected table, failures ignored. */
    method OnePass(allModels: seq<Model>, names: set<string>) returns (passDeleted: nat)
      requires Intact(refs, rows)
      modifies this
      ensures Intact(refs, rows) && rows <= old(rows)
      ensures rows == Run(refs, old(rows), Selected(allModels, names))
      ensures passDeleted == |old(rows)| - |rows|
    {
      ghost var start := rows;
      passDeleted := 0;
      var i := 0;
      PassEnds(refs, start, allModels, names);
      while i < |allModels|
        invariant 0 <= i <= |allModels|
        invariant rows == Midway(refs, start, allModels, i, names)
        invariant Intact(refs, rows) && rows <= start
        invariant passDeleted == |start| - |rows|
      {
        PassStep(refs, start, allModels, i, names, rows);
        if allModels[i].name in names {
          var failed, count := DeleteAll(allModels[i]);
          if !failed && count > 0 {
            passDeleted := passDeleted + count;
          }
        }
        i := i + 1;
      }
    }
  }
}
