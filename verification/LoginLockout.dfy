/** The login attempt counter of `CustomTokenSerializer.validate`: a cache entry per identifier that
    counts failed credential checks, expires 900 seconds after the last one, and refuses attempts
    while it stands at five. Times are integer seconds.
 */
module LoginLockout {

  const MAX_ATTEMPTS := 5
  const LOCKOUT_SECONDS := 900

  datatype Entry = Entry(count: nat, expiry: int)

  /** One call: the normalised identifier, when the counter is first read, when the outcome of the
      credential check is recorded, and that outcome. */
  datatype Attempt = Attempt(identifier: string, checked: int, recorded: int, credentialsOk: bool)

  datatype Outcome = Refused | Failed | Passed

  type Cache = map<string, Entry>

  /** `cache.get(key, 0)`: an entry is gone once its time is up. */
  function Get(cache: Cache, id: string, now: int): nat {
    if id in cache && now < cache[id].expiry then cache[id].count else 0
  }

  function OutcomeOf(cache: Cache, a: Attempt): Outcome {
    if a.identifier != "" && Get(cache, a.identifier, a.checked) >= MAX_ATTEMPTS then Refused
    else if a.credentialsOk then Passed else Failed
  }

  /** What recording an outcome makes of the cache when nothing comes between reading and writing. */
  function Recorded(cache: Cache, id: string, now: int, ok: bool): Cache {
    if id == "" then cache
    else if ok then cache - {id}
    else cache[id := Entry(Get(cache, id, now) + 1, now + LOCKOUT_SECONDS)]
  }

  function AfterAttempt(cache: Cache, a: Attempt): Cache {
    if OutcomeOf(cache, a) == Refused then cache else Recorded(cache, a.identifier, a.recorded, a.credentialsOk)
  }

  class LoginGuard {
    var cache: Cache

    constructor ()
      ensures cache == map[]
    {
      cache := map[];
    }

    /** The first half of `validate`: whether the attempt may go on to its credential check. */
    method Check(id: string, now: int) returns (admitted: bool)
      ensures admitted == !(id != "" && Get(cache, id, now) >= MAX_ATTEMPTS)
    {
      admitted := true;
      if id != "" {
        var attempts := Get(cache, id, now);
        if attempts >= MAX_ATTEMPTS { admitted := false; }
      }
    }

    /** The second half reads the counter again, */
    method NextCount(id: string, now: int) returns (newCount: nat)
      ensures newCount == Get(cache, id, now) + 1
    {
      var attempts := Get(cache, id, now);
      newCount := attempts + 1;
    }

    /** and writes the new count back, for another 900 seconds. */
    method SetCount(id: string, newCount: nat, now: int)
      modifies this
      ensures cache == old(cache)[id := Entry(newCount, now + LOCKOUT_SECONDS)]
    {
      cache := cache[id := Entry(newCount, now + LOCKOUT_SECONDS)];
    }

    /** Both together, or the removal of the counter after a pass, when nothing comes between. */
    method Record(id: string, now: int, ok: bool)
      modifies this
      ensures cache == Recorded(old(cache), id, now, ok)
    {
      if id != "" {
        if ok {
          cache := cache - {id};
        } else {
          var newCount := NextCount(id, now);
          SetCount(id, newCount, now);
        }
      }
    }

    /** `validate` of an attempt that no other one interrupts. */
    method Validate(a: Attempt) returns (outcome: Outcome)
      modifies this
      ensures outcome == OutcomeOf(old(cache), a) && cache == AfterAttempt(old(cache), a)
    {
      var admitted := Check(a.identifier, a.checked);
      if !admitted { return Refused; }
      Record(a.identifier, a.recorded, a.credentialsOk);
      return if a.credentialsOk then Passed else Failed;
    }
  }

  // ----- Timed runs -----

  function AfterAttempts(cache: Cache, run: seq<Attempt>): Cache {
    if run == [] then cache else AfterAttempt(AfterAttempts(cache, run[..|run| - 1]), run[|run| - 1])
  }

  /** The outcome of the `i`-th attempt of a run. */
  function OutcomeAt(cache: Cache, run: seq<Attempt>, i: nat): Outcome
    requires i < |run|
  {
    OutcomeOf(AfterAttempts(cache, run[..i]), run[i])
  }

  /** Attempts one after another: each is recorded after it was checked and before the next begins. */
  predicate InOrder(run: seq<Attempt>) {
    && (forall i :: 0 <= i < |run| ==> run[i].checked <= run[i].recorded)
    && (forall i, j :: 0 <= i < j < |run| ==> run[i].recorded <= run[j].checked)
  }

  ghost predicate CountsBounded(cache: Cache) { forall id <- cache :: 1 <= cache[id].count <= MAX_ATTEMPTS }

  /** The counter never leaves 0..5, whatever the identifiers. */
  lemma {:induction false} CounterStaysBounded(cache: Cache, run: seq<Attempt>)
    requires CountsBounded(cache) && InOrder(run)
    ensures CountsBounded(AfterAttempts(cache, run))
  {
    if run != [] {
      CounterStaysBounded(cache, run[..|run| - 1]);
    }
  }

  // ----- What the counter counts -----

  /** The next failure of the row came less than 900 seconds later. */
  predicate Near(run: seq<Attempt>, ps: seq<nat>, q: nat)
    requires q + 1 < |ps| && ps[q] < |run| && ps[q + 1] < |run|
  {
    run[ps[q + 1]].recorded < run[ps[q]].recorded + LOCKOUT_SECONDS
  }

  /** Positions before `n` of failed checks of `id`. */
  ghost predicate AreFailures(run: seq<Attempt>, ps: seq<nat>, id: string, n: nat) {
    n <= |run| && forall q :: 0 <= q < |ps| ==> ps[q] < n && run[ps[q]].identifier == id && OutcomeAt(map[], run, ps[q]) == Failed
  }

  predicate Increasing(ps: seq<nat>) { forall q, r :: 0 <= q < r < |ps| ==> ps[q] < ps[r] }

  ghost predicate AllNear(run: seq<Attempt>, ps: seq<nat>) {
    (forall q :: 0 <= q < |ps| ==> ps[q] < |run|) && forall q: nat :: q + 1 < |ps| ==> Near(run, ps, q)
  }

  ghost predicate NoPass(run: seq<Attempt>, id: string, begin: nat, n: nat) {
    n <= |run| && forall m :: begin <= m < n && run[m].identifier == id ==> OutcomeAt(map[], run, m) != Passed
  }

  /** `ps` are positions before `n`, in order, of failed checks of `id`, each less than 900 seconds
      after the one before; and from the first of them on, `id` passed no check. */
  ghost predicate IsRow(run: seq<Attempt>, ps: seq<nat>, id: string, n: nat) {
    AreFailures(run, ps, id, n) && Increasing(ps) && AllNear(run, ps) && (ps != [] ==> NoPass(run, id, ps[0], n))
  }

  function CacheAt(run: seq<Attempt>, n: nat): Cache
    requires n <= |run|
  {
    AfterAttempts(map[], run[..n])
  }

  lemma CacheStep(run: seq<Attempt>, n: nat, id: string)
    requires n < |run| && id != ""
    ensures var before, after, a := CacheAt(run, n), CacheAt(run, n + 1), run[n];
      if a.identifier == id && OutcomeAt(map[], run, n) == Failed
      then id in after && after[id] == Entry(Get(before, id, a.recorded) + 1, a.recorded + LOCKOUT_SECONDS)
      else if a.identifier == id && OutcomeAt(map[], run, n) == Passed then id !in after
      else (id in after <==> id in before) && (id in before ==> after[id] == before[id])
  {
    StepOfRun(map[], run, n);
  }

  /** The entry of `id` counts exactly the row `ps`. */
  ghost predicate Counts(run: seq<Attempt>, ps: seq<nat>, id: string, n: nat)
    requires n <= |run|
  {
    id in CacheAt(run, n) ==>
      && ps != [] && |ps| == CacheAt(run, n)[id].count && IsRow(run, ps, id, n)
      && CacheAt(run, n)[id].expiry == run[ps[|ps| - 1]].recorded + LOCKOUT_SECONDS
  }

  /** Every counter in the cache has a row of that length behind it. */
  lemma {:induction false} RowBehindCounter(run: seq<Attempt>, id: string, n: nat) returns (ps: seq<nat>)
    requires id != "" && n <= |run|
    ensures Counts(run, ps, id, n)
    decreases n
  {
    ps := [];
    if n > 0 {
      var before := RowBehindCounter(run, id, n - 1);
      CacheStep(run, n - 1, id);
      if run[n - 1].identifier == id && OutcomeAt(map[], run, n - 1) == Failed {
        ps := OneFailureMore(run, before, id, n - 1);
      } else if id in CacheAt(run, n) {
        RowStays(run, before, id, n - 1);
        ps := before;
      }
    }
  }

  lemma OneFailureMore(run: seq<Attempt>, before: seq<nat>, id: string, m: nat) returns (ps: seq<nat>)
    requires id != "" && m < |run| && run[m].identifier == id && OutcomeAt(map[], run, m) == Failed && Counts(run, before, id, m)
    ensures Counts(run, ps, id, m + 1)
  {
    FailureStep(run, m, id);
    var kept := if Get(CacheAt(run, m), id, run[m].recorded) == 0 then [] else before;
    RowGrows(run, kept, id, m);
    ps := kept + [m];
    assert |ps| == Get(CacheAt(run, m), id, run[m].recorded) + 1;
  }

  lemma FailureStep(run: seq<Attempt>, m: nat, id: string)
    requires id != "" && m < |run| && run[m].identifier == id && OutcomeAt(map[], run, m) == Failed
    ensures id in CacheAt(run, m + 1)
    ensures CacheAt(run, m + 1)[id] == Entry(Get(CacheAt(run, m), id, run[m].recorded) + 1, run[m].recorded + LOCKOUT_SECONDS)
  {
    CacheStep(run, m, id);
  }

  lemma RowStays(run: seq<Attempt>, ps: seq<nat>, id: string, m: nat)
    requires m < |run| && IsRow(run, ps, id, m) && (run[m].identifier == id ==> OutcomeAt(map[], run, m) != Passed)
    ensures IsRow(run, ps, id, m + 1)
  {
  }

  lemma RowGrows(run: seq<Attempt>, ps: seq<nat>, id: string, m: nat)
    requires m < |run| && run[m].identifier == id && OutcomeAt(map[], run, m) == Failed && IsRow(run, ps, id, m)
    requires ps != [] ==> run[m].recorded < run[ps[|ps| - 1]].recorded + LOCKOUT_SECONDS
    ensures IsRow(run, ps + [m], id, m + 1)
  {
    FailuresGrow(run, ps, id, m);
    NearGrows(run, ps, m);
  }

  lemma FailuresGrow(run: seq<Attempt>, ps: seq<nat>, id: string, m: nat)
    requires m < |run| && run[m].identifier == id && OutcomeAt(map[], run, m) == Failed && AreFailures(run, ps, id, m) && Increasing(ps)
    ensures AreFailures(run, ps + [m], id, m + 1) && Increasing(ps + [m])
  {
  }

  lemma NearGrows(run: seq<Attempt>, ps: seq<nat>, m: nat)
    requires m < |run| && AllNear(run, ps) && (ps != [] ==> run[m].recorded < run[ps[|ps| - 1]].recorded + LOCKOUT_SECONDS)
    ensures AllNear(run, ps + [m])
  {
    var more := ps + [m];
    forall q: nat | q + 1 < |more| ensures Near(run, more, q) {
      if q + 1 < |ps| { assert Near(run, ps, q); }
    }
  }

  /** A counter that stays live and meets no pass only grows. */
  lemma {:induction false} CounterHolds(run: seq<Attempt>, id: string, start: nat, upto: nat, c: nat, since: int)
    requires id != "" && start <= upto <= |run| && c > 0
    requires var e := CacheAt(run, start); id in e && e[id].count >= c && e[id].expiry >= since + LOCKOUT_SECONDS
    requires forall m :: start <= m < upto ==> since <= run[m].recorded < since + LOCKOUT_SECONDS
    requires forall m :: start <= m < upto && run[m].identifier == id ==> OutcomeAt(map[], run, m) != Passed
    ensures var e := CacheAt(run, upto); id in e && e[id].count >= c && e[id].expiry >= since + LOCKOUT_SECONDS
    decreases upto
  {
    if start != upto {
      CounterHolds(run, id, start, upto - 1, c, since);
      CacheStep(run, upto - 1, id);
    }
  }

  /** A row that is still live at `t` is counted in full. */
  lemma {:induction false} RowIsCounted(run: seq<Attempt>, ps: seq<nat>, id: string, n: nat, t: int)
    requires InOrder(run) && id != "" && ps != [] && IsRow(run, ps, id, n)
    requires (forall m :: 0 <= m < n ==> run[m].recorded <= t) && t < run[ps[|ps| - 1]].recorded + LOCKOUT_SECONDS
    ensures Get(CacheAt(run, n), id, t) >= |ps|
    decreases |ps|
  {
    var init, p := ps[..|ps| - 1], ps[|ps| - 1];
    if init != [] {
      RowShrinks(run, ps, id, n);
      RowIsCounted(run, init, id, p, run[p].recorded);
    }
    TailIsCounted(run, ps, id, n, t);
  }

  lemma TailIsCounted(run: seq<Attempt>, ps: seq<nat>, id: string, n: nat, t: int)
    requires InOrder(run) && id != "" && ps != [] && IsRow(run, ps, id, n)
    requires (forall m :: 0 <= m < n ==> run[m].recorded <= t) && t < run[ps[|ps| - 1]].recorded + LOCKOUT_SECONDS
    requires Get(CacheAt(run, ps[|ps| - 1]), id, run[ps[|ps| - 1]].recorded) >= |ps| - 1
    ensures Get(CacheAt(run, n), id, t) >= |ps|
  {
    var p := ps[|ps| - 1];
    LastIsCounted(run, ps, id, n);
    AfterTheLast(run, ps, id, n, t);
    CounterHolds(run, id, p + 1, n, |ps|, run[p].recorded);
  }

  lemma LastIsCounted(run: seq<Attempt>, ps: seq<nat>, id: string, n: nat)
    requires id != "" && ps != [] && AreFailures(run, ps, id, n)
    requires var p := ps[|ps| - 1]; p < |run| && Get(CacheAt(run, p), id, run[p].recorded) >= |ps| - 1
    ensures var p := ps[|ps| - 1];
      && p < n <= |run| && id in CacheAt(run, p + 1)
      && CacheAt(run, p + 1)[id].count >= |ps| && CacheAt(run, p + 1)[id].expiry == run[p].recorded + LOCKOUT_SECONDS
  {
    CacheStep(run, ps[|ps| - 1], id);
  }

  /** Between the last failure of a live row and `n` nothing passes and nothing is recorded too late. */
  lemma AfterTheLast(run: seq<Attempt>, ps: seq<nat>, id: string, n: nat, t: int)
    requires InOrder(run) && ps != [] && IsRow(run, ps, id, n)
    requires (forall m :: 0 <= m < n ==> run[m].recorded <= t) && t < run[ps[|ps| - 1]].recorded + LOCKOUT_SECONDS
    ensures var p := ps[|ps| - 1];
      && (forall m :: p + 1 <= m < n ==> run[p].recorded <= run[m].recorded < run[p].recorded + LOCKOUT_SECONDS)
      && (forall m :: p + 1 <= m < n && run[m].identifier == id ==> OutcomeAt(map[], run, m) != Passed)
  {
    assert |ps| > 1 ==> ps[0] < ps[|ps| - 1];
  }

  lemma RowShrinks(run: seq<Attempt>, ps: seq<nat>, id: string, n: nat)
    requires InOrder(run) && |ps| > 1 && IsRow(run, ps, id, n)
    ensures var init, p := ps[..|ps| - 1], ps[|ps| - 1];
      && IsRow(run, init, id, p)
      && (forall m :: 0 <= m < p ==> run[m].recorded <= run[p].recorded)
      && run[p].recorded < run[init[|init| - 1]].recorded + LOCKOUT_SECONDS
  {
    var init := ps[..|ps| - 1];
    assert Near(run, ps, |ps| - 2);
    forall q: nat | q + 1 < |init| ensures Near(run, init, q) { assert Near(run, ps, q); }
  }

  lemma RowSuffix(run: seq<Attempt>, ps: seq<nat>, id: string, n: nat, k: nat)
    requires IsRow(run, ps, id, n) && k < |ps|
    ensures IsRow(run, ps[k..], id, n)
  {
    forall q: nat | q + 1 < |ps[k..]| ensures Near(run, ps[k..], q) { assert Near(run, ps, q + k); }
    assert ps[k..][0] == ps[k] && (k > 0 ==> ps[0] < ps[k]);
  }

  /** A row of `c` failures whose last one still counts at `t`. */
  ghost predicate IsLiveRow(run: seq<Attempt>, ps: seq<nat>, id: string, n: nat, t: int, c: nat) {
    |ps| == c > 0 && IsRow(run, ps, id, n) && t < run[ps[c - 1]].recorded + LOCKOUT_SECONDS
  }

  lemma LiveRowExists(run: seq<Attempt>, id: string, n: nat, t: int, c: nat) returns (ps: seq<nat>)
    requires id != "" && n <= |run| && c > 0 && Get(CacheAt(run, n), id, t) >= c
    ensures IsLiveRow(run, ps, id, n, t, c)
  {
    var all := RowBehindCounter(run, id, n);
    RowSuffix(run, all, id, n, |all| - c);
    ps := all[|all| - c..];
    assert ps[c - 1] == all[|all| - 1];
  }

  /** The counter reaches `c` exactly when there is a row of `c` failures that still counts. */
  lemma CounterReachesIffRow(run: seq<Attempt>, id: string, n: nat, t: int, c: nat)
    requires InOrder(run) && id != "" && n <= |run| && c > 0 && forall m :: 0 <= m < n ==> run[m].recorded <= t
    ensures Get(CacheAt(run, n), id, t) >= c <==> exists ps :: IsLiveRow(run, ps, id, n, t, c)
  {
    if Get(CacheAt(run, n), id, t) >= c {
      var ps := LiveRowExists(run, id, n, t, c);
    }
    if ps :| IsLiveRow(run, ps, id, n, t, c) {
      RowIsCounted(run, ps, id, n, t);
    }
  }

  /** An attempt is refused if and only if there are five failed checks of its identifier, each less
      than 900 seconds after the one before and the last less than 900 seconds before this attempt,
      with no passed check since the first. */
  lemma RefusedIffFiveInARow(run: seq<Attempt>, i: nat)
    requires InOrder(run) && i < |run| && run[i].identifier != ""
    ensures OutcomeAt(map[], run, i) == Refused <==> exists ps :: IsLiveRow(run, ps, run[i].identifier, i, run[i].checked, 5)
  {
    CounterReachesIffRow(run, run[i].identifier, i, run[i].checked, 5);
  }

  // ----- The window theorem -----

  /** Failed checks of one identifier among the attempts from `i` up to `n`. */
  function Failures(cache: Cache, run: seq<Attempt>, id: string, i: nat, n: nat): nat
    requires n <= |run|
  {
    if n <= i then 0 else
      Failures(cache, run, id, i, n - 1)
      + (if run[n - 1].identifier == id && OutcomeAt(cache, run, n - 1) == Failed then 1 else 0)
  }

  lemma StepOfRun(cache: Cache, run: seq<Attempt>, n: nat)
    requires n < |run|
    ensures AfterAttempts(cache, run[..n + 1]) == AfterAttempt(AfterAttempts(cache, run[..n]), run[n])
  {
    assert run[..n + 1][..n] == run[..n];
  }

  /** The entry of `id` holds at least `f` failures, and will until after `end`. */
  predicate Covered(cache: Cache, id: string, f: nat, end: int) {
    f <= MAX_ATTEMPTS && (f > 0 ==> id in cache && cache[id].count >= f && cache[id].expiry > end)
  }

  /** One attempt inside a window that ends less than 900 seconds after it. */
  lemma WindowStep(cache: Cache, a: Attempt, id: string, f: nat, end: int)
    requires id != "" && a.checked <= a.recorded <= end < a.recorded + LOCKOUT_SECONDS
    requires Covered(cache, id, f, end)
    requires a.identifier == id ==> OutcomeOf(cache, a) != Passed
    ensures Covered(AfterAttempt(cache, a), id, f + (if a.identifier == id && OutcomeOf(cache, a) == Failed then 1 else 0), end)
  {
  }

  /** Inside a window shorter than 900 seconds the counter keeps every failure of the window. */
  lemma {:induction false} CounterCoversWindow(cache: Cache, run: seq<Attempt>, id: string, i: nat, j: nat, n: nat)
    requires InOrder(run) && id != "" && i <= j < |run| && i <= n <= j + 1 && run[j].recorded - run[i].recorded < LOCKOUT_SECONDS
    requires forall m :: i <= m <= j && run[m].identifier == id ==> OutcomeAt(cache, run, m) != Passed
    ensures Covered(AfterAttempts(cache, run[..n]), id, Failures(cache, run, id, i, n), run[j].recorded)
    decreases n
  {
    if n > i {
      CounterCoversWindow(cache, run, id, i, j, n - 1);
      InsideWindow(run, i, n - 1, j);
      assert run[n - 1].identifier == id ==> OutcomeAt(cache, run, n - 1) != Passed;
      FailuresStep(cache, run, id, i, n - 1, run[j].recorded);
    }
  }

  lemma InsideWindow(run: seq<Attempt>, i: nat, m: nat, j: nat)
    requires InOrder(run) && i <= m <= j < |run|
    ensures run[i].recorded <= run[m].recorded <= run[j].recorded && run[m].checked <= run[m].recorded
  {
    assert i < m ==> run[i].recorded <= run[m].checked;
    assert m < j ==> run[m].recorded <= run[j].checked;
  }

  lemma FailuresStep(cache: Cache, run: seq<Attempt>, id: string, i: nat, m: nat, end: int)
    requires id != "" && i <= m < |run| && run[m].checked <= run[m].recorded <= end < run[m].recorded + LOCKOUT_SECONDS
    requires run[m].identifier == id ==> OutcomeAt(cache, run, m) != Passed
    requires Covered(AfterAttempts(cache, run[..m]), id, Failures(cache, run, id, i, m), end)
    ensures Covered(AfterAttempts(cache, run[..m + 1]), id, Failures(cache, run, id, i, m + 1), end)
  {
    StepOfRun(cache, run, m);
    WindowStep(AfterAttempts(cache, run[..m]), run[m], id, Failures(cache, run, id, i, m), end);
  }

  /** Any stretch of attempts whose records lie within 900 seconds, and in which the identifier never
      passes a credential check, contains at most five failed checks of that identifier, whatever
      else is attempted in between and whatever the cache held before, as long as attempts do not overlap. */
  lemma AtMostFiveFailuresPerWindow(cache: Cache, run: seq<Attempt>, id: string, i: nat, j: nat)
    requires InOrder(run) && id != "" && i <= j < |run| && run[j].recorded - run[i].recorded < LOCKOUT_SECONDS
    requires forall m :: i <= m <= j && run[m].identifier == id ==> OutcomeAt(cache, run, m) != Passed
    ensures Failures(cache, run, id, i, j + 1) <= 5
  {
    CounterCoversWindow(cache, run, id, i, j, j + 1);
  }

  /** The window is half open: 900 seconds after a fifth failure the next one is counted afresh. */
  lemma CounterRestartsAfterFullWindow()
    ensures var run := [Attempt("x", 0, 0, false), Attempt("x", 900, 900, false)];
      && InOrder(run) && run[1].recorded - run[0].recorded == LOCKOUT_SECONDS
      && OutcomeAt(map["x" := Entry(4, 100)], run, 0) == Failed
      && AfterAttempts(map["x" := Entry(4, 100)], run[..1])["x"] == Entry(5, 900)
      && OutcomeAt(map["x" := Entry(4, 100)], run, 1) == Failed
  {
    var run := [Attempt("x", 0, 0, false), Attempt("x", 900, 900, false)];
    var cache := map["x" := Entry(4, 100)];
    assert run[..0] == [] && AfterAttempts(cache, run[..0]) == cache;
    StepOfRun(cache, run, 0);
  }

  // ----- The lock -----

  /** Once five failures are counted, every attempt on the identifier that begins before the entry
      expires is refused, and none of them, nor any attempt on another identifier, moves that time. */
  lemma {:induction false} LockedUntilExpiry(cache: Cache, run: seq<Attempt>, id: string)
    requires id != "" && id in cache && cache[id].count >= MAX_ATTEMPTS
    requires forall a <- run :: a.identifier == id ==> a.checked < cache[id].expiry
    ensures var now := AfterAttempts(cache, run); id in now && now[id] == cache[id]
    ensures forall i :: 0 <= i < |run| && run[i].identifier == id ==> OutcomeAt(cache, run, i) == Refused
  {
    if run != [] {
      var init, last := run[..|run| - 1], run[|run| - 1];
      assert forall a <- init :: a in run;
      LockedUntilExpiry(cache, init, id);
      assert last in run;
      forall i | 0 <= i < |run| && run[i].identifier == id ensures OutcomeAt(cache, run, i) == Refused {
        if i < |init| {
          assert init[..i] == run[..i];
          assert OutcomeAt(cache, init, i) == Refused;
        }
      }
    }
  }

  /** After any history, the fifth failure of a row locks its identifier: every later attempt that
      begins within 900 seconds of it is refused, whatever else is attempted meanwhile. */
  lemma FifthFailureLocks(run: seq<Attempt>, ps: seq<nat>, id: string, j: nat)
    requires InOrder(run) && id != "" && |ps| == 5 && ps[4] < j < |run| && IsRow(run, ps, id, ps[4] + 1)
    requires run[j].identifier == id && run[j].checked < run[ps[4]].recorded + LOCKOUT_SECONDS
    ensures OutcomeAt(map[], run, j) == Refused
  {
    RowIsCounted(run, ps, id, ps[4] + 1, run[ps[4]].recorded);
    CacheStep(run, ps[4], id);
    StaysLocked(run, id, ps[4] + 1, j);
  }

  lemma {:induction false} StaysLocked(run: seq<Attempt>, id: string, start: nat, upto: nat)
    requires InOrder(run) && id != "" && 0 < start <= upto < |run| && id in CacheAt(run, start)
    requires var e := CacheAt(run, start)[id]; e.count >= MAX_ATTEMPTS && run[upto].checked < e.expiry
    ensures id in CacheAt(run, upto) && CacheAt(run, upto)[id] == CacheAt(run, start)[id]
    decreases upto
  {
    if start != upto {
      StaysLocked(run, id, start, upto - 1);
      CacheStep(run, upto - 1, id);
    }
  }
}
