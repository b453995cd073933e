/** Login attempts that overlap. Checking the counter, reading it again after a failure and writing it
    back are separate cache operations, and nothing keeps those of different workers apart. A write
    may be stale: it can lower the counter and so undo a lock. How many failures that lets through
    within 900 seconds is determined exactly.
 */
module LoginRaces {
  import opened LoginLockout

  // ----- Workers -----

  /** A worker is free, runs the credential check of an admitted attempt, or has read the counter after
      a failure and has not written it back yet. */
  datatype Phase = Idle | Waiting(id: string) | Holding(id: string, read: nat)

  datatype State = State(cache: Cache, workers: seq<Phase>)

  datatype Step =
    | Check(w: nat, id: string, now: int)
    | Read(w: nat, now: int)
    | Write(w: nat, now: int)
    | Pass(w: nat, now: int)

  predicate Possible(s: State, e: Step) {
    && e.w < |s.workers|
    && match e
       case Check(w, _, _) => s.workers[w].Idle?
       case Read(w, _) => s.workers[w].Waiting?
       case Write(w, _) => s.workers[w].Holding?
       case Pass(w, _) => s.workers[w].Waiting?
  }

  function Turn(s: State, w: nat, p: Phase): State
    requires w < |s.workers|
  {
    s.(workers := s.workers[w := p])
  }

  /** One cache operation of one worker; attempts without an identifier leave no trace. */
  function AfterStep(s: State, e: Step): State {
    if !Possible(s, e) then s else
      match e
      case Check(w, id, now) =>
        if id != "" && Get(s.cache, id, now) >= MAX_ATTEMPTS then s else Turn(s, w, Waiting(id))
      case Read(w, now) =>
        var id := s.workers[w].id;
        Turn(s, w, if id == "" then Idle else Holding(id, Get(s.cache, id, now)))
      case Write(w, now) =>
        var p := s.workers[w];
        Turn(s, w, Idle).(cache := s.cache[p.id := Entry(p.read + 1, now + LOCKOUT_SECONDS)])
      case Pass(w, _) =>
        var id := s.workers[w].id;
        Turn(s, w, Idle).(cache := if id == "" then s.cache else s.cache - {id})
  }

  function AfterSteps(s: State, es: seq<Step>): State {
    if es == [] then s else AfterStep(AfterSteps(s, es[..|es| - 1]), es[|es| - 1])
  }

  /** The step records a failure of `id`. */
  predicate IsFailure(s: State, e: Step, id: string) {
    Possible(s, e) && e.Write? && s.workers[e.w].id == id
  }

  function Failures(s: State, es: seq<Step>, id: string): nat {
    if es == [] then 0 else
      Failures(s, es[..|es| - 1], id) + (if IsFailure(AfterSteps(s, es[..|es| - 1]), es[|es| - 1], id) then 1 else 0)
  }

  predicate IsPass(s: State, e: Step, id: string) {
    Possible(s, e) && e.Pass? && s.workers[e.w].id == id
  }

  ghost predicate NeverPasses(s: State, es: seq<Step>, id: string) {
    es == [] || (NeverPasses(s, es[..|es| - 1], id) && !IsPass(AfterSteps(s, es[..|es| - 1]), es[|es| - 1], id))
  }

  lemma {:induction false} StepsAppend(s: State, a: seq<Step>, b: seq<Step>, id: string)
    ensures AfterSteps(s, a + b) == AfterSteps(AfterSteps(s, a), b)
    ensures Failures(s, a + b, id) == Failures(s, a, id) + Failures(AfterSteps(s, a), b, id)
  {
    if b == [] {
      assert a + b == a;
    } else {
      assert (a + b)[..|a + b| - 1] == a + b[..|b| - 1];
      StepsAppend(s, a, b[..|b| - 1], id);
    }
  }

  /** An attempt whose steps nothing interrupts is the attempt as one operation. */
  lemma AttemptIsItsSteps(s: State, w: nat, a: Attempt)
    requires w < |s.workers| && s.workers[w].Idle? && a.identifier != ""
    ensures var checked := AfterStep(s, Check(w, a.identifier, a.checked));
      match OutcomeOf(s.cache, a)
      case Refused => checked == s
      case Passed => AfterStep(checked, Pass(w, a.recorded)) == s.(cache := AfterAttempt(s.cache, a))
      case Failed => AfterStep(AfterStep(checked, Read(w, a.recorded)), Write(w, a.recorded)) == s.(cache := AfterAttempt(s.cache, a))
  {
    assert s.workers[w := Idle] == s.workers;
  }

  // ----- Counting the ways down -----

  /** The binomial coefficient of `n + k` over `k`. */
  function Ways(n: nat, k: nat): (w: nat)
    ensures w > 0
  {
    if n == 0 || k == 0 then 1 else Ways(n - 1, k) + Ways(n, k - 1)
  }

  /** What `n` workers above a level are worth, `k` levels below the top. */
  function Worth(n: nat, k: nat): nat {
    if n == 0 then 0 else Ways(n - 1, k)
  }

  function WorthUpTo(n: nat, k: nat): nat {
    if k == 0 then 0 else WorthUpTo(n, k - 1) + Worth(n, k)
  }

  lemma {:induction false} WorthAddsUp(n: nat, k: nat)
    ensures Ways(n, k) == 1 + WorthUpTo(n, k)
  {
    if k > 0 { WorthAddsUp(n, k - 1); }
  }

  lemma {:induction false} WaysGrow(n: nat, m: nat, k: nat)
    requires n <= m
    ensures Ways(n, k) <= Ways(m, k) && Worth(n, k) <= Worth(m, k)
  {
    if n < m {
      WaysGrow(n, m - 1, k);
      WorthStep(m - 1, k);
    }
  }

  /** One worker more above a level is worth all lower levels together, and one more. */
  lemma WorthStep(n: nat, k: nat)
    ensures Worth(n + 1, k) >= Worth(n, k) && Ways(n + 1, k) >= Ways(n, k)
    ensures k > 0 ==> Worth(n + 1, k) == Worth(n, k) + 1 + WorthUpTo(n, k - 1)
  {
    if k > 0 { WorthAddsUp(n, k - 1); }
  }

  function Factorial(k: nat): nat { if k == 0 then 1 else k * Factorial(k - 1) }

  /** (n+1)(n+2)...(n+k). */
  function Rising(n: nat, k: nat): nat { if k == 0 then 1 else Rising(n, k - 1) * (n + k) }

  lemma {:induction false} RisingShift(n: nat, k: nat)
    requires n > 0 && k > 0
    ensures Rising(n - 1, k) == n * Rising(n, k - 1)
  {
    if k == 1 {
      assert Rising(n - 1, 1) == Rising(n - 1, 0) * n;
    } else {
      RisingShift(n, k - 1);
      Regroup(n, Rising(n, k - 2), n - 1 + k);
    }
  }

  lemma Regroup(a: int, b: int, c: int)
    ensures (a * b) * c == a * (b * c)
  {
  }

  /** In closed form: `k! * Ways(n, k)` is (n+1)(n+2)...(n+k). */
  lemma {:induction false} WaysAreBinomial(n: nat, k: nat)
    ensures Factorial(k) * Ways(n, k) == Rising(n, k)
  {
    if k > 0 {
      WaysAreBinomial(n, k - 1);
      if n > 0 {
        WaysAreBinomial(n - 1, k);
        RisingShift(n, k);
        PascalStep(k, Factorial(k - 1), Ways(n - 1, k), Ways(n, k - 1));
        Share(n, k, Rising(n, k - 1));
      } else {
        Regroup(k, Factorial(k - 1), 1);
        assert Ways(0, k - 1) == 1;
      }
    }
  }

  lemma PascalStep(k: int, f: int, a: int, b: int)
    ensures (k * f) * (a + b) == (k * f) * a + k * (f * b)
  {
  }

  lemma Share(n: int, k: int, r: int)
    ensures n * r + k * r == r * (n + k)
  {
  }

  // ----- How far a state has come -----

  function Min(a: nat, b: nat): nat { if a < b then a else b }

  /** The counter as far as it is sure to stay until the end of the window that starts at `begin`. */
  function Sure(cache: Cache, id: string, begin: int): nat {
    if id in cache && cache[id].expiry >= begin + LOCKOUT_SECONDS then cache[id].count else 0
  }

  /** The level of a worker: what it read, or what it can still read; 5 if it is locked out. */
  function Level(c: nat, p: Phase, id: string): nat {
    if p.Waiting? && p.id == id then Min(c, 4)
    else if p.Holding? && p.id == id then Min(p.read, 4)
    else Min(c, 5)
  }

  function Levels(s: State, id: string, begin: int): seq<nat> {
    seq(|s.workers|, i requires 0 <= i < |s.workers| => Level(Sure(s.cache, id, begin), s.workers[i], id))
  }

  /** How many levels are above `t`. */
  function Above(ls: seq<nat>, t: nat): nat {
    if ls == [] then 0 else Above(ls[..|ls| - 1], t) + (if ls[|ls| - 1] > t then 1 else 0)
  }

  /** Level `5 - k` counts with weight `k`. */
  function Progress(ls: seq<nat>, k: nat): nat
    requires k <= 5
  {
    if k == 0 then 0 else Progress(ls, k - 1) + Worth(Above(ls, 5 - k), k)
  }

  lemma {:induction false} AboveMono(a: seq<nat>, t: nat, b: seq<nat>, u: nat)
    requires |a| == |b| && forall i :: 0 <= i < |a| && a[i] > t ==> b[i] > u
    ensures Above(a, t) <= Above(b, u) <= |b|
  {
    if a != [] {
      AboveMono(a[..|a| - 1], t, b[..|b| - 1], u);
    }
  }

  lemma {:induction false} AboveStrict(a: seq<nat>, b: seq<nat>, t: nat, w: nat)
    requires |a| == |b| && w < |a| && a[w] <= t < b[w]
    requires forall i :: 0 <= i < |a| && a[i] > t ==> b[i] > t
    ensures Above(a, t) + 1 <= Above(b, t)
  {
    var a', b' := a[..|a| - 1], b[..|b| - 1];
    if w < |a'| { AboveStrict(a', b', t, w); } else { AboveMono(a', t, b', t); }
  }

  /** No state has come further than all workers at the top. */
  lemma {:induction false} ProgressBound(ls: seq<nat>, k: nat)
    requires k <= 5
    ensures Progress(ls, k) <= Ways(|ls|, k) - 1
  {
    WorthAddsUp(|ls|, k);
    if k > 0 {
      WorthAddsUp(|ls|, k - 1);
      ProgressBound(ls, k - 1);
      AboveMono(ls, 5 - k, ls, 5 - k);
      WaysGrow(Above(ls, 5 - k), |ls|, k);
    }
  }

  lemma {:induction false} ProgressKeeps(a: seq<nat>, b: seq<nat>, k: nat)
    requires k <= 5 && |a| == |b| && forall i :: 0 <= i < |a| ==> a[i] <= b[i]
    ensures Progress(a, k) <= Progress(b, k)
  {
    if k > 0 {
      ProgressKeeps(a, b, k - 1);
      AboveMono(a, 5 - k, b, 5 - k);
      WaysGrow(Above(a, 5 - k), Above(b, 5 - k), k);
    }
  }

  /** The levels below the top that a stale write can lose are worth less than the one it gains. */
  lemma {:induction false} LowerLevelsAreWorthLess(ls: seq<nat>, h: nat, k: nat)
    requires k + h <= 5
    ensures Progress(ls, k) <= WorthUpTo(Above(ls, h), k)
  {
    if k > 0 {
      LowerLevelsAreWorthLess(ls, h, k - 1);
      AboveMono(ls, 5 - k, ls, h);
      WaysGrow(Above(ls, 5 - k), Above(ls, h), k);
    }
  }

  /** A write by a worker at level `h` takes it above `h` and no one from above `h` to below. */
  lemma {:induction false} ProgressRises(a: seq<nat>, b: seq<nat>, h: nat, w: nat, k: nat)
    requires |a| == |b| && w < |a| && a[w] == h < b[w] && 5 - h <= k <= 5 && h <= 4
    requires forall i :: 0 <= i < |a| ==> a[i] <= b[i] || h < b[i]
    ensures Progress(a, k) + 1 <= Progress(b, k)
  {
    if k == 5 - h {
      AboveStrict(a, b, h, w);
      LowerLevelsAreWorthLess(a, h, k - 1);
      WorthStep(Above(a, h), k);
      WaysGrow(Above(a, h) + 1, Above(b, h), k);
    } else {
      ProgressRises(a, b, h, w, k - 1);
      AboveMono(a, 5 - k, b, 5 - k);
      WaysGrow(Above(a, 5 - k), Above(b, 5 - k), k);
    }
  }

  // ----- The bound -----

  lemma StepRises(s: State, e: Step, id: string, begin: int)
    requires id != "" && begin <= e.now < begin + LOCKOUT_SECONDS && IsFailure(s, e, id)
    ensures Progress(Levels(s, id, begin), 5) + 1 <= Progress(Levels(AfterStep(s, e), id, begin), 5)
  {
    var a, b := Levels(s, id, begin), Levels(AfterStep(s, e), id, begin);
    ProgressRises(a, b, Min(s.workers[e.w].read, 4), e.w, 5);
  }

  lemma StepKeeps(s: State, e: Step, id: string, begin: int)
    requires id != "" && begin <= e.now < begin + LOCKOUT_SECONDS && !IsFailure(s, e, id) && !IsPass(s, e, id)
    ensures Progress(Levels(s, id, begin), 5) <= Progress(Levels(AfterStep(s, e), id, begin), 5)
  {
    assert Sure(s.cache, id, begin) <= Get(s.cache, id, e.now);
    assert Sure(AfterStep(s, e).cache, id, begin) == Sure(s.cache, id, begin);
    ProgressKeeps(Levels(s, id, begin), Levels(AfterStep(s, e), id, begin), 5);
  }

  lemma {:induction false} FailuresAreProgress(s: State, es: seq<Step>, id: string, begin: int)
    requires id != "" && NeverPasses(s, es, id) && forall e <- es :: begin <= e.now < begin + LOCKOUT_SECONDS
    ensures |AfterSteps(s, es).workers| == |s.workers|
    ensures Progress(Levels(s, id, begin), 5) + Failures(s, es, id) <= Progress(Levels(AfterSteps(s, es), id, begin), 5)
  {
    if es != [] {
      var init, e := es[..|es| - 1], es[|es| - 1];
      assert e in es && forall x <- init :: x in es;
      FailuresAreProgress(s, init, id, begin);
      var now := AfterSteps(s, init);
      if IsFailure(now, e, id) { StepRises(now, e, id, begin); } else { StepKeeps(now, e, id, begin); }
    }
  }

  /** However the steps of `n` workers interleave, from whatever cache and whatever attempts they are in
      the middle of: less than 900 seconds without a pass of the identifier take at most
      (n+1)(n+2)(n+3)(n+4)(n+5)/120 - 1 of its failures. */
  lemma FailuresPerWindow(s: State, es: seq<Step>, id: string, begin: int)
    requires id != "" && NeverPasses(s, es, id) && forall e <- es :: begin <= e.now < begin + LOCKOUT_SECONDS
    ensures Failures(s, es, id) <= Ways(|s.workers|, 5) - 1
  {
    FailuresAreProgress(s, es, id, begin);
    ProgressBound(Levels(AfterSteps(s, es), id, begin), 5);
  }

  // ----- The bound is reached -----

  /** The steps lead from one state to another, recording `k` failures, all at one moment and without
      a pass. */
  ghost predicate Leads(s: State, es: seq<Step>, id: string, s': State, k: nat, now: int) {
    AfterSteps(s, es) == s' && Failures(s, es, id) == k && forall e <- es :: e.now == now && !e.Pass?
  }

  lemma LeadsOn(s: State, a: seq<Step>, s1: State, j: nat, b: seq<Step>, s2: State, k: nat, id: string, now: int)
    requires Leads(s, a, id, s1, j, now) && Leads(s1, b, id, s2, k, now)
    ensures Leads(s, a + b, id, s2, j + k, now)
  {
    StepsAppend(s, a, b, id);
  }

  /** The failures `f` idle workers can still cause when the counter is `k` below the lock. */
  function Left(f: nat, k: nat): nat { Ways(f, k) - 1 }

  lemma LeftSplits(f: nat, k: nat)
    ensures Left(0, k) == 0 == Left(f, 0)
    ensures f > 0 && k > 0 ==> Left(f, k) == Left(f - 1, k) + 1 + Left(f, k - 1)
  {
  }

  /** The first `f` workers, idle with the counter `k` below the lock: the last of them reads the counter
      and holds it while the others run it up to the lock, writes it back one higher, and all of them
      start again from there. */
  lemma {:induction false} Exhaust(s: State, id: string, f: nat, k: nat, now: int) returns (es: seq<Step>, s': State)
    requires id != "" && f <= |s.workers| && (forall i :: 0 <= i < f ==> s.workers[i].Idle?)
    requires k <= 5 && Get(s.cache, id, now) == 5 - k
    ensures Leads(s, es, id, s', Left(f, k), now) && s'.workers == s.workers
    decreases f + k, 1
  {
    LeftSplits(f, k);
    if f == 0 || k == 0 {
      s' := s;
      es := Stays(s, id, Left(f, k), now);
    } else {
      var first, s1 := ReadExhaustWrite(s, id, f, k, now);
      var again;
      again, s' := Exhaust(s1, id, f, k - 1, now);
      es := first + again;
      LeadsOn(s, first, s1, Left(f - 1, k) + 1, again, s', Left(f, k - 1), id, now);
    }
  }

  /** The first half: the last worker holds the counter over an exhausting run of the others. */
  lemma {:induction false} ReadExhaustWrite(s: State, id: string, f: nat, k: nat, now: int) returns (es: seq<Step>, s': State)
    requires id != "" && 0 < f <= |s.workers| && (forall i :: 0 <= i < f ==> s.workers[i].Idle?)
    requires 0 < k <= 5 && Get(s.cache, id, now) == 5 - k
    ensures Leads(s, es, id, s', Left(f - 1, k) + 1, now) && s'.workers == s.workers && Get(s'.cache, id, now) == 5 - (k - 1)
    decreases f + k, 0
  {
    var first, s1 := ReadsCounter(s, f - 1, id, 5 - k, now);
    var below, s2 := Exhaust(s1, id, f - 1, k, now);
    var write;
    write, s' := WritesBack(s2, f - 1, id, 5 - k, now);
    BackToIdle(s.workers, f - 1, id, 5 - k);
    es := LeadsTwice(s, first, s1, 0, below, s2, Left(f - 1, k), write, s', 1, Left(f - 1, k) + 1, id, now);
  }

  lemma LeadsTwice(s: State, a: seq<Step>, s1: State, i: nat, b: seq<Step>, s2: State, j: nat, c: seq<Step>, s3: State, k: nat,
                   total: nat, id: string, now: int) returns (es: seq<Step>)
    requires Leads(s, a, id, s1, i, now) && Leads(s1, b, id, s2, j, now) && Leads(s2, c, id, s3, k, now) && total == i + j + k
    ensures Leads(s, es, id, s3, total, now)
  {
    LeadsOn(s, a, s1, i, b, s2, j, id, now);
    LeadsOn(s, a + b, s2, i + j, c, s3, k, id, now);
    es := a + b + c;
  }

  lemma BackToIdle(workers: seq<Phase>, w: nat, id: string, c: nat)
    requires w < |workers| && workers[w].Idle?
    ensures workers[w := Holding(id, c)][w := Idle] == workers
  {
  }

  lemma Stays(s: State, id: string, total: nat, now: int) returns (es: seq<Step>)
    requires total == 0
    ensures Leads(s, es, id, s, total, now)
  {
    es := [];
  }

  lemma WritesBack(s: State, w: nat, id: string, c: nat, now: int) returns (es: seq<Step>, s': State)
    requires w < |s.workers| && s.workers[w] == Holding(id, c)
    ensures Leads(s, es, id, s', 1, now) && s'.workers == s.workers[w := Idle] && Get(s'.cache, id, now) == c + 1
  {
    es, s' := [Write(w, now)], AfterStep(s, Write(w, now));
    OneStep(s, Write(w, now), id);
  }

  lemma OneStep(s: State, e: Step, id: string)
    ensures AfterSteps(s, [e]) == AfterStep(s, e) && Failures(s, [e], id) == if IsFailure(s, e, id) then 1 else 0
  {
    assert [e][..0] == [];
  }

  lemma ReadsCounter(s: State, w: nat, id: string, c: nat, now: int) returns (es: seq<Step>, s': State)
    requires id != "" && w < |s.workers| && s.workers[w].Idle? && Get(s.cache, id, now) == c < 5
    ensures Leads(s, es, id, s', 0, now) && s' == s.(workers := s.workers[w := Holding(id, c)])
  {
    var check := Check(w, id, now);
    es, s' := [check, Read(w, now)], s.(workers := s.workers[w := Holding(id, c)]);
    assert es[..1] == [check];
    OneStep(s, check, id);
    assert s.workers[w := Waiting(id)][w := Holding(id, c)] == s.workers[w := Holding(id, c)];
  }

  lemma {:induction false} WithoutPass(s: State, es: seq<Step>, id: string)
    requires forall e <- es :: !e.Pass?
    ensures NeverPasses(s, es, id)
  {
    if es != [] {
      assert es[|es| - 1] in es && forall e <- es[..|es| - 1] :: e in es;
      WithoutPass(s, es[..|es| - 1], id);
    }
  }

  /** From an empty cache and idle workers, some run within one window takes exactly that many. */
  lemma FailuresPerWindowReached(id: string, n: nat, now: int) returns (es: seq<Step>)
    requires id != ""
    ensures var s := State(map[], seq(n, _ => Idle));
      && NeverPasses(s, es, id) && (forall e <- es :: e.now == now)
      && Failures(s, es, id) == Ways(n, 5) - 1
  {
    assert Left(n, 5) == Ways(n, 5) - 1;
    var s := State(map[], seq(n, _ => Idle));
    var s';
    es, s' := Exhaust(s, id, n, 5, now);
    WithoutPass(s, es, id);
  }

  /** One worker at a time takes five; two take twenty, three 55, four 125. */
  lemma FirstBounds()
    ensures Ways(1, 5) - 1 == 5 && Ways(2, 5) - 1 == 20 && Ways(3, 5) - 1 == 55 && Ways(4, 5) - 1 == 125
  {
    assert Ways(1, 1) == 2 && Ways(1, 2) == 3 && Ways(1, 3) == 4 && Ways(1, 4) == 5;
    assert Ways(2, 1) == 3 && Ways(2, 2) == 6 && Ways(2, 3) == 10 && Ways(2, 4) == 15;
    assert Ways(3, 1) == 4 && Ways(3, 2) == 10 && Ways(3, 3) == 20 && Ways(3, 4) == 35;
    assert Ways(4, 1) == 5 && Ways(4, 2) == 15 && Ways(4, 3) == 35 && Ways(4, 4) == 70;
  }
}
