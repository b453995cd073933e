/** `PasswordResetRequest`: the methods that change an instance in memory and, if asked, write some of
    its fields to the stored row, which other instances may have been loaded from meanwhile.
 */
module PasswordReset {
  import opened Options

  datatype Status = PENDING | VERIFIED | USED | EXPIRED | CANCELLED | LOCKED

  datatype Request = Request(status: Status, failed: nat, maxAttempts: nat, expiresAt: int, verifiedAt: Option<int>, usedAt: Option<int>)

  datatype Op = Verify | Use | Expire | Cancel | Lock | Fail

  predicate IsExpired(r: Request, now: int) { now >= r.expiresAt }

  predicate IsUsable(r: Request, now: int) {
    r.status == PENDING && !IsExpired(r, now) && r.failed < r.maxAttempts
  }

  /** What a method makes of the instance. */
  function Applied(r: Request, op: Op, now: int): Request {
    match op
    case Verify => r.(status := VERIFIED, verifiedAt := Some(now))
    case Use => r.(status := USED, usedAt := Some(now))
    case Expire => r.(status := EXPIRED)
    case Cancel => r.(status := CANCELLED)
    case Lock => r.(status := LOCKED)
    case Fail => r.(failed := r.failed + 1, status := if r.failed + 1 >= r.maxAttempts then LOCKED else r.status)
  }

  /** What `save=True` then makes of the stored row: every method writes the status, only a failure
      the count. */
  function Written(stored: Request, inst: Request, op: Op): Request {
    stored.(status := inst.status,
            failed := if op.Fail? then inst.failed else stored.failed,
            verifiedAt := if op.Verify? then inst.verifiedAt else stored.verifiedAt,
            usedAt := if op.Use? then inst.usedAt else stored.usedAt)
  }

  class StoredRequest {
    var row: Request

    constructor (row: Request)
      ensures this.row == row
    {
      this.row := row;
    }
  }

  /** An instance in memory. */
  class ResetRequest {
    var inst: Request

    constructor (inst: Request)
      ensures this.inst == inst
    {
      this.inst := inst;
    }

    method MarkVerified(table: StoredRequest, save: bool, now: int)
      modifies this, table
      ensures inst == Applied(old(inst), Verify, now)
      ensures table.row == if save then Written(old(table.row), inst, Verify) else old(table.row)
    {
      inst := inst.(status := VERIFIED, verifiedAt := Some(now));
      if save { table.row := table.row.(status := inst.status, verifiedAt := inst.verifiedAt); }
    }

    method MarkUsed(table: StoredRequest, save: bool, now: int)
      modifies this, table
      ensures inst == Applied(old(inst), Use, now)
      ensures table.row == if save then Written(old(table.row), inst, Use) else old(table.row)
    {
      inst := inst.(status := USED, usedAt := Some(now));
      if save { table.row := table.row.(status := inst.status, usedAt := inst.usedAt); }
    }

    /** `mark_expired`, `mark_cancelled` and `mark_locked`. */
    method Mark(table: StoredRequest, op: Op, save: bool)
      requires op.Expire? || op.Cancel? || op.Lock?
      modifies this, table
      ensures forall now :: inst == Applied(old(inst), op, now)
      ensures table.row == if save then Written(old(table.row), inst, op) else old(table.row)
    {
      inst := inst.(status := if op.Expire? then EXPIRED else if op.Cancel? then CANCELLED else LOCKED);
      if save { table.row := table.row.(status := inst.status); }
    }

    method IncrementFailedAttempt(table: StoredRequest, save: bool)
      modifies this, table
      ensures forall now :: inst == Applied(old(inst), Fail, now)
      ensures table.row == if save then Written(old(table.row), inst, Fail) else old(table.row)
    {
      inst := inst.(failed := inst.failed + 1);
      if inst.failed >= inst.maxAttempts { inst := inst.(status := LOCKED); }
      if save { table.row := table.row.(failed := inst.failed, status := inst.status); }
    }
  }

  /** What the methods do to an instance: the status each of them sets, the times it stamps, and the lock
      exactly when a failure reaches the limit. */
  lemma MethodsSet(r: Request, now: int)
    ensures Applied(r, Verify, now) == Request(VERIFIED, r.failed, r.maxAttempts, r.expiresAt, Some(now), r.usedAt)
    ensures Applied(r, Use, now) == Request(USED, r.failed, r.maxAttempts, r.expiresAt, r.verifiedAt, Some(now))
    ensures Applied(r, Expire, now) == Request(EXPIRED, r.failed, r.maxAttempts, r.expiresAt, r.verifiedAt, r.usedAt)
    ensures Applied(r, Cancel, now) == Request(CANCELLED, r.failed, r.maxAttempts, r.expiresAt, r.verifiedAt, r.usedAt)
    ensures Applied(r, Lock, now) == Request(LOCKED, r.failed, r.maxAttempts, r.expiresAt, r.verifiedAt, r.usedAt)
    ensures Applied(r, Fail, now).failed == r.failed + 1
    ensures Applied(r, Fail, now).status != r.status ==> Applied(r, Fail, now).status == LOCKED
    ensures r.status != LOCKED ==> (Applied(r, Fail, now).status == LOCKED <==> r.maxAttempts - r.failed <= 1)
  {
  }

  /** Saved by an instance that agrees with it, a method does to the stored row what it does in memory. */
  lemma AgreeingSaveIsTheMethod(r: Request, op: Op, now: int)
    ensures Written(r, Applied(r, op, now), op) == Applied(r, op, now)
  {
  }

  // ----- One instance -----

  datatype Call = Call(op: Op, now: int)

  function AfterCalls(r: Request, cs: seq<Call>): Request {
    if cs == [] then r else Applied(AfterCalls(r, cs[..|cs| - 1]), cs[|cs| - 1].op, cs[|cs| - 1].now)
  }

  /** Once it is not usable, no sequence of method calls makes an instance usable at any later time. */
  lemma {:induction false} UnusableInstanceStaysSo(r: Request, cs: seq<Call>, t: int, later: int)
    requires !IsUsable(r, t) && t <= later
    ensures !IsUsable(AfterCalls(r, cs), later)
  {
    CallsKeepLimits(r, cs);
    if cs != [] {
      UnusableInstanceStaysSo(r, cs[..|cs| - 1], t, later);
    }
  }

  lemma {:induction false} CallsKeepLimits(r: Request, cs: seq<Call>)
    ensures var r' := AfterCalls(r, cs); r'.maxAttempts == r.maxAttempts && r'.expiresAt == r.expiresAt && r'.failed >= r.failed
  {
    if cs != [] { CallsKeepLimits(r, cs[..|cs| - 1]); }
  }

  /** Failed attempts recorded while the instance is usable. */
  function FailuresInUse(r: Request, cs: seq<Call>): nat {
    if cs == [] then 0 else
      var before, c := AfterCalls(r, cs[..|cs| - 1]), cs[|cs| - 1];
      FailuresInUse(r, cs[..|cs| - 1]) + (if c.op.Fail? && IsUsable(before, c.now) then 1 else 0)
  }

  function Min(a: nat, b: nat): nat { if a < b then a else b }

  /** At most `max_attempts - failed_attempt_count` of them, over every sequence of calls. */
  lemma {:induction false} InstanceFailuresAreBounded(r: Request, cs: seq<Call>)
    requires r.failed <= r.maxAttempts
    ensures FailuresInUse(r, cs) <= Min(AfterCalls(r, cs).failed, r.maxAttempts) - r.failed
  {
    CallsKeepLimits(r, cs);
    if cs != [] {
      CallsKeepLimits(r, cs[..|cs| - 1]);
      InstanceFailuresAreBounded(r, cs[..|cs| - 1]);
    }
  }

  // ----- The stored row and its instances -----

  datatype World = World(row: Request, insts: seq<Request>)

  datatype Act = Load(now: int) | Invoke(i: nat, op: Op, save: bool, now: int)

  function AfterAct(w: World, a: Act): World {
    match a
    case Load(_) => w.(insts := w.insts + [w.row])
    case Invoke(i, op, save, now) =>
      if i >= |w.insts| then w
      else
        var inst := Applied(w.insts[i], op, now);
        World(if save then Written(w.row, inst, op) else w.row, w.insts[i := inst])
  }

  function AfterActs(w: World, acts: seq<Act>): World {
    if acts == [] then w else AfterAct(AfterActs(w, acts[..|acts| - 1]), acts[|acts| - 1])
  }

  /** Limits are never changed, so instances and row agree on them. */
  ghost predicate SameLimits(w: World) {
    forall i :: 0 <= i < |w.insts| ==> w.insts[i].maxAttempts == w.row.maxAttempts && w.insts[i].expiresAt == w.row.expiresAt
  }

  lemma {:induction false} ActsKeepLimits(w: World, acts: seq<Act>)
    requires SameLimits(w)
    ensures var w' := AfterActs(w, acts); SameLimits(w') && w'.row.maxAttempts == w.row.maxAttempts && w'.row.expiresAt == w.row.expiresAt
  {
    if acts != [] { ActsKeepLimits(w, acts[..|acts| - 1]); }
  }

  predicate SavesFailure(w: World, a: Act) { a.Invoke? && a.i < |w.insts| && a.save && a.op.Fail? }

  /** A failed attempt saved, in time, by an instance that still holds PENDING and a count that stays
      under the limit. */
  predicate Revives(w: World, a: Act) {
    && SavesFailure(w, a) && w.insts[a.i].status == PENDING
    && w.insts[a.i].failed + 1 < w.insts[a.i].maxAttempts && a.now < w.insts[a.i].expiresAt
  }

  /** Those are exactly the acts that make an unusable row usable again, whatever it was: USED, LOCKED
      or CANCELLED. */
  lemma UnusableRowRevivesIff(w: World, a: Act)
    requires SameLimits(w) && !IsUsable(w.row, a.now)
    ensures IsUsable(AfterAct(w, a).row, a.now) <==> Revives(w, a)
  {
  }

  /** Only an instance that disagrees with the row on the status or the count can do it. */
  lemma AgreementNeverRevives(w: World, a: Act)
    requires SameLimits(w) && !IsUsable(w.row, a.now) && Revives(w, a)
    ensures w.insts[a.i].status != w.row.status || w.insts[a.i].failed != w.row.failed
  {
  }

  predicate InOrder(acts: seq<Act>, begin: int) {
    && (forall a <- acts :: begin <= a.now)
    && forall i, j :: 0 <= i < j < |acts| ==> acts[i].now <= acts[j].now
  }

  function Now(acts: seq<Act>, begin: int): int { if acts == [] then begin else acts[|acts| - 1].now }

  /** The row is unusable at every moment of the run. */
  ghost predicate AlwaysUnusable(w: World, acts: seq<Act>, begin: int) {
    !IsUsable(AfterActs(w, acts).row, Now(acts, begin)) && (acts == [] || AlwaysUnusable(w, acts[..|acts| - 1], begin))
  }

  ghost predicate NeverRevives(w: World, acts: seq<Act>) {
    acts == [] || (NeverRevives(w, acts[..|acts| - 1]) && !Revives(AfterActs(w, acts[..|acts| - 1]), acts[|acts| - 1]))
  }

  /** Over any acts of any instances in time order, a row once unusable stays unusable if and only if
      none of them revives it at its turn. */
  lemma {:induction false} UnusableRowStaysSoIff(w: World, acts: seq<Act>, begin: int)
    requires SameLimits(w) && !IsUsable(w.row, begin) && InOrder(acts, begin)
    ensures AlwaysUnusable(w, acts, begin) <==> NeverRevives(w, acts)
  {
    if acts != [] {
      var init, a := acts[..|acts| - 1], acts[|acts| - 1];
      assert a in acts && forall x <- init :: x in acts;
      UnusableRowStaysSoIff(w, init, begin);
      ActsKeepLimits(w, init);
      assert Now(init, begin) <= a.now;
      if AlwaysUnusable(w, init, begin) { UnusableRowRevivesIff(AfterActs(w, init), a); }
    }
  }

  /** Every saved instance holds the status and count that are stored when it is saved. */
  ghost predicate SavesAgree(w: World, acts: seq<Act>) {
    acts == [] || (SavesAgree(w, acts[..|acts| - 1])
                   && var before, a := AfterActs(w, acts[..|acts| - 1]), acts[|acts| - 1];
                      SavesFailure(before, a) ==> before.insts[a.i].status == before.row.status && before.insts[a.i].failed == before.row.failed)
  }

  /** In particular while every failure is saved by an instance that agrees with the row. */
  lemma {:induction false} AgreementKeepsRowUnusable(w: World, acts: seq<Act>, begin: int)
    requires SameLimits(w) && !IsUsable(w.row, begin) && InOrder(acts, begin) && SavesAgree(w, acts)
    ensures !IsUsable(AfterActs(w, acts).row, Now(acts, begin))
  {
    if acts != [] {
      var init, a := acts[..|acts| - 1], acts[|acts| - 1];
      assert a in acts && forall x <- init :: x in acts;
      AgreementKeepsRowUnusable(w, init, begin);
      ActsKeepLimits(w, init);
      assert Now(init, begin) <= a.now;
      UnusableRowRevivesIff(AfterActs(w, init), a);
    }
  }

  /** Two requests that arrive together: one instance is loaded, the other one uses the code, and the
      wrong code of the first then puts the USED row back to PENDING. */
  lemma StaleFailureRevivesUsedRow()
    ensures var w := World(Request(PENDING, 0, 5, 600, None, None), []);
            var used := AfterAct(AfterAct(AfterAct(w, Load(0)), Load(0)), Invoke(1, Use, true, 10));
            var after := AfterAct(used, Invoke(0, Fail, true, 20));
      used.row.status == USED && !IsUsable(used.row, 20) && IsUsable(after.row, 20) && Revives(used, Invoke(0, Fail, true, 20))
  {
  }

  // ----- How many failures the row takes -----

  /** Failed attempts saved while the row is usable. */
  function FailuresOnRow(w: World, acts: seq<Act>): nat {
    if acts == [] then 0 else
      var before, a := AfterActs(w, acts[..|acts| - 1]), acts[|acts| - 1];
      FailuresOnRow(w, acts[..|acts| - 1]) + (if SavesFailure(before, a) && IsUsable(before.row, a.now) then 1 else 0)
  }

  /** No failure is saved over a higher stored count. */
  ghost predicate CountsForward(w: World, acts: seq<Act>) {
    acts == [] || (CountsForward(w, acts[..|acts| - 1])
                   && var before, a := AfterActs(w, acts[..|acts| - 1]), acts[|acts| - 1];
                      SavesFailure(before, a) ==> before.insts[a.i].failed >= before.row.failed)
  }

  /** Saving a failure raises the stored count exactly when the instance's count is not behind it. */
  lemma CountRisesIff(w: World, a: Act)
    requires SavesFailure(w, a)
    ensures AfterAct(w, a).row.failed > w.row.failed <==> w.insts[a.i].failed >= w.row.failed
  {
  }

  /** Over every run of that kind the row takes at most `max_attempts - failed_attempt_count` more
      failures while it is usable. */
  lemma {:induction false} RowFailuresAreBounded(w: World, acts: seq<Act>)
    requires SameLimits(w) && w.row.failed <= w.row.maxAttempts && CountsForward(w, acts)
    ensures FailuresOnRow(w, acts) <= Min(AfterActs(w, acts).row.failed, w.row.maxAttempts) - w.row.failed
  {
    if acts != [] {
      var init, a := acts[..|acts| - 1], acts[|acts| - 1];
      RowFailuresAreBounded(w, init);
      ActsKeepLimits(w, init);
      if SavesFailure(AfterActs(w, init), a) { CountRisesIff(AfterActs(w, init), a); }
    }
  }

  /** The stored count went up with every saved failure of the run. */
  ghost predicate CountAlwaysRises(w: World, acts: seq<Act>) {
    acts == [] || (CountAlwaysRises(w, acts[..|acts| - 1])
                   && var before, a := AfterActs(w, acts[..|acts| - 1]), acts[|acts| - 1];
                      SavesFailure(before, a) ==> AfterAct(before, a).row.failed > before.row.failed)
  }

  /** Over any run that is so if and only if no failure is saved over a higher count. */
  lemma {:induction false} CountAlwaysRisesIff(w: World, acts: seq<Act>)
    ensures CountAlwaysRises(w, acts) <==> CountsForward(w, acts)
  {
    if acts != [] {
      CountAlwaysRisesIff(w, acts[..|acts| - 1]);
      var before, a := AfterActs(w, acts[..|acts| - 1]), acts[|acts| - 1];
      if SavesFailure(before, a) { CountRisesIff(before, a); }
    }
  }

  /** Failed attempts saved, whether the row was usable or not. */
  function SavedFailures(w: World, acts: seq<Act>): nat {
    if acts == [] then 0 else
      SavedFailures(w, acts[..|acts| - 1]) + (if SavesFailure(AfterActs(w, acts[..|acts| - 1]), acts[|acts| - 1]) then 1 else 0)
  }

  ghost predicate CountAlwaysExact(w: World, acts: seq<Act>) {
    AfterActs(w, acts).row.failed == w.row.failed + SavedFailures(w, acts) && (acts == [] || CountAlwaysExact(w, acts[..|acts| - 1]))
  }

  /** Every failure is saved by an instance that holds the stored count. */
  ghost predicate CountsAgree(w: World, acts: seq<Act>) {
    acts == [] || (CountsAgree(w, acts[..|acts| - 1])
                   && var before, a := AfterActs(w, acts[..|acts| - 1]), acts[|acts| - 1];
                      SavesFailure(before, a) ==> before.insts[a.i].failed == before.row.failed)
  }

  /** The stored count is the number of saved failures at every moment of a run if and only if each of
      them comes from such an instance. */
  lemma {:induction false} CountIsExactIff(w: World, acts: seq<Act>)
    ensures CountAlwaysExact(w, acts) <==> CountsAgree(w, acts)
  {
    if acts != [] { CountIsExactIff(w, acts[..|acts| - 1]); }
  }

  /** Without it there is no bound: `n` instances loaded from a usable row can all save a failure, and
      the count rises by one. */
  lemma {:induction false} StaleFailuresAreUnbounded(w: World, n: nat, now: int)
    requires n <= |w.insts| && (forall i :: 0 <= i < |w.insts| ==> w.insts[i] == w.row)
    requires IsUsable(w.row, now) && w.row.failed + 1 < w.row.maxAttempts
    ensures var acts := seq(n, i requires 0 <= i < n => Invoke(i, Fail, true, now));
      && FailuresOnRow(w, acts) == n
      && AfterActs(w, acts).row == w.row.(failed := if n == 0 then w.row.failed else w.row.failed + 1)
      && |AfterActs(w, acts).insts| == |w.insts| && forall i :: n <= i < |w.insts| ==> AfterActs(w, acts).insts[i] == w.row
  {
    var acts := seq(n, i requires 0 <= i < n => Invoke(i, Fail, true, now));
    if n > 0 {
      StaleFailuresAreUnbounded(w, n - 1, now);
      assert acts[..n - 1] == seq(n - 1, i requires 0 <= i < n - 1 => Invoke(i, Fail, true, now));
    }
  }
}
