/** Row-locked ledger posting. `PostLedgerEntry` is the body of one post run alone; the second
    half of the module interleaves the statements of any number of posts under row locks, a
    unique index on the reference, commits and rollbacks.

    Amounts are integer paise.
 */
module LedgerPosting {

  datatype Status = Active | Suspended | Closed

  datatype Account = Account(status: Status, balance: int)

  /** The arguments of one post. The entry type is a bare string: nothing on this path checks it. */
  datatype Request = Request(account: nat, entryType: string, amount: int, reference: string)

  /** The committed tables. Entries are keyed by their unique `reference_id`. */
  datatype Db = Db(accounts: map<nat, Account>, entries: map<string, Request>)

  datatype Failure = NoSuchAccount | NotActive | InsufficientFunds | NumericOverflow | DuplicateReference

  datatype Outcome = Posted(db: Db) | Refused(why: Failure)

  /** DecimalField(max_digits=14, decimal_places=2), in paise. */
  const LIMIT := 100_000_000_000_000

  predicate Fits(x: int) { -LIMIT < x < LIMIT }

  function Delta(r: Request): int {
    if r.entryType == "CREDIT" then r.amount else -r.amount
  }

  /** What one post does when it runs alone. */
  function SerialPost(db: Db, r: Request): Outcome {
    if r.account !in db.accounts then Refused(NoSuchAccount)
    else
      var account := db.accounts[r.account];
      if account.status != Active then Refused(NotActive)
      else if r.entryType == "DEBIT" && account.balance < r.amount then Refused(InsufficientFunds)
      else if !Fits(account.balance + Delta(r)) then Refused(NumericOverflow)
      else if r.reference in db.entries then Refused(DuplicateReference)
      else if !Fits(r.amount) then Refused(NumericOverflow)
      else Posted(Db(db.accounts[r.account := account.(balance := account.balance + Delta(r))],
                     db.entries[r.reference := r]))
  }

  /** When a post goes through, said about the tables and the request alone: the account exists, is
      active and covers a debit, amount and new balance have at most twelve digits of rupees, and the
      reference is new. */
  predicate MayPost(accounts: map<nat, Account>, entries: map<string, Request>, r: Request) {
    && r.account in accounts && accounts[r.account].status == Active
    && (r.entryType == "DEBIT" ==> r.amount <= accounts[r.account].balance)
    && -100_000_000_000_000 < r.amount < 100_000_000_000_000
    && -100_000_000_000_000 < NewBalance(accounts[r.account], r) < 100_000_000_000_000
    && r.reference !in entries
  }

  function NewBalance(account: Account, r: Request): int {
    if r.entryType == "CREDIT" then account.balance + r.amount else account.balance - r.amount
  }

  class Ledger {
    var accounts: map<nat, Account>
    var entries: map<string, Request>

    function Committed(): Db
      reads this
    {
      Db(accounts, entries)
    }

    /** The service function as one atomic block: the writes of a failing call are undone. */
    method PostLedgerEntry(r: Request) returns (failed: bool, why: Failure)
      modifies this
      ensures match SerialPost(old(Committed()), r)
              case Posted(db) => !failed && Committed() == db
              case Refused(f) => failed && why == f && Committed() == old(Committed())
      ensures failed <==> !MayPost(old(accounts), old(entries), r)
      ensures !failed ==>
        && entries == old(entries)[r.reference := r]
        && accounts == old(accounts)[r.account := Account(Active, NewBalance(old(accounts)[r.account], r))]
      ensures failed ==> match why
        case NoSuchAccount => r.account !in old(accounts)
        case NotActive => r.account in old(accounts) && old(accounts)[r.account].status != Active
        case InsufficientFunds => r.account in old(accounts) && r.entryType == "DEBIT" && old(accounts)[r.account].balance < r.amount
        case NumericOverflow => r.account in old(accounts) && !(-100_000_000_000_000 < r.amount < 100_000_000_000_000
                                && -100_000_000_000_000 < NewBalance(old(accounts)[r.account], r) < 100_000_000_000_000)
        case DuplicateReference => r.reference in old(entries)
    {
      var savepoint := accounts;
      failed, why := true, NoSuchAccount;
      if r.account !in accounts { return; }
      var account := accounts[r.account];
      if account.status != Active { why := NotActive; return; }
      if r.entryType == "DEBIT" && account.balance < r.amount { why := InsufficientFunds; return; }
      var delta := if r.entryType == "CREDIT" then r.amount else -r.amount;
      account := account.(balance := account.balance + delta);
      if !Fits(account.balance) { why := NumericOverflow; return; }
      accounts := accounts[r.account := account];
      if r.reference in entries || !Fits(r.amount) {
        why := if r.reference in entries then DuplicateReference else NumericOverflow;
        accounts := savepoint;
        return;
      }
      entries := entries[r.reference := r];
      failed := false;
    }
  }

  // ----- Serial runs -----

  /** The posts of `reqs` one after another, all of which must pass at their turn. */
  function SerialRun(db: Db, reqs: seq<Request>): Outcome {
    if reqs == [] then Posted(db) else
      match SerialRun(db, reqs[..|reqs| - 1])
      case Refused(f) => Refused(f)
      case Posted(now) => SerialPost(now, reqs[|reqs| - 1])
  }

  function Net(reqs: seq<Request>, a: nat): int {
    if reqs == [] then 0 else
      var last := reqs[|reqs| - 1];
      Net(reqs[..|reqs| - 1], a) + (if last.account == a then Delta(last) else 0)
  }

  /** The total of the entries of one type on one account. */
  function Total(reqs: seq<Request>, a: nat, entryType: string): int {
    if reqs == [] then 0 else
      var last := reqs[|reqs| - 1];
      Total(reqs[..|reqs| - 1], a, entryType)
      + (if last.account == a && last.entryType == entryType then last.amount else 0)
  }

  /** A request the field choices admit. */
  predicate KnownType(r: Request) { r.entryType == "CREDIT" || r.entryType == "DEBIT" }

  /** A request that cannot take a non-negative balance below zero. */
  predicate Harmless(r: Request) {
    if r.entryType == "DEBIT" then true
    else if r.entryType == "CREDIT" then r.amount >= 0
    else r.amount <= 0
  }

  /** After a serial run every balance has moved by exactly its posted entries; nothing else about
      an account changes. */
  lemma {:induction false} SerialRunBalances(db: Db, reqs: seq<Request>)
    requires SerialRun(db, reqs).Posted?
    ensures var now := SerialRun(db, reqs).db;
            && now.accounts.Keys == db.accounts.Keys
            && forall a <- db.accounts :: now.accounts[a] == db.accounts[a].(balance := db.accounts[a].balance + Net(reqs, a))
  {
    if reqs != [] {
      SerialRunBalances(db, reqs[..|reqs| - 1]);
    }
  }

  /** After a serial run the new entries are exactly the requests of the run, under references that
      are distinct and were not taken before. */
  lemma {:induction false} SerialRunEntries(db: Db, reqs: seq<Request>)
    requires SerialRun(db, reqs).Posted?
    ensures var entries := SerialRun(db, reqs).db.entries;
            && |entries| == |db.entries| + |reqs|
            && (forall k <- db.entries :: k in entries && entries[k] == db.entries[k])
            && (forall i :: 0 <= i < |reqs| ==> reqs[i].reference !in db.entries)
            && (forall i :: 0 <= i < |reqs| ==> reqs[i].reference in entries && entries[reqs[i].reference] == reqs[i])
            && (forall i, j :: 0 <= i < j < |reqs| ==> reqs[i].reference != reqs[j].reference)
  {
    if reqs != [] {
      var init := reqs[..|reqs| - 1];
      SerialRunEntries(db, init);
      var before, after := SerialRun(db, init).db.entries, SerialRun(db, reqs).db.entries;
      OneMoreEntry(db.entries, init, before, reqs, after);
    }
  }

  lemma OneMoreEntry(start: map<string, Request>, init: seq<Request>, before: map<string, Request>, reqs: seq<Request>, after: map<string, Request>)
    requires reqs != [] && init == reqs[..|reqs| - 1]
    requires var last := reqs[|reqs| - 1]; last.reference !in before && after == before[last.reference := last]
    requires forall k <- start :: k in before && before[k] == start[k]
    requires forall i :: 0 <= i < |init| ==> init[i].reference !in start
    requires forall i :: 0 <= i < |init| ==> init[i].reference in before && before[init[i].reference] == init[i]
    requires forall i, j :: 0 <= i < j < |init| ==> init[i].reference != init[j].reference
    ensures |after| == |before| + 1
    ensures forall k <- start :: k in after && after[k] == start[k]
    ensures forall i :: 0 <= i < |reqs| ==> reqs[i].reference !in start
    ensures forall i :: 0 <= i < |reqs| ==> reqs[i].reference in after && after[reqs[i].reference] == reqs[i]
    ensures forall i, j :: 0 <= i < j < |reqs| ==> reqs[i].reference != reqs[j].reference
  {
    forall i | 0 <= i < |init| ensures reqs[i] == init[i] && reqs[i].reference in before {}
  }

  /** With the two choices of entry type, the movement of an account is its credits minus its debits. */
  lemma {:induction false} NetIsCreditsMinusDebits(reqs: seq<Request>, a: nat)
    requires forall r <- reqs :: KnownType(r)
    ensures Net(reqs, a) == Total(reqs, a, "CREDIT") - Total(reqs, a, "DEBIT")
  {
    if reqs != [] {
      assert KnownType(reqs[|reqs| - 1]);
      NetIsCreditsMinusDebits(reqs[..|reqs| - 1], a);
    }
  }

  ghost predicate NoOverdraft(db: Db) { forall a <- db.accounts :: db.accounts[a].balance >= 0 }

  /** Exactly the harmless requests keep every non-negative balance non-negative. */
  lemma HarmlessIsExact(r: Request)
    requires Fits(r.amount)
    ensures Harmless(r) <==>
      forall db: Db :: NoOverdraft(db) && SerialPost(db, r).Posted? ==> NoOverdraft(SerialPost(db, r).db)
  {
    if !Harmless(r) {
      var db := Db(map[r.account := Account(Active, 0)], map[]);
      assert NoOverdraft(db) && SerialPost(db, r).Posted?;
      assert SerialPost(db, r).db.accounts[r.account].balance < 0;
    }
  }

  lemma {:induction false} SerialRunNeverOverdraws(db: Db, reqs: seq<Request>)
    requires NoOverdraft(db) && SerialRun(db, reqs).Posted? && forall r <- reqs :: Harmless(r)
    ensures NoOverdraft(SerialRun(db, reqs).db)
  {
    if reqs != [] {
      SerialRunNeverOverdraws(db, reqs[..|reqs| - 1]);
      assert Harmless(reqs[|reqs| - 1]);
    }
  }

  // ----- The interleaved protocol -----

  /** How far a transaction has come: waiting for its row lock, row read, checks passed, balance
      written (uncommitted), entry inserted (uncommitted), and the three ways to end. */
  datatype Phase =
    | Begin
    | Locked(seen: Account)
    | Checked(seen: Account)
    | Updated(pending: int)
    | Inserted(pending: int)
    | Committed
    | Aborted(why: Failure)
    | RolledBack

  datatype Txn = Txn(req: Request, phase: Phase)

  /** The committed tables, the transactions, who holds which account row, who has an uncommitted
      entry under which reference, and the transactions in the order they committed. */
  datatype State = State(db: Db, txns: seq<Txn>, rowLocks: map<nat, nat>, keyLocks: map<string, nat>, log: seq<nat>)

  datatype Step = Proceed(t: nat) | Rollback(t: nat)

  predicate Finished(p: Phase) { p.Committed? || p.Aborted? || p.RolledBack? }

  predicate HoldsRow(p: Phase) { p.Locked? || p.Checked? || p.Updated? || p.Inserted? }

  function Without<K>(locks: map<K, nat>, t: nat): map<K, nat> {
    map k <- locks | locks[k] != t :: locks[k]
  }

  /** Ending a transaction releases everything it holds. */
  function End(s: State, t: nat, phase: Phase): State
    requires t < |s.txns|
  {
    s.(txns := s.txns[t := s.txns[t].(phase := phase)],
       rowLocks := Without(s.rowLocks, t),
       keyLocks := Without(s.keyLocks, t))
  }

  function Move(s: State, t: nat, phase: Phase): State
    requires t < |s.txns|
  {
    s.(txns := s.txns[t := s.txns[t].(phase := phase)])
  }

  /** Whether transaction `t` must wait: for the row lock of its account, or for the uncommitted
      entry of another transaction under its own reference. */
  predicate Waits(s: State, t: nat) {
    t < |s.txns| &&
    var r := s.txns[t].req;
    match s.txns[t].phase
    case Begin => r.account in s.db.accounts && r.account in s.rowLocks
    case Updated(_) => r.reference !in s.db.entries && Fits(r.amount) && r.reference in s.keyLocks
    case _ => false
  }

  predicate Enabled(s: State, step: Step) {
    step.t < |s.txns| && !Finished(s.txns[step.t].phase) && (step.Proceed? ==> !Waits(s, step.t))
  }

  /** The next statement of transaction `t`. */
  function Advance(s: State, t: nat): State
    requires Enabled(s, Proceed(t))
  {
    var r := s.txns[t].req;
    match s.txns[t].phase
    case Begin =>
      if r.account !in s.db.accounts then End(s, t, Aborted(NoSuchAccount))
      else Move(s, t, Locked(s.db.accounts[r.account])).(rowLocks := s.rowLocks[r.account := t])
    case Locked(seen) =>
      if seen.status != Active then End(s, t, Aborted(NotActive))
      else if r.entryType == "DEBIT" && seen.balance < r.amount then End(s, t, Aborted(InsufficientFunds))
      else Move(s, t, Checked(seen))
    case Checked(seen) =>
      if !Fits(seen.balance + Delta(r)) then End(s, t, Aborted(NumericOverflow))
      else Move(s, t, Updated(seen.balance + Delta(r)))
    case Updated(pending) =>
      if r.reference in s.db.entries then End(s, t, Aborted(DuplicateReference))
      else if !Fits(r.amount) then End(s, t, Aborted(NumericOverflow))
      else Move(s, t, Inserted(pending)).(keyLocks := s.keyLocks[r.reference := t])
    case Inserted(pending) =>
      var accounts := if r.account in s.db.accounts
                      then s.db.accounts[r.account := s.db.accounts[r.account].(balance := pending)]
                      else s.db.accounts;
      End(s, t, Committed).(db := Db(accounts, s.db.entries[r.reference := r]), log := s.log + [t])
    case _ => s
  }

  /** One scheduling decision; an impossible one changes nothing. */
  function Apply(s: State, step: Step): State {
    if !Enabled(s, step) then s
    else match step case Proceed(t) => Advance(s, t) case Rollback(t) => End(s, t, RolledBack)
  }

  function Execute(s: State, schedule: seq<Step>): State {
    if schedule == [] then s else Apply(Execute(s, schedule[..|schedule| - 1]), schedule[|schedule| - 1])
  }

  predicate Initial(s: State) {
    (forall t <- s.txns :: t.phase == Begin) && s.rowLocks == map[] && s.keyLocks == map[] && s.log == []
  }

  // ----- What every step keeps -----

  /** What a transaction knows about the committed tables while it holds its row. */
  predicate Consistent(s: State, t: nat) {
    t < |s.txns| && HoldsRow(s.txns[t].phase) ==>
      && var r, p := s.txns[t].req, s.txns[t].phase;
      && r.account in s.rowLocks && s.rowLocks[r.account] == t && r.account in s.db.accounts
      && var account := s.db.accounts[r.account];
         && (p.Locked? || p.Checked? ==> p.seen == account)
         && (!p.Locked? ==> account.status == Active && !(r.entryType == "DEBIT" && account.balance < r.amount))
         && (p.Updated? || p.Inserted? ==> p.pending == account.balance + Delta(r) && Fits(p.pending))
         && (p.Inserted? ==> r.reference !in s.db.entries && Fits(r.amount)
                             && r.reference in s.keyLocks && s.keyLocks[r.reference] == t)
  }

  ghost predicate LocksOwned(s: State) {
    && (forall a <- s.rowLocks :: s.rowLocks[a] < |s.txns| && HoldsRow(s.txns[s.rowLocks[a]].phase) && s.txns[s.rowLocks[a]].req.account == a)
    && (forall k <- s.keyLocks :: s.keyLocks[k] < |s.txns| && s.txns[s.keyLocks[k]].phase.Inserted? && s.txns[s.keyLocks[k]].req.reference == k)
  }

  ghost predicate LogExact(s: State) {
    && (forall i :: 0 <= i < |s.log| ==> s.log[i] < |s.txns| && s.txns[s.log[i]].phase.Committed?)
    && (forall t :: 0 <= t < |s.txns| && s.txns[t].phase.Committed? ==> t in s.log)
    && (forall i, j :: 0 <= i < j < |s.log| ==> s.log[i] != s.log[j])
  }

  ghost predicate Inv(s: State) {
    (forall t :: 0 <= t < |s.txns| ==> Consistent(s, t)) && LocksOwned(s) && LogExact(s)
  }

  /** A step is invisible in the committed tables, or it is the commit of one transaction and does
      there exactly what that post does alone. A transaction that aborts is one that would be
      refused, for the same reason, if it ran alone on the tables committed at that moment. */
  lemma StepRefinesSerialPost(s: State, step: Step)
    requires Inv(s) && Enabled(s, step)
    ensures var s', t := Apply(s, step), step.t;
      if s'.txns[t].phase.Committed?
      then SerialPost(s.db, s.txns[t].req) == Posted(s'.db) && s'.log == s.log + [t]
      else s'.db == s.db && s'.log == s.log
           && (s'.txns[t].phase.Aborted? ==> SerialPost(s.db, s.txns[t].req) == Refused(s'.txns[t].phase.why))
  {
    assert Consistent(s, step.t);
  }

  /** What a step of `t` leaves alone: the locks of others, every account row but the one it has
      locked, and every entry but the one under the reference it has locked. */
  lemma StepFrame(s: State, step: Step)
    requires Enabled(s, step) && Consistent(s, step.t)
    ensures var s', t, r := Apply(s, step), step.t, s.txns[step.t].req;
      && (forall a <- s.rowLocks :: s.rowLocks[a] != t ==> a in s'.rowLocks && s'.rowLocks[a] == s.rowLocks[a])
      && (forall k <- s.keyLocks :: s.keyLocks[k] != t ==> k in s'.keyLocks && s'.keyLocks[k] == s.keyLocks[k])
      && (s'.db == s.db || (s.txns[t].phase.Inserted?
            && s'.db.accounts == s.db.accounts[r.account := s.db.accounts[r.account].(balance := s.txns[t].phase.pending)]
            && s'.db.entries == s.db.entries[r.reference := r]))
  {
  }

  /** Only the account and reference of the committing transaction change, and it alone held them. */
  lemma StepKeepsOthers(s: State, step: Step, u: nat)
    requires Inv(s) && Enabled(s, step) && u < |s.txns| && u != step.t
    ensures Consistent(Apply(s, step), u)
  {
    assert Consistent(s, u) && Consistent(s, step.t);
    StepFrame(s, step);
    StepShape(s, step);
  }

  /** A transaction takes its row lock first and gives it up at its end. */
  lemma StepRowLocks(s: State, step: Step)
    requires Enabled(s, step)
    ensures var s', t := Apply(s, step), step.t;
      s'.rowLocks == if Finished(s'.txns[t].phase) then Without(s.rowLocks, t)
                     else if s'.txns[t].phase.Locked? then s.rowLocks[s.txns[t].req.account := t] else s.rowLocks
  {
  }

  /** It takes its reference with the insert and gives it up at its end. */
  lemma StepKeyLocks(s: State, step: Step)
    requires Enabled(s, step)
    ensures var s', t := Apply(s, step), step.t;
      s'.keyLocks == if Finished(s'.txns[t].phase) then Without(s.keyLocks, t)
                     else if s'.txns[t].phase.Inserted? then s.keyLocks[s.txns[t].req.reference := t] else s.keyLocks
  {
  }

  lemma StepKeepsLocks(s: State, step: Step)
    requires Inv(s) && Enabled(s, step)
    ensures LocksOwned(Apply(s, step))
  {
    StepRowLocks(s, step);
    StepKeyLocks(s, step);
    StepShape(s, step);
    var s' := Apply(s, step);
    forall a | a in s'.rowLocks ensures HoldsRow(s'.txns[s'.rowLocks[a]].phase) && s'.txns[s'.rowLocks[a]].req.account == a {}
  }

  /** A step moves one transaction forward, and the log records the step if it is a commit. */
  lemma StepShape(s: State, step: Step)
    requires Enabled(s, step)
    ensures var s', t := Apply(s, step), step.t;
      && s'.txns == s.txns[t := s.txns[t].(phase := s'.txns[t].phase)]
      && Remaining(s'.txns[t].phase) < Remaining(s.txns[t].phase)
      && s'.log == if s'.txns[t].phase.Committed? then s.log + [t] else s.log
  {
    match step
    case Rollback(t) =>
    case Proceed(t) =>
      match s.txns[t].phase
      case Begin => case Locked(_) => case Checked(_) => case Updated(_) => case Inserted(_) =>
  }

  lemma StepKeepsLog(s: State, s': State, t: nat)
    requires LogExact(s) && t < |s.txns| && !s.txns[t].phase.Committed?
    requires t < |s'.txns| && s'.txns == s.txns[t := s.txns[t].(phase := s'.txns[t].phase)]
    requires s'.log == if s'.txns[t].phase.Committed? then s.log + [t] else s.log
    ensures LogExact(s')
  {
    forall u | 0 <= u < |s.txns| && s'.txns[u].phase.Committed? ensures u in s'.log {
      assert u == t || u in s.log;
    }
  }

  lemma StepKeepsInv(s: State, step: Step)
    requires Inv(s) && Enabled(s, step)
    ensures Inv(Apply(s, step))
  {
    assert Consistent(s, step.t);
    forall u | 0 <= u < |s.txns| && u != step.t ensures Consistent(Apply(s, step), u) {
      StepKeepsOthers(s, step, u);
    }
    StepKeepsOwn(s, step);
    StepKeepsLocks(s, step);
    StepShape(s, step);
    StepKeepsLog(s, Apply(s, step), step.t);
  }

  lemma StepKeepsOwn(s: State, step: Step)
    requires Inv(s) && Enabled(s, step)
    ensures Consistent(Apply(s, step), step.t)
  {
    assert Consistent(s, step.t);
  }

  // ----- Theorems about every schedule -----

  /** The requests of the transactions `ts`, in that order. */
  function Requests(txns: seq<Txn>, ts: seq<nat>): (reqs: seq<Request>)
    requires forall i :: 0 <= i < |ts| ==> ts[i] < |txns|
    ensures |reqs| == |ts|
  {
    seq(|ts|, i requires 0 <= i < |ts| => txns[ts[i]].req)
  }

  /** Serialisability: whatever the schedule, the committed tables are those of running the
      committed posts alone, one after another, in commit order, each passing at its turn. */
  lemma {:induction false} Serialisable(s0: State, schedule: seq<Step>)
    requires Initial(s0)
    ensures var s := Execute(s0, schedule);
      && Inv(s) && |s.txns| == |s0.txns|
      && (forall t :: 0 <= t < |s.txns| ==> s.txns[t].req == s0.txns[t].req)
      && SerialRun(s0.db, Requests(s0.txns, s.log)) == Posted(s.db)
  {
    if schedule == [] {
      assert Requests(s0.txns, s0.log) == [];
    } else {
      var init, step := schedule[..|schedule| - 1], schedule[|schedule| - 1];
      Serialisable(s0, init);
      var before := Execute(s0, init);
      if Enabled(before, step) {
        StepKeepsInv(before, step);
        StepShape(before, step);
        StepRefinesSerialPost(before, step);
        if Apply(before, step).txns[step.t].phase.Committed? {
          CommitExtendsRun(s0, before.log, step.t, before.db);
        }
      }
    }
  }

  lemma CommitExtendsRun(s0: State, log: seq<nat>, t: nat, db: Db)
    requires t < |s0.txns| && forall i :: 0 <= i < |log| ==> log[i] < |s0.txns|
    requires SerialRun(s0.db, Requests(s0.txns, log)) == Posted(db)
    ensures SerialRun(s0.db, Requests(s0.txns, log + [t])) == SerialPost(db, s0.txns[t].req)
  {
    assert Requests(s0.txns, log + [t])[..|log|] == Requests(s0.txns, log);
  }

  /** Conservation and safety for every schedule of field-valid posts on accounts that open at
      zero: each balance is its committed credits minus its committed debits, and never negative. */
  lemma BalancesMatchEntries(s0: State, schedule: seq<Step>)
    requires Initial(s0) && (forall a <- s0.db.accounts :: s0.db.accounts[a].balance == 0)
    requires forall t <- s0.txns :: KnownType(t.req) && t.req.amount > 0
    ensures var s := Execute(s0, schedule);
      && (forall i :: 0 <= i < |s.log| ==> s.log[i] < |s0.txns|)
      && s.db.accounts.Keys == s0.db.accounts.Keys
      && forall a <- s.db.accounts :: s.db.accounts[a].balance >= 0
           && s.db.accounts[a].balance == Total(Requests(s0.txns, s.log), a, "CREDIT") - Total(Requests(s0.txns, s.log), a, "DEBIT")
  {
    Serialisable(s0, schedule);
    var s := Execute(s0, schedule);
    var reqs := Requests(s0.txns, s.log);
    RequestsAre(s0.txns, s.log);
    SerialBalancesMatch(s0.db, reqs);
  }

  lemma RequestsAre(txns: seq<Txn>, ts: seq<nat>)
    requires forall i :: 0 <= i < |ts| ==> ts[i] < |txns|
    requires forall t <- txns :: KnownType(t.req) && t.req.amount > 0
    ensures forall r <- Requests(txns, ts) :: KnownType(r) && r.amount > 0
  {
    forall i | 0 <= i < |ts| ensures KnownType(Requests(txns, ts)[i]) && Requests(txns, ts)[i].amount > 0 {
      assert txns[ts[i]] in txns;
    }
  }

  lemma SerialBalancesMatch(db: Db, reqs: seq<Request>)
    requires SerialRun(db, reqs).Posted? && (forall a <- db.accounts :: db.accounts[a].balance == 0)
    requires forall r <- reqs :: KnownType(r) && r.amount > 0
    ensures var now := SerialRun(db, reqs).db;
      && now.accounts.Keys == db.accounts.Keys
      && forall a <- now.accounts :: now.accounts[a].balance >= 0
           && now.accounts[a].balance == Total(reqs, a, "CREDIT") - Total(reqs, a, "DEBIT")
  {
    SerialRunBalances(db, reqs);
    SerialRunNeverOverdraws(db, reqs);
    forall a ensures Net(reqs, a) == Total(reqs, a, "CREDIT") - Total(reqs, a, "DEBIT") {
      NetIsCreditsMinusDebits(reqs, a);
    }
  }

  /** The entry table of every schedule is exactly its committed posts, and of any transactions
      that carry the same reference at most one commits. */
  lemma EntriesAreCommittedPosts(s0: State, schedule: seq<Step>)
    requires Initial(s0) && s0.db.entries == map[]
    ensures var s := Execute(s0, schedule);
      && (forall i :: 0 <= i < |s.log| ==> s.log[i] < |s.txns| == |s0.txns|)
      && |s.db.entries| == |s.log|
      && (forall t :: 0 <= t < |s.txns| && s.txns[t].phase.Committed? ==>
            s.txns[t].req.reference in s.db.entries && s.db.entries[s.txns[t].req.reference] == s.txns[t].req)
      && (forall t, u :: 0 <= t < u < |s.txns| && s.txns[t].phase.Committed? && s.txns[u].phase.Committed? ==>
            s.txns[t].req.reference != s.txns[u].req.reference)
  {
    Serialisable(s0, schedule);
    var s := Execute(s0, schedule);
    var reqs := Requests(s0.txns, s.log);
    SerialRunEntries(s0.db, reqs);
    forall t | 0 <= t < |s.txns| && s.txns[t].phase.Committed?
      ensures exists i :: 0 <= i < |s.log| && s.log[i] == t && reqs[i] == s.txns[t].req {
      assert t in s.log;
    }
  }

  /** No deadlock: while a transaction is unfinished, some unfinished transaction can proceed
      without any rollback. */
  lemma NoDeadlock(s: State) returns (t: nat)
    requires Inv(s) && exists u :: 0 <= u < |s.txns| && !Finished(s.txns[u].phase)
    ensures Enabled(s, Proceed(t))
  {
    var u: nat :| u < |s.txns| && !Finished(s.txns[u].phase);
    t := u;
    if Waits(s, t) && s.txns[t].phase.Begin? {
      t := s.rowLocks[s.txns[t].req.account];
    }
    if Waits(s, t) {
      t := s.keyLocks[s.txns[t].req.reference];
    }
  }

  /** Statements still to run before a transaction has certainly finished. */
  function Remaining(p: Phase): nat {
    match p case Begin => 5 case Locked(_) => 4 case Checked(_) => 3 case Updated(_) => 2 case Inserted(_) => 1 case _ => 0
  }

  function Work(txns: seq<Txn>): nat {
    if txns == [] then 0 else Work(txns[..|txns| - 1]) + Remaining(txns[|txns| - 1].phase)
  }

  lemma {:induction false} WorkDrops(txns: seq<Txn>, t: nat, p: Phase)
    requires t < |txns|
    ensures Work(txns[t := txns[t].(phase := p)]) == Work(txns) - Remaining(txns[t].phase) + Remaining(p)
  {
    var init := txns[..|txns| - 1];
    var txns' := txns[t := txns[t].(phase := p)];
    if t < |init| {
      assert txns'[..|txns| - 1] == init[t := init[t].(phase := p)];
      WorkDrops(init, t, p);
    } else {
      assert txns'[..|txns| - 1] == init;
    }
  }

  lemma {:induction false} WorkBound(txns: seq<Txn>)
    ensures Work(txns) <= 5 * |txns|
    ensures Work(txns) == 0 <==> forall t <- txns :: Finished(t.phase)
  {
    if txns != [] {
      var init, last := txns[..|txns| - 1], txns[|txns| - 1];
      WorkBound(init);
      assert txns == init + [last];
    }
  }

  /** How many scheduling decisions of a run did something. */
  function Effective(s: State, schedule: seq<Step>): nat {
    if schedule == [] then 0 else
      var init := schedule[..|schedule| - 1];
      Effective(s, init) + (if Enabled(Execute(s, init), schedule[|schedule| - 1]) then 1 else 0)
  }

  /** Every schedule does at most five effective steps per transaction. */
  lemma {:induction false} EveryRunFinishes(s0: State, schedule: seq<Step>)
    requires Initial(s0)
    ensures Effective(s0, schedule) + Work(Execute(s0, schedule).txns) <= 5 * |s0.txns|
  {
    WorkBound(s0.txns);
    if schedule != [] {
      var init, step := schedule[..|schedule| - 1], schedule[|schedule| - 1];
      EveryRunFinishes(s0, init);
      var before := Execute(s0, init);
      if Enabled(before, step) {
        StepShape(before, step);
        WorkDrops(before.txns, step.t, Apply(before, step).txns[step.t].phase);
      }
    }
  }

  predicate AllFinished(s: State) { forall t :: 0 <= t < |s.txns| ==> Finished(s.txns[t].phase) }

  /** A schedule that cannot be continued has finished every transaction. */
  lemma NothingLeftMeansFinished(s0: State, schedule: seq<Step>)
    requires Initial(s0)
    ensures (forall t: nat :: !Enabled(Execute(s0, schedule), Proceed(t))) <==> AllFinished(Execute(s0, schedule))
  {
    var s := Execute(s0, schedule);
    Serialisable(s0, schedule);
    if !AllFinished(s) {
      var t := NoDeadlock(s);
    }
  }

  /** From wherever a schedule has come, choosing possible steps finishes every transaction, without
      any further rollback and within five decisions per transaction altogether. */
  lemma {:induction false} PossibleStepsFinishAll(s0: State, schedule: seq<Step>) returns (full: seq<Step>)
    requires Initial(s0)
    ensures schedule <= full && AllFinished(Execute(s0, full)) && forall step <- full[|schedule|..] :: step.Proceed?
    ensures Effective(s0, full) == Effective(s0, schedule) + |full| - |schedule| <= 5 * |s0.txns|
    decreases 5 * |s0.txns| - Effective(s0, schedule)
  {
    EveryRunFinishes(s0, schedule);
    full := schedule;
    if !AllFinished(Execute(s0, schedule)) {
      var next := NextStep(s0, schedule);
      EveryRunFinishes(s0, next);
      full := PossibleStepsFinishAll(s0, next);
      assert full[|schedule|..] == [next[|schedule|]] + full[|next|..];
    }
  }

  lemma NextStep(s0: State, schedule: seq<Step>) returns (next: seq<Step>)
    requires Initial(s0) && !AllFinished(Execute(s0, schedule))
    ensures |next| == |schedule| + 1 && schedule <= next && next[|schedule|].Proceed?
    ensures Effective(s0, next) == Effective(s0, schedule) + 1
  {
    Serialisable(s0, schedule);
    var t := NoDeadlock(Execute(s0, schedule));
    next := schedule + [Proceed(t)];
    assert next[..|next| - 1] == schedule;
  }

  // ----- Credits always go through -----

  /** The same for a post that runs alone in the middle of a run. */
  lemma PostedIffMayPost(db: Db, r: Request)
    ensures SerialPost(db, r).Posted? <==> MayPost(db.accounts, db.entries, r)
  {
  }

  function AllRequests(txns: seq<Txn>): seq<Request> { seq(|txns|, i requires 0 <= i < |txns| => txns[i].req) }

  /** What the requests outside `used` add to an account. */
  function Rest(txns: seq<Txn>, used: set<nat>, a: nat): int {
    if txns == [] then 0 else
      var t := |txns| - 1;
      Rest(txns[..t], used, a) + (if t !in used && txns[t].req.account == a then Delta(txns[t].req) else 0)
  }

  lemma {:induction false} RestDrops(txns: seq<Txn>, used: set<nat>, t: nat, a: nat)
    requires t < |txns| && t !in used
    ensures Rest(txns, used + {t}, a) == Rest(txns, used, a) - (if txns[t].req.account == a then Delta(txns[t].req) else 0)
  {
    if t < |txns| - 1 {
      RestDrops(txns[..|txns| - 1], used, t, a);
    } else {
      RestIgnores(txns[..t], used, t, a);
    }
  }

  lemma {:induction false} RestIgnores(txns: seq<Txn>, used: set<nat>, t: nat, a: nat)
    requires |txns| <= t
    ensures Rest(txns, used + {t}, a) == Rest(txns, used, a)
  {
    if txns != [] { RestIgnores(txns[..|txns| - 1], used, t, a); }
  }

  function Used(ts: seq<nat>): set<nat> { set t <- ts }

  lemma UsedGrows(txns: seq<Txn>, ts: seq<nat>, a: nat)
    requires ts != [] && (forall i :: 0 <= i < |ts| ==> ts[i] < |txns|) && forall i, j :: 0 <= i < j < |ts| ==> ts[i] != ts[j]
    ensures var init, last := ts[..|ts| - 1], ts[|ts| - 1];
      && Used(ts) == Used(init) + {last} && last !in Used(init)
      && Net(Requests(txns, ts), a) == Net(Requests(txns, init), a) + (if txns[last].req.account == a then Delta(txns[last].req) else 0)
  {
    var init := ts[..|ts| - 1];
    assert ts == init + [ts[|ts| - 1]];
    assert Requests(txns, ts)[..|init|] == Requests(txns, init);
  }

  lemma {:induction false} NetPlusRest(txns: seq<Txn>, ts: seq<nat>, a: nat)
    requires (forall i :: 0 <= i < |ts| ==> ts[i] < |txns|) && forall i, j :: 0 <= i < j < |ts| ==> ts[i] != ts[j]
    ensures Net(Requests(txns, ts), a) + Rest(txns, Used(ts), a) == Rest(txns, {}, a)
  {
    if ts == [] {
      assert Used(ts) == {};
    } else {
      UsedGrows(txns, ts, a);
      NetPlusRest(txns, ts[..|ts| - 1], a);
      RestDrops(txns, Used(ts[..|ts| - 1]), ts[|ts| - 1], a);
    }
  }

  lemma {:induction false} CreditsOnly(txns: seq<Txn>, used: set<nat>, a: nat)
    requires forall t <- txns :: t.req.entryType == "CREDIT" && t.req.amount > 0
    ensures 0 <= Rest(txns, used, a) && Rest(txns, {}, a) == Total(AllRequests(txns), a, "CREDIT")
  {
    if txns != [] {
      var init := txns[..|txns| - 1];
      assert txns[|txns| - 1] in txns && forall t <- init :: t in txns;
      CreditsOnly(init, used, a);
      assert AllRequests(txns)[..|init|] == AllRequests(init);
    }
  }

  /** Credits on active accounts, under new and different references, that all together stay in range. */
  ghost predicate GoodCredits(s0: State) {
    && Initial(s0)
    && (forall t <- s0.txns :: t.req.entryType == "CREDIT" && t.req.amount > 0)
    && (forall t <- s0.txns :: t.req.account in s0.db.accounts && s0.db.accounts[t.req.account].status == Active && t.req.reference !in s0.db.entries)
    && (forall t, u :: 0 <= t < u < |s0.txns| ==> s0.txns[t].req.reference != s0.txns[u].req.reference)
    && (forall a <- s0.db.accounts :: 0 <= s0.db.accounts[a].balance
          && s0.db.accounts[a].balance + Total(AllRequests(s0.txns), a, "CREDIT") < 100_000_000_000_000)
  }

  lemma CreditFits(s0: State, log: seq<nat>, t: nat)
    requires GoodCredits(s0) && t < |s0.txns| && t !in log
    requires (forall i :: 0 <= i < |log| ==> log[i] < |s0.txns|) && forall i, j :: 0 <= i < j < |log| ==> log[i] != log[j]
    ensures var r := s0.txns[t].req;
      && 0 <= s0.db.accounts[r.account].balance + Net(Requests(s0.txns, log), r.account)
      && s0.db.accounts[r.account].balance + Net(Requests(s0.txns, log), r.account) + r.amount < 100_000_000_000_000
  {
    var r, used := s0.txns[t].req, Used(log);
    assert s0.txns[t] in s0.txns;
    NetPlusRest(s0.txns, log, r.account);
    RestDrops(s0.txns, used, t, r.account);
    CreditsOnly(s0.txns, used + {t}, r.account);
    CreditRun(Requests(s0.txns, log), r.account);
  }

  lemma {:induction false} CreditRun(reqs: seq<Request>, a: nat)
    requires forall i :: 0 <= i < |reqs| ==> reqs[i].entryType == "CREDIT" && reqs[i].amount > 0
    ensures Net(reqs, a) >= 0
  {
    if reqs != [] { CreditRun(reqs[..|reqs| - 1], a); }
  }

  /** Whatever has been committed, such a credit that is not yet committed would go through. */
  lemma GoodCreditMayPost(s0: State, schedule: seq<Step>, t: nat)
    requires GoodCredits(s0) && t < |s0.txns|
    ensures var s := Execute(s0, schedule); |s.txns| == |s0.txns| && (t !in s.log ==> MayPost(s.db.accounts, s.db.entries, s0.txns[t].req))
  {
    Serialisable(s0, schedule);
    var s := Execute(s0, schedule);
    if t !in s.log {
      var r, reqs := s0.txns[t].req, Requests(s0.txns, s.log);
      assert s0.txns[t] in s0.txns;
      SerialRunBalances(s0.db, reqs);
      CreditFits(s0, s.log, t);
      FreeReference(s0, s.log, t);
    }
  }

  lemma FreeReference(s0: State, log: seq<nat>, t: nat)
    requires GoodCredits(s0) && t < |s0.txns| && t !in log && forall i :: 0 <= i < |log| ==> log[i] < |s0.txns|
    requires SerialRun(s0.db, Requests(s0.txns, log)).Posted?
    ensures s0.txns[t].req.reference !in SerialRun(s0.db, Requests(s0.txns, log)).db.entries
  {
    var reqs := Requests(s0.txns, log);
    assert s0.txns[t] in s0.txns;
    forall i | 0 <= i < |reqs| ensures reqs[i].reference != s0.txns[t].req.reference {
      assert log[i] in log;
      assert log[i] < t || t < log[i];
    }
    OnlyTheseEntries(s0.db, reqs, s0.txns[t].req.reference);
  }

  lemma {:induction false} OnlyTheseEntries(db: Db, reqs: seq<Request>, k: string)
    requires SerialRun(db, reqs).Posted? && k !in db.entries && forall i :: 0 <= i < |reqs| ==> reqs[i].reference != k
    ensures k !in SerialRun(db, reqs).db.entries
  {
    if reqs != [] { OnlyTheseEntries(db, reqs[..|reqs| - 1], k); }
  }

  predicate NoneRefused(s: State) { forall t :: 0 <= t < |s.txns| ==> !s.txns[t].phase.Aborted? && !s.txns[t].phase.RolledBack? }

  /** No schedule without rollbacks ever refuses one of them, */
  lemma {:induction false} NoCreditIsRefused(s0: State, schedule: seq<Step>)
    requires GoodCredits(s0) && forall step <- schedule :: step.Proceed?
    ensures NoneRefused(Execute(s0, schedule))
  {
    if schedule == [] {
      assert forall t :: 0 <= t < |s0.txns| ==> s0.txns[t] in s0.txns;
    } else {
      var init, step := schedule[..|schedule| - 1], schedule[|schedule| - 1];
      assert step in schedule && forall x <- init :: x in schedule;
      NoCreditIsRefused(s0, init);
      Serialisable(s0, init);
      if Enabled(Execute(s0, init), step) {
        assert !Finished(Execute(s0, init).txns[step.t].phase);
        GoodCreditMayPost(s0, init, step.t);
        GoodStepIsNotRefused(Execute(s0, init), step);
      }
    }
  }

  lemma GoodStepIsNotRefused(s: State, step: Step)
    requires Inv(s) && Enabled(s, step) && step.Proceed? && NoneRefused(s) && MayPost(s.db.accounts, s.db.entries, s.txns[step.t].req)
    ensures NoneRefused(Apply(s, step))
  {
    StepShape(s, step);
    StepRefinesSerialPost(s, step);
    PostedIffMayPost(s.db, s.txns[step.t].req);
  }

  /** so once such a schedule has finished, every one of them is committed and on its account. */
  lemma EveryCreditCommits(s0: State, schedule: seq<Step>)
    requires GoodCredits(s0) && (forall step <- schedule :: step.Proceed?) && AllFinished(Execute(s0, schedule))
    ensures var s := Execute(s0, schedule);
      && |s.txns| == |s0.txns|
      && forall t :: 0 <= t < |s.txns| ==>
           (s.txns[t].phase.Committed? && s0.txns[t].req.reference in s.db.entries && s.db.entries[s0.txns[t].req.reference] == s0.txns[t].req)
  {
    NoCreditIsRefused(s0, schedule);
    Serialisable(s0, schedule);
    var s := Execute(s0, schedule);
    SerialRunEntries(s0.db, Requests(s0.txns, s.log));
    forall t | 0 <= t < |s.txns| ensures s.txns[t].phase.Committed?
      && s0.txns[t].req.reference in s.db.entries && s.db.entries[s0.txns[t].req.reference] == s0.txns[t].req
    {
      assert Finished(s.txns[t].phase);
      assert t in s.log;
      var i :| 0 <= i < |s.log| && s.log[i] == t;
      assert Requests(s0.txns, s.log)[i] == s0.txns[t].req;
    }
  }
}
