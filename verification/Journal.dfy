/** Double-entry books: the guards of `JournalEntry.save` and `JournalEntryLine.save`, deletes,
    and the posting service built on them. Amounts are integer paise.
 */
module Journal {
  import opened Options
  import StatusGuards

  datatype Status = Draft | Posted | Void

  /** A line row. Every stored line sits in the table under its own id. */
  datatype Line = Line(id: nat, entry: nat, account: nat, debit: int, credit: int)

  /** A line as a caller hands it to the service, before it belongs to an entry. */
  datatype Leg = Leg(account: nat, debit: int, credit: int)

  /** The two tables and their id counters. Only the status of an entry matters here. */
  datatype Books = Books(entries: map<nat, Status>, lines: seq<Line>, nextEntry: nat, nextLine: nat)

  datatype Key = ByEntry | ByAccount

  // ----- Tables and sums -----

  function KeyOf(on: Key, l: Line): nat {
    match on case ByEntry => l.entry case ByAccount => l.account
  }

  /** Debits minus credits of the lines under one key. */
  function Net(lines: seq<Line>, on: Key, k: nat): int {
    if lines == [] then 0 else
      var last := lines[|lines| - 1];
      Net(lines[..|lines| - 1], on, k) + (if KeyOf(on, last) == k then last.debit - last.credit else 0)
  }

  function NetAll(lines: seq<Line>): int {
    if lines == [] then 0 else
      NetAll(lines[..|lines| - 1]) + lines[|lines| - 1].debit - lines[|lines| - 1].credit
  }

  /** The lines of one entry, in table order. */
  function Of(lines: seq<Line>, e: nat): seq<Line> {
    if lines == [] then [] else
      var rest, last := Of(lines[..|lines| - 1], e), lines[|lines| - 1];
      if last.entry == e then rest + [last] else rest
  }

  function Ids(lines: seq<Line>): set<nat> {
    if lines == [] then {} else Ids(lines[..|lines| - 1]) + {lines[|lines| - 1].id}
  }

  predicate DistinctIds(lines: seq<Line>) {
    lines == [] || (DistinctIds(lines[..|lines| - 1]) && lines[|lines| - 1].id !in Ids(lines[..|lines| - 1]))
  }

  /** The row with that id. */
  function Find(lines: seq<Line>, id: nat): (l: Line)
    requires id in Ids(lines)
    ensures l.id == id && l in lines
  {
    if lines[|lines| - 1].id == id then lines[|lines| - 1] else Find(lines[..|lines| - 1], id)
  }

  /** UPDATE of the row with the id of `l`. */
  function Replace(lines: seq<Line>, l: Line): seq<Line> {
    if lines == [] then [] else
      Replace(lines[..|lines| - 1], l) + [if lines[|lines| - 1].id == l.id then l else lines[|lines| - 1]]
  }

  /** DELETE of the row with that id. */
  function Remove(lines: seq<Line>, id: nat): seq<Line> {
    if lines == [] then [] else
      var rest, last := Remove(lines[..|lines| - 1], id), lines[|lines| - 1];
      if last.id == id then rest else rest + [last]
  }

  /** DELETE of all rows of an entry. */
  function RemoveOf(lines: seq<Line>, e: nat): seq<Line> {
    if lines == [] then [] else
      var rest, last := RemoveOf(lines[..|lines| - 1], e), lines[|lines| - 1];
      if last.entry == e then rest else rest + [last]
  }

  /** The rows a bulk insert of `legs` adds. */
  function Rows(e: nat, legs: seq<Leg>, first: nat): (rows: seq<Line>)
    ensures |rows| == |legs|
  {
    if legs == [] then [] else
      var last := legs[|legs| - 1];
      Rows(e, legs[..|legs| - 1], first) + [Line(first + |legs| - 1, e, last.account, last.debit, last.credit)]
  }

  function Legs(lines: seq<Line>): seq<Leg> {
    seq(|lines|, i requires 0 <= i < |lines| => Leg(lines[i].account, lines[i].debit, lines[i].credit))
  }

  function Mirror(legs: seq<Leg>): seq<Leg> {
    seq(|legs|, i requires 0 <= i < |legs| => Leg(legs[i].account, legs[i].credit, legs[i].debit))
  }

  // ----- Checks -----

  /** The table's check constraints. */
  predicate OneSided(debit: int, credit: int) {
    (debit > 0 && credit == 0) || (credit > 0 && debit == 0)
  }

  function LegsNet(legs: seq<Leg>): int {
    if legs == [] then 0 else
      LegsNet(legs[..|legs| - 1]) + legs[|legs| - 1].debit - legs[|legs| - 1].credit
  }

  /** `_validate_line_payloads`; `usable` are the active accounts the entry type may post to. */
  predicate ValidPayload(legs: seq<Leg>, usable: set<nat>) {
    && legs != []
    && (forall g <- legs :: g.account in usable && (g.debit > 0) != (g.credit > 0))
    && LegsNet(legs) == 0
  }

  predicate Constrained(legs: seq<Leg>) { forall g <- legs :: OneSided(g.debit, g.credit) }

  function InTable(s: Status): StatusGuards.Status {
    match s case Draft => StatusGuards.DRAFT case Posted => StatusGuards.POSTED case Void => StatusGuards.VOID
  }

  /** `_immutable_status_guard` with the journal's table. */
  predicate EntryGuard(was: Status, now: Status)
    ensures EntryGuard(was, now) <==> was == Draft || (was == Posted && now == Void)
  {
    StatusGuards.Accepts(StatusGuards.Accounting, StatusGuards.JOURNAL_ENTRY, InTable(was), InTable(now))
  }

  // ----- Operations -----

  /** The columns of a line; the description stands for those the books do not look at. */
  datatype LineField = EntryField | AccountField | DebitField | CreditField | Description

  /** The stored row after an UPDATE of the listed columns, or of all. */
  function MergeLine(stored: Line, inst: Line, fields: Option<set<LineField>>): Line {
    if fields.None? then inst
    else
      var f := fields.value;
      Line(stored.id, if EntryField in f then inst.entry else stored.entry,
           if AccountField in f then inst.account else stored.account,
           if DebitField in f then inst.debit else stored.debit,
           if CreditField in f then inst.credit else stored.credit)
  }

  datatype Op =
    | SaveEntry(pk: Option<nat>, status: Status, fields: StatusGuards.Fields, hasPostedAt: bool, hasReason: bool)
    | SaveLine(linePk: Option<nat>, parent: nat, leg: Leg, lineFields: Option<set<LineField>>)
    | DeleteLine(line: nat)
    | Create(legs: seq<Leg>, usable: set<nat>)
    | Update(entry: nat, newLegs: Option<seq<Leg>>, usable: set<nat>)
    | Post(entry: nat, usable: set<nat>, ready: bool)
    | VoidEntry(entry: nat, reason: bool, ready: bool)
    | Reverse(members: seq<nat>, usable: set<nat>, ready: bool)

  function Max(a: nat, b: nat): nat { if a < b then b else a }

  /** The key a save writes under: its own, or the next one. */
  function Target(pk: Option<nat>, next: nat): nat {
    match pk case None => next case Some(k) => k
  }

  function DoSaveEntry(b: Books, pk: Option<nat>, status: Status, fields: StatusGuards.Fields, hasPostedAt: bool, hasReason: bool): Option<Books> {
    if pk.Some? && pk.value in b.entries && !EntryGuard(b.entries[pk.value], status) then None
    else if (status == Posted && !hasPostedAt) || (status == Void && !hasReason) then None
    else if fields.Part? && !(pk.Some? && pk.value in b.entries) then None
    else if !StatusGuards.WritesStatus(fields) then Some(b)
    else
      var k := Target(pk, b.nextEntry);
      Some(b.(entries := b.entries[k := status], nextEntry := Max(b.nextEntry, k + 1)))
  }

  function DoSaveLine(b: Books, pk: Option<nat>, parent: nat, g: Leg, fields: Option<set<LineField>>): Option<Books> {
    if pk.Some? && parent in b.entries && b.entries[parent] != Draft then None
    else if parent !in b.entries || !OneSided(g.debit, g.credit) then None
    else if fields == Some({}) then Some(b)
    else
      var l := Line(Target(pk, b.nextLine), parent, g.account, g.debit, g.credit);
      if l.id in Ids(b.lines) then
        var row := MergeLine(Find(b.lines, l.id), l, fields);
        if OneSided(row.debit, row.credit) then Some(b.(lines := Replace(b.lines, row))) else None
      else if fields.Some? then None
      else Some(b.(lines := b.lines + [l], nextLine := Max(b.nextLine, l.id + 1)))
  }

  function DoDeleteLine(b: Books, id: nat): Option<Books> {
    if id !in Ids(b.lines) then None else Some(b.(lines := Remove(b.lines, id)))
  }

  function AddLegs(b: Books, e: nat, legs: seq<Leg>): Books {
    b.(lines := b.lines + Rows(e, legs, b.nextLine), nextLine := b.nextLine + |legs|)
  }

  function DoCreate(b: Books, legs: seq<Leg>, usable: set<nat>): Option<Books> {
    if legs != [] && !ValidPayload(legs, usable) then None
    else if !Constrained(legs) then None
    else
      Some(AddLegs(b.(entries := b.entries[b.nextEntry := Draft], nextEntry := b.nextEntry + 1), b.nextEntry, legs))
  }

  function DoUpdate(b: Books, e: nat, legs: Option<seq<Leg>>, usable: set<nat>): Option<Books> {
    if e !in b.entries || b.entries[e] != Draft then None
    else if legs.None? then Some(b)
    else if !ValidPayload(legs.value, usable) || !Constrained(legs.value) then None
    else Some(AddLegs(b.(lines := RemoveOf(b.lines, e)), e, legs.value))
  }

  function DoPost(b: Books, e: nat, usable: set<nat>, ready: bool): Option<Books> {
    if e !in b.entries then None
    else if b.entries[e] == Posted then Some(b)
    else if b.entries[e] == Void || !ready || !ValidPayload(Legs(Of(b.lines, e)), usable) then None
    else Some(b.(entries := b.entries[e := Posted]))
  }

  function DoVoid(b: Books, e: nat, reason: bool, ready: bool): Option<Books> {
    if e !in b.entries then None
    else if b.entries[e] == Void then Some(b)
    else if b.entries[e] != Posted || !ready || !reason then None
    else Some(b.(entries := b.entries[e := Void]))
  }

  /** Book and post the mirror image of one entry. */
  function DoReverseOne(b: Books, e: nat, usable: set<nat>, ready: bool): Option<Books> {
    match DoCreate(b, Mirror(Legs(Of(b.lines, e))), usable)
    case None => None
    case Some(b1) => DoPost(b1, b.nextEntry, usable, ready)
  }

  /** The entries of a journal group, each reversed in turn; all or nothing. */
  function DoReverse(b: Books, members: seq<nat>, usable: set<nat>, ready: bool): Option<Books> {
    if members == [] then Some(b) else
      match DoReverse(b, members[..|members| - 1], usable, ready)
      case None => None
      case Some(b1) => DoReverseOne(b1, members[|members| - 1], usable, ready)
  }

  function Perform(b: Books, op: Op): Option<Books> {
    match op
    case SaveEntry(pk, status, fields, at, reason) => DoSaveEntry(b, pk, status, fields, at, reason)
    case SaveLine(pk, parent, leg, fields) => DoSaveLine(b, pk, parent, leg, fields)
    case DeleteLine(id) => DoDeleteLine(b, id)
    case Create(legs, usable) => DoCreate(b, legs, usable)
    case Update(e, legs, usable) => DoUpdate(b, e, legs, usable)
    case Post(e, usable, ready) => DoPost(b, e, usable, ready)
    case VoidEntry(e, reason, ready) => DoVoid(b, e, reason, ready)
    case Reverse(members, usable, ready) => if ready then DoReverse(b, members, usable, ready) else None
  }

  /** A refused operation changes nothing. */
  function Apply(b: Books, op: Op): Books {
    match Perform(b, op) case None => b case Some(b') => b'
  }

  function Run(b: Books, ops: seq<Op>): Books {
    if ops == [] then b else Apply(Run(b, ops[..|ops| - 1]), ops[|ops| - 1])
  }

  // ----- The invariant of the books, and what breaks it -----

  /** The tables are consistent: foreign keys hold, ids are unique, each line has one positive side. */
  ghost predicate WellFormed(b: Books) {
    && (forall e <- b.entries :: e < b.nextEntry)
    && (forall l <- b.lines :: l.id < b.nextLine && l.entry in b.entries && OneSided(l.debit, l.credit))
    && DistinctIds(b.lines)
  }

  ghost predicate InBalance(b: Books) {
    forall e <- b.entries :: b.entries[e] == Posted ==> Net(b.lines, ByEntry, e) == 0
  }

  ghost predicate Inv(b: Books) { WellFormed(b) && InBalance(b) }

  predicate IsPosted(b: Books, e: nat) { e in b.entries && b.entries[e] == Posted }

  /** The care the bare model methods leave to their callers. The service needs none. A bare save may
      post only an entry in balance; a new line may not go to a posted entry; a stored line of one
      may not be moved, changed or deleted. */
  predicate Careful(b: Books, op: Op) {
    match op
    case SaveEntry(pk, status, fields, _, _) =>
      StatusGuards.WritesStatus(fields) && status == Posted && pk.Some? && pk.value in b.entries ==> Net(b.lines, ByEntry, pk.value) == 0
    case SaveLine(pk, parent, leg, fields) =>
      var l := Line(Target(pk, b.nextLine), parent, leg.account, leg.debit, leg.credit);
      if fields == Some({}) then true
      else if l.id in Ids(b.lines) then
        var was := Find(b.lines, l.id);
        IsPosted(b, was.entry) ==> MergeLine(was, l, fields) == was
      else !IsPosted(b, parent)
    case DeleteLine(id) => id in Ids(b.lines) ==> !IsPosted(b, Find(b.lines, id).entry)
    case _ => true
  }

  // ----- How the sums and the lines of an entry move with the table -----

  function Part(l: Line, on: Key, k: nat): int { if KeyOf(on, l) == k then l.debit - l.credit else 0 }

  lemma {:induction false} NetAppend(a: seq<Line>, b: seq<Line>, on: Key, k: nat)
    ensures Net(a + b, on, k) == Net(a, on, k) + Net(b, on, k)
  {
    if b == [] {
      assert a + b == a;
    } else {
      assert (a + b)[..|a + b| - 1] == a + b[..|b| - 1];
      NetAppend(a, b[..|b| - 1], on, k);
    }
  }

  lemma NetSnoc(lines: seq<Line>, l: Line, on: Key, k: nat)
    ensures Net(lines + [l], on, k) == Net(lines, on, k) + Part(l, on, k)
  {
    assert (lines + [l])[..|lines|] == lines;
  }

  lemma {:induction false} OfAppend(a: seq<Line>, b: seq<Line>, e: nat)
    ensures Of(a + b, e) == Of(a, e) + Of(b, e)
  {
    if b == [] {
      assert a + b == a;
    } else {
      assert (a + b)[..|a + b| - 1] == a + b[..|b| - 1];
      OfAppend(a, b[..|b| - 1], e);
    }
  }

  lemma {:induction false} IdsAppend(a: seq<Line>, b: seq<Line>)
    ensures Ids(a + b) == Ids(a) + Ids(b)
    ensures DistinctIds(a) && DistinctIds(b) && Ids(a) !! Ids(b) ==> DistinctIds(a + b)
  {
    if b == [] {
      assert a + b == a;
    } else {
      assert (a + b)[..|a + b| - 1] == a + b[..|b| - 1];
      IdsAppend(a, b[..|b| - 1]);
    }
  }

  lemma {:induction false} AbsentId(lines: seq<Line>, l: Line)
    requires l.id !in Ids(lines)
    ensures Replace(lines, l) == lines && Remove(lines, l.id) == lines
  {
    if lines != [] {
      var init := lines[..|lines| - 1];
      AbsentId(init, l);
      assert lines == init + [lines[|lines| - 1]];
    }
  }

  /** Updating a row moves each sum by the difference of the two rows. */
  lemma {:induction false} ReplaceFacts(lines: seq<Line>, l: Line, on: Key, k: nat)
    requires DistinctIds(lines) && l.id in Ids(lines)
    ensures Net(Replace(lines, l), on, k) == Net(lines, on, k) - Part(Find(lines, l.id), on, k) + Part(l, on, k)
    ensures Find(lines, l.id).entry != k && l.entry != k ==> Of(Replace(lines, l), k) == Of(lines, k)
    ensures Ids(Replace(lines, l)) == Ids(lines) && DistinctIds(Replace(lines, l))
    ensures forall m <- Replace(lines, l) :: m == l || m in lines
  {
    var init, last := lines[..|lines| - 1], lines[|lines| - 1];
    var after := Replace(lines, l);
    assert after[..|after| - 1] == Replace(init, l);
    if last.id == l.id {
      AbsentId(init, l);
    } else {
      ReplaceFacts(init, l, on, k);
    }
  }

  /** Deleting a row takes its part out of each sum. */
  lemma {:induction false} RemoveFacts(lines: seq<Line>, id: nat, on: Key, k: nat)
    requires DistinctIds(lines) && id in Ids(lines)
    ensures Net(Remove(lines, id), on, k) == Net(lines, on, k) - Part(Find(lines, id), on, k)
    ensures Find(lines, id).entry != k ==> Of(Remove(lines, id), k) == Of(lines, k)
    ensures Ids(Remove(lines, id)) <= Ids(lines) && DistinctIds(Remove(lines, id))
    ensures forall m <- Remove(lines, id) :: m in lines
  {
    RemoveIds(lines, id);
    RemoveMembers(lines, id);
    RemoveNet(lines, id, on, k);
    if Find(lines, id).entry != k { RemoveElsewhere(lines, id, k); }
  }

  lemma {:induction false} RemoveIds(lines: seq<Line>, id: nat)
    requires DistinctIds(lines)
    ensures Ids(Remove(lines, id)) <= Ids(lines) && DistinctIds(Remove(lines, id))
  {
    if lines != [] {
      var init, last := lines[..|lines| - 1], lines[|lines| - 1];
      RemoveIds(init, id);
      var rest, after := Remove(init, id), Remove(lines, id);
      if last.id != id {
        assert after == rest + [last] && after[..|after| - 1] == rest;
      }
    }
  }

  lemma {:induction false} RemoveMembers(lines: seq<Line>, id: nat)
    ensures forall m <- Remove(lines, id) :: m in lines
  {
    if lines != [] {
      var init, last := lines[..|lines| - 1], lines[|lines| - 1];
      RemoveMembers(init, id);
      assert lines == init + [last];
      forall m | m in Remove(lines, id) ensures m in lines { assert m in Remove(init, id) || m == last; }
    }
  }

  lemma {:induction false} RemoveNet(lines: seq<Line>, id: nat, on: Key, k: nat)
    requires DistinctIds(lines) && id in Ids(lines)
    ensures Net(Remove(lines, id), on, k) == Net(lines, on, k) - Part(Find(lines, id), on, k)
  {
    var init, last := lines[..|lines| - 1], lines[|lines| - 1];
    if last.id == id {
      AbsentId(init, last);
    } else {
      RemoveNet(init, id, on, k);
      NetSnoc(Remove(init, id), last, on, k);
    }
  }

  lemma {:induction false} RemoveElsewhere(lines: seq<Line>, id: nat, k: nat)
    requires DistinctIds(lines) && id in Ids(lines) && Find(lines, id).entry != k
    ensures Of(Remove(lines, id), k) == Of(lines, k)
  {
    var init, last := lines[..|lines| - 1], lines[|lines| - 1];
    if last.id == id {
      AbsentId(init, last);
    } else {
      RemoveElsewhere(init, id, k);
      OfSnoc(Remove(init, id), last, k);
    }
  }

  lemma OfSnoc(lines: seq<Line>, l: Line, e: nat)
    ensures Of(lines + [l], e) == if l.entry == e then Of(lines, e) + [l] else Of(lines, e)
  {
    assert (lines + [l])[..|lines|] == lines;
  }

  lemma {:induction false} RemoveOfFacts(lines: seq<Line>, e: nat)
    requires DistinctIds(lines)
    ensures Ids(RemoveOf(lines, e)) <= Ids(lines) && DistinctIds(RemoveOf(lines, e))
    ensures forall m <- RemoveOf(lines, e) :: m in lines
  {
    if lines != [] {
      var init, last := lines[..|lines| - 1], lines[|lines| - 1];
      RemoveOfFacts(init, e);
      var rest, after := RemoveOf(init, e), RemoveOf(lines, e);
      assert lines == init + [last];
      if last.entry == e {
        assert after == rest;
      } else {
        assert after == rest + [last] && after[..|after| - 1] == rest;
      }
    }
  }

  lemma {:induction false} OfRemoveOf(lines: seq<Line>, e: nat, k: nat)
    ensures Of(RemoveOf(lines, e), k) == if k == e then [] else Of(lines, k)
  {
    if lines != [] {
      var init, last := lines[..|lines| - 1], lines[|lines| - 1];
      OfRemoveOf(init, e, k);
      var rest, after := RemoveOf(init, e), RemoveOf(lines, e);
      if last.entry == e {
        assert after == rest;
      } else {
        assert after == rest + [last] && after[..|after| - 1] == rest;
      }
    }
  }

  lemma {:induction false} RowsAre(e: nat, legs: seq<Leg>, first: nat)
    ensures forall i :: 0 <= i < |legs| ==> Rows(e, legs, first)[i] == Line(first + i, e, legs[i].account, legs[i].debit, legs[i].credit)
  {
    if legs != [] { RowsAre(e, legs[..|legs| - 1], first); }
  }

  lemma {:induction false} RowsIds(e: nat, legs: seq<Leg>, first: nat)
    ensures DistinctIds(Rows(e, legs, first))
    ensures forall i <- Ids(Rows(e, legs, first)) :: first <= i < first + |legs|
  {
    if legs != [] {
      RowsIds(e, legs[..|legs| - 1], first);
      var rows := Rows(e, legs, first);
      assert rows[..|rows| - 1] == Rows(e, legs[..|legs| - 1], first);
    }
  }

  lemma RowsFacts(e: nat, legs: seq<Leg>, first: nat)
    ensures Legs(Rows(e, legs, first)) == legs
    ensures forall l <- Rows(e, legs, first) :: l.entry == e && first <= l.id < first + |legs|
    ensures Constrained(legs) ==> forall l <- Rows(e, legs, first) :: OneSided(l.debit, l.credit)
  {
    RowsAre(e, legs, first);
    assert forall g: Leg, i :: 0 <= i < |legs| && legs[i] == g ==> g in legs;
  }

  lemma {:induction false} RowsBelong(e: nat, legs: seq<Leg>, first: nat, k: nat)
    ensures Of(Rows(e, legs, first), k) == if k == e then Rows(e, legs, first) else []
  {
    if legs != [] {
      var init := legs[..|legs| - 1];
      RowsBelong(e, init, first, k);
      var rows := Rows(e, legs, first);
      assert rows[..|rows| - 1] == Rows(e, init, first);
    }
  }

  /** The sum of an entry is the sum of its own lines. */
  lemma {:induction false} NetOfEntry(lines: seq<Line>, e: nat)
    ensures Net(lines, ByEntry, e) == LegsNet(Legs(Of(lines, e)))
  {
    if lines != [] {
      var init, last := lines[..|lines| - 1], lines[|lines| - 1];
      NetOfEntry(init, e);
      if last.entry == e {
        assert Legs(Of(lines, e))[..|Of(init, e)|] == Legs(Of(init, e));
      }
    }
  }

  lemma {:induction false} IdsAreMembers(lines: seq<Line>)
    ensures forall l <- lines :: l.id in Ids(lines)
    ensures forall i <- Ids(lines) :: exists l <- lines :: l.id == i
  {
    if lines != [] {
      var init, last := lines[..|lines| - 1], lines[|lines| - 1];
      IdsAreMembers(init);
      assert lines == init + [last];
      forall i | i in Ids(lines) ensures exists l <- lines :: l.id == i {
        if i != last.id {
          assert i in Ids(init);
          var l :| l in init && l.id == i;
          assert l in lines;
        } else {
          assert last in lines;
        }
      }
    }
  }

  // ----- Every accepted operation keeps the books exactly when it is careful -----

  /** What never changes for the worse: the books stay consistent and in balance, VOID is final, a
      posted entry never returns to DRAFT, and while it stays posted its lines are untouched. */
  ghost predicate Keeps(b: Books, b': Books) {
    && Inv(b')
    && forall e <- b.entries ::
         && e in b'.entries
         && (b.entries[e] == Void ==> b'.entries[e] == Void)
         && (b.entries[e] == Posted ==> b'.entries[e] != Draft)
         && (b.entries[e] == Posted && b'.entries[e] == Posted ==> Of(b'.lines, e) == Of(b.lines, e))
  }

  lemma KeepsIsTransitive(b: Books, b1: Books, b2: Books)
    requires Keeps(b, b1) && Keeps(b1, b2)
    ensures Keeps(b, b2)
  {
  }

  /** Balance carries over to entries whose lines did not change. */
  lemma SameLinesSameNet(b: Books, b': Books, e: nat)
    requires Of(b'.lines, e) == Of(b.lines, e)
    ensures Net(b'.lines, ByEntry, e) == Net(b.lines, ByEntry, e)
  {
    NetOfEntry(b.lines, e);
    NetOfEntry(b'.lines, e);
  }

  lemma SaveEntryExact(b: Books, op: Op)
    requires op.SaveEntry? && Inv(b) && Perform(b, op).Some?
    ensures Careful(b, op) ==> Keeps(b, Apply(b, op))
    ensures !Careful(b, op) ==> !Inv(Apply(b, op))
  {
    var b' := Apply(b, op);
    var k := Target(op.pk, b.nextEntry);
    if !Careful(b, op) {
      assert b'.entries[k] == Posted && Net(b'.lines, ByEntry, k) != 0;
    } else if k !in b.entries {
      NoLinesYet(b.lines, k);
    }
  }

  lemma {:induction false} NoLinesYet(lines: seq<Line>, e: nat)
    requires forall l <- lines :: l.entry != e
    ensures Of(lines, e) == [] && Net(lines, ByEntry, e) == 0
  {
    if lines != [] {
      var init := lines[..|lines| - 1];
      assert lines[|lines| - 1] in lines;
      NoLinesYet(init, e);
    }
  }

  lemma InsertLineExact(b: Books, l: Line)
    requires Inv(b) && l.id !in Ids(b.lines) && l.entry in b.entries && OneSided(l.debit, l.credit)
    ensures var b' := b.(lines := b.lines + [l], nextLine := Max(b.nextLine, l.id + 1));
      if IsPosted(b, l.entry) then !Inv(b') else Keeps(b, b')
  {
    var b' := b.(lines := b.lines + [l], nextLine := Max(b.nextLine, l.id + 1));
    assert b'.lines[..|b.lines|] == b.lines;
    forall e | e != l.entry ensures Of(b'.lines, e) == Of(b.lines, e) && Net(b'.lines, ByEntry, e) == Net(b.lines, ByEntry, e) {}
    assert Net(b'.lines, ByEntry, l.entry) == Net(b.lines, ByEntry, l.entry) + l.debit - l.credit;
  }

  /** A line that stays with, or moves to, an entry that is not posted. */
  lemma UpdateOpenLine(b: Books, l: Line)
    requires Inv(b) && l.id in Ids(b.lines) && l.entry in b.entries && !IsPosted(b, l.entry) && OneSided(l.debit, l.credit)
    ensures var b' := b.(lines := Replace(b.lines, l));
      if IsPosted(b, Find(b.lines, l.id).entry) then !Inv(b') else Keeps(b, b')
  {
    var b', was := b.(lines := Replace(b.lines, l)), Find(b.lines, l.id);
    ReplaceFacts(b.lines, l, ByEntry, was.entry);
    IdsAreMembers(b.lines);
    if !IsPosted(b, was.entry) {
      forall e | IsPosted(b, e) ensures Of(b'.lines, e) == Of(b.lines, e) && Net(b'.lines, ByEntry, e) == Net(b.lines, ByEntry, e) {
        ReplaceFacts(b.lines, l, ByEntry, e);
      }
    }
  }

  /** A line that stays with its posted entry: no change at all keeps that entry's lines. */
  lemma UpdatePostedLine(b: Books, l: Line)
    requires Inv(b) && l.id in Ids(b.lines) && IsPosted(b, l.entry) && Find(b.lines, l.id).entry == l.entry
    ensures Keeps(b, b.(lines := Replace(b.lines, l))) <==> l == Find(b.lines, l.id)
  {
    var was := Find(b.lines, l.id);
    var b' := b.(lines := Replace(b.lines, l));
    if l == was {
      ReplaceSame(b.lines, l);
      assert b' == b;
    } else {
      ChangedLineShows(b.lines, l);
      ChangedLinesAreNotKept(b, b', l.entry);
    }
  }

  lemma ChangedLinesAreNotKept(b: Books, b': Books, e: nat)
    requires IsPosted(b, e) && IsPosted(b', e) && Of(b'.lines, e) != Of(b.lines, e)
    ensures !Keeps(b, b')
  {
  }

  lemma ChangedLineShows(lines: seq<Line>, l: Line)
    requires DistinctIds(lines) && l.id in Ids(lines) && l != Find(lines, l.id)
    ensures Of(Replace(lines, l), l.entry) != Of(lines, l.entry)
  {
    ReplaceHolds(lines, l);
    OfMembers(Replace(lines, l), l.entry);
    OfMembers(lines, l.entry);
    if l in lines { OneRowPerId(lines, l, Find(lines, l.id)); }
  }

  lemma {:induction false} ReplaceSame(lines: seq<Line>, l: Line)
    requires DistinctIds(lines) && l in lines
    ensures Replace(lines, l) == lines
  {
    var init, last := lines[..|lines| - 1], lines[|lines| - 1];
    assert lines == init + [last];
    IdsAreMembers(init);
    if last == l {
      AbsentId(init, l);
    } else {
      ReplaceSame(init, l);
    }
  }

  lemma {:induction false} ReplaceHolds(lines: seq<Line>, l: Line)
    requires l.id in Ids(lines)
    ensures l in Replace(lines, l)
  {
    var init := lines[..|lines| - 1];
    if lines[|lines| - 1].id != l.id { ReplaceHolds(init, l); }
  }

  lemma {:induction false} OfMembers(lines: seq<Line>, e: nat)
    ensures forall l :: l in Of(lines, e) <==> l in lines && l.entry == e
  {
    if lines != [] {
      var init, last := lines[..|lines| - 1], lines[|lines| - 1];
      OfMembers(init, e);
      assert lines == init + [last];
    }
  }

  lemma {:induction false} OneRowPerId(lines: seq<Line>, l: Line, m: Line)
    requires DistinctIds(lines) && l in lines && m in lines && l.id == m.id
    ensures l == m
  {
    var init, last := lines[..|lines| - 1], lines[|lines| - 1];
    assert lines == init + [last];
    IdsAreMembers(init);
    if l != last && m != last { OneRowPerId(init, l, m); }
  }

  lemma SaveLineExact(b: Books, pk: Option<nat>, parent: nat, g: Leg, fields: Option<set<LineField>>)
    requires Inv(b) && DoSaveLine(b, pk, parent, g, fields).Some?
    ensures Keeps(b, DoSaveLine(b, pk, parent, g, fields).value) <==> Careful(b, SaveLine(pk, parent, g, fields))
  {
    var l := Line(Target(pk, b.nextLine), parent, g.account, g.debit, g.credit);
    IdsAreMembers(b.lines);
    if fields != Some({}) {
      if l.id in Ids(b.lines) {
        var was := Find(b.lines, l.id);
        var row := MergeLine(was, l, fields);
        if IsPosted(b, row.entry) { UpdatePostedLine(b, row); } else { UpdateOpenLine(b, row); }
      } else {
        InsertLineExact(b, l);
      }
    }
  }

  lemma DeleteLineExact(b: Books, id: nat)
    requires Inv(b) && id in Ids(b.lines)
    ensures var b' := b.(lines := Remove(b.lines, id));
      if IsPosted(b, Find(b.lines, id).entry) then !Inv(b') else Keeps(b, b')
  {
    var b', was := b.(lines := Remove(b.lines, id)), Find(b.lines, id);
    RemoveFacts(b.lines, id, ByEntry, was.entry);
    if !IsPosted(b, was.entry) {
      forall e | IsPosted(b, e) ensures Of(b'.lines, e) == Of(b.lines, e) && Net(b'.lines, ByEntry, e) == Net(b.lines, ByEntry, e) {
        RemoveFacts(b.lines, id, ByEntry, e);
      }
    }
  }

  lemma AddLegsKeeps(b: Books, e: nat, legs: seq<Leg>)
    requires Inv(b) && e in b.entries && !IsPosted(b, e) && Constrained(legs)
    ensures Keeps(b, AddLegs(b, e, legs))
    ensures Of(AddLegs(b, e, legs).lines, e) == Of(b.lines, e) + Rows(e, legs, b.nextLine)
  {
    var b', rows := AddLegs(b, e, legs), Rows(e, legs, b.nextLine);
    RowsFacts(e, legs, b.nextLine);
    RowsIds(e, legs, b.nextLine);
    IdsAreMembers(b.lines);
    IdsAppend(b.lines, rows);
    forall k ensures Of(b'.lines, k) == Of(b.lines, k) + (if k == e then rows else []) {
      OfAppend(b.lines, rows, k);
      RowsBelong(e, legs, b.nextLine, k);
    }
    forall k | IsPosted(b, k) ensures Net(b'.lines, ByEntry, k) == 0 {
      SameLinesSameNet(b, b', k);
    }
  }

  lemma CreateKeeps(b: Books, legs: seq<Leg>, usable: set<nat>)
    requires Inv(b) && DoCreate(b, legs, usable).Some?
    ensures var b', e := DoCreate(b, legs, usable).value, b.nextEntry;
      && Keeps(b, b') && b'.entries == b.entries[e := Draft] && Legs(Of(b'.lines, e)) == legs
      && b'.lines == b.lines + Rows(e, legs, b.nextLine)
  {
    var b1 := NewEntryKeeps(b);
    FirstLegs(b1, b.nextEntry, legs);
    KeepsIsTransitive(b, b1, AddLegs(b1, b.nextEntry, legs));
  }

  lemma FirstLegs(b: Books, e: nat, legs: seq<Leg>)
    requires Inv(b) && e in b.entries && !IsPosted(b, e) && Constrained(legs) && Of(b.lines, e) == []
    ensures Keeps(b, AddLegs(b, e, legs)) && Legs(Of(AddLegs(b, e, legs).lines, e)) == legs
  {
    AddLegsKeeps(b, e, legs);
    RowsFacts(e, legs, b.nextLine);
  }

  lemma NewEntryKeeps(b: Books) returns (b1: Books)
    requires Inv(b)
    ensures b1 == b.(entries := b.entries[b.nextEntry := Draft], nextEntry := b.nextEntry + 1)
    ensures Keeps(b, b1) && Of(b1.lines, b.nextEntry) == []
  {
    b1 := b.(entries := b.entries[b.nextEntry := Draft], nextEntry := b.nextEntry + 1);
    NoLinesYet(b.lines, b.nextEntry);
  }

  lemma UpdateKeeps(b: Books, e: nat, legs: Option<seq<Leg>>, usable: set<nat>)
    requires Inv(b) && DoUpdate(b, e, legs, usable).Some?
    ensures Keeps(b, DoUpdate(b, e, legs, usable).value)
  {
    if legs.Some? {
      var b1 := b.(lines := RemoveOf(b.lines, e));
      RemoveOfFacts(b.lines, e);
      forall k | IsPosted(b, k) ensures Of(b1.lines, k) == Of(b.lines, k) && Net(b1.lines, ByEntry, k) == 0 {
        OfRemoveOf(b.lines, e, k);
        SameLinesSameNet(b, b1, k);
      }
      AddLegsKeeps(b1, e, legs.value);
      KeepsIsTransitive(b, b1, AddLegs(b1, e, legs.value));
    }
  }

  lemma PostKeeps(b: Books, e: nat, usable: set<nat>, ready: bool)
    requires Inv(b) && DoPost(b, e, usable, ready).Some?
    ensures Keeps(b, DoPost(b, e, usable, ready).value)
  {
    NetOfEntry(b.lines, e);
  }

  lemma ReverseOneKeeps(b: Books, e: nat, usable: set<nat>, ready: bool)
    requires Inv(b) && DoReverseOne(b, e, usable, ready).Some?
    ensures Keeps(b, DoReverseOne(b, e, usable, ready).value)
  {
    var legs := Mirror(Legs(Of(b.lines, e)));
    CreateKeeps(b, legs, usable);
    var b1 := DoCreate(b, legs, usable).value;
    PostKeeps(b1, b.nextEntry, usable, ready);
    KeepsIsTransitive(b, b1, DoPost(b1, b.nextEntry, usable, ready).value);
  }

  lemma {:induction false} ReverseKeeps(b: Books, members: seq<nat>, usable: set<nat>, ready: bool)
    requires Inv(b) && DoReverse(b, members, usable, ready).Some?
    ensures Keeps(b, DoReverse(b, members, usable, ready).value)
  {
    if members != [] {
      var init := members[..|members| - 1];
      ReverseKeeps(b, init, usable, ready);
      var b1 := DoReverse(b, init, usable, ready).value;
      ReverseOneKeeps(b1, members[|members| - 1], usable, ready);
      KeepsIsTransitive(b, b1, DoReverse(b, members, usable, ready).value);
    }
  }

  /** The guards, the line check and the posting service keep the books for every operation, and
      the exceptions are exact: an accepted operation leaves consistent books in balance and
      every posted entry's lines as they were if and only if it is careful. */
  lemma OperationKeepsBooksIffCareful(b: Books, op: Op)
    requires Inv(b) && Perform(b, op).Some?
    ensures Keeps(b, Apply(b, op)) <==> Careful(b, op)
  {
    match op
    case SaveEntry(_, _, _, _, _) => SaveEntryExact(b, op);
    case SaveLine(pk, parent, g, fields) => SaveLineExact(b, pk, parent, g, fields);
    case DeleteLine(id) => DeleteLineExact(b, id);
    case Create(legs, usable) => CreateKeeps(b, legs, usable);
    case Update(e, legs, usable) => UpdateKeeps(b, e, legs, usable);
    case Post(e, usable, ready) => PostKeeps(b, e, usable, ready);
    case VoidEntry(_, _, _) =>
    case Reverse(members, usable, ready) => ReverseKeeps(b, members, usable, ready);
  }

  /** Every operation of a run was careful when its turn came, or was refused. */
  ghost predicate CarefulRun(b: Books, ops: seq<Op>) {
    ops == [] || (CarefulRun(b, ops[..|ops| - 1])
                  && (Perform(Run(b, ops[..|ops| - 1]), ops[|ops| - 1]).Some? ==> Careful(Run(b, ops[..|ops| - 1]), ops[|ops| - 1])))
  }

  /** Over any careful run, an entry that is posted at both ends has the very same lines. */
  lemma {:induction false} RunKeepsBooks(b: Books, ops: seq<Op>)
    requires Inv(b) && CarefulRun(b, ops)
    ensures Keeps(b, Run(b, ops))
  {
    if ops != [] {
      var init, op := ops[..|ops| - 1], ops[|ops| - 1];
      RunKeepsBooks(b, init);
      var now := Run(b, init);
      if Perform(now, op).Some? {
        OperationKeepsBooksIffCareful(now, op);
        KeepsIsTransitive(b, now, Apply(now, op));
      }
    }
  }

  /** A run that uses only the posting service is careful by itself. */
  lemma {:induction false} ServiceRunsAreCareful(b: Books, ops: seq<Op>)
    requires forall op <- ops :: !op.SaveEntry? && !op.SaveLine? && !op.DeleteLine?
    ensures CarefulRun(b, ops)
  {
    if ops != [] {
      assert ops[|ops| - 1] in ops;
      ServiceRunsAreCareful(b, ops[..|ops| - 1]);
    }
  }

  // ----- The trial balance -----

  /** The lines the reports read: those of posted entries. */
  function PostedLines(b: Books, lines: seq<Line>): seq<Line> {
    if lines == [] then [] else
      var rest, last := PostedLines(b, lines[..|lines| - 1]), lines[|lines| - 1];
      if IsPosted(b, last.entry) then rest + [last] else rest
  }

  function TrialBalance(b: Books, account: nat): int {
    Net(PostedLines(b, b.lines), ByAccount, account)
  }

  function SumOver(lines: seq<Line>, on: Key, keys: seq<nat>): int {
    if keys == [] then 0 else
      SumOver(lines, on, keys[..|keys| - 1]) + Net(lines, on, keys[|keys| - 1])
  }

  ghost predicate Covers(keys: seq<nat>, lines: seq<Line>, on: Key) {
    && (forall i, j :: 0 <= i < j < |keys| ==> keys[i] != keys[j])
    && (forall l <- lines :: KeyOf(on, l) in keys)
  }

  lemma {:induction false} OneMoreLine(lines: seq<Line>, l: Line, on: Key, keys: seq<nat>)
    requires forall i, j :: 0 <= i < j < |keys| ==> keys[i] != keys[j]
    ensures SumOver(lines + [l], on, keys) == SumOver(lines, on, keys) + (if KeyOf(on, l) in keys then l.debit - l.credit else 0)
  {
    assert (lines + [l])[..|lines|] == lines;
    if keys != [] {
      var init, last := keys[..|keys| - 1], keys[|keys| - 1];
      OneMoreLine(lines, l, on, init);
      assert keys == init + [last];
      assert forall i :: 0 <= i < |init| ==> keys[i] != keys[|init|];
    }
  }

  /** Adding up the sums of all keys adds up every line once, whichever way the lines are grouped. */
  lemma {:induction false} SumIsIndependentOfGrouping(lines: seq<Line>, on: Key, keys: seq<nat>)
    requires Covers(keys, lines, on)
    ensures SumOver(lines, on, keys) == NetAll(lines)
  {
    if lines == [] {
      EmptySum(on, keys);
    } else {
      var init, last := lines[..|lines| - 1], lines[|lines| - 1];
      assert lines == init + [last] && last in lines;
      SumIsIndependentOfGrouping(init, on, keys);
      OneMoreLine(init, last, on, keys);
    }
  }

  lemma {:induction false} EmptySum(on: Key, keys: seq<nat>)
    ensures SumOver([], on, keys) == 0
  {
    if keys != [] { EmptySum(on, keys[..|keys| - 1]); }
  }

  lemma {:induction false} PostedLinesByEntry(b: Books, lines: seq<Line>, e: nat)
    ensures Net(PostedLines(b, lines), ByEntry, e) == if IsPosted(b, e) then Net(lines, ByEntry, e) else 0
  {
    if lines != [] {
      PostedLinesByEntry(b, lines[..|lines| - 1], e);
      NetSnoc(PostedLines(b, lines[..|lines| - 1]), lines[|lines| - 1], ByEntry, e);
    }
  }

  lemma {:induction false} BalancedEntriesSumToZero(b: Books, entries: seq<nat>)
    requires Inv(b)
    ensures SumOver(PostedLines(b, b.lines), ByEntry, entries) == 0
  {
    if entries != [] {
      BalancedEntriesSumToZero(b, entries[..|entries| - 1]);
      PostedLinesByEntry(b, b.lines, entries[|entries| - 1]);
    }
  }

  /** Some list of keys without repetition covers any lines. */
  lemma {:induction false} CoverExists(lines: seq<Line>, on: Key) returns (keys: seq<nat>)
    ensures Covers(keys, lines, on)
  {
    keys := [];
    if lines != [] {
      var init, last := lines[..|lines| - 1], lines[|lines| - 1];
      keys := CoverExists(init, on);
      assert lines == init + [last];
      if KeyOf(on, last) !in keys { keys := keys + [KeyOf(on, last)]; }
    }
  }

  /** The trial balance, summed over all accounts, is zero. */
  lemma TrialBalanceIsZero(b: Books, accounts: seq<nat>)
    requires Inv(b) && Covers(accounts, PostedLines(b, b.lines), ByAccount)
    ensures SumOver(PostedLines(b, b.lines), ByAccount, accounts) == 0
  {
    var posted := PostedLines(b, b.lines);
    var entries := CoverExists(posted, ByEntry);
    SumIsIndependentOfGrouping(posted, ByAccount, accounts);
    SumIsIndependentOfGrouping(posted, ByEntry, entries);
    BalancedEntriesSumToZero(b, entries);
  }

  const NO_BOOKS := Books(map[], [], 0, 0)

  /** Starting from nothing, after any careful run, the trial balance is zero. */
  lemma TrialBalanceIsZeroAfterAnyRun(ops: seq<Op>, accounts: seq<nat>)
    requires CarefulRun(NO_BOOKS, ops)
    requires var b := Run(NO_BOOKS, ops); Covers(accounts, PostedLines(b, b.lines), ByAccount)
    ensures var b := Run(NO_BOOKS, ops); SumOver(PostedLines(b, b.lines), ByAccount, accounts) == 0
  {
    RunKeepsBooks(NO_BOOKS, ops);
    TrialBalanceIsZero(Run(NO_BOOKS, ops), accounts);
  }

  // ----- Reversal -----

  /** What an entry puts on an account. */
  function Effect(b: Books, e: nat, a: nat): int { Net(Of(b.lines, e), ByAccount, a) }

  /** The books as if these entries had never been posted. */
  function Unpost(b: Books, members: seq<nat>): Books {
    if members == [] then b else
      var rest := Unpost(b, members[..|members| - 1]);
      rest.(entries := rest.entries[members[|members| - 1] := Draft])
  }

  lemma {:induction false} MirroredRowsCancel(lines: seq<Line>, e: nat, first: nat, a: nat)
    ensures Net(Rows(e, Mirror(Legs(lines)), first), ByAccount, a) == -Net(lines, ByAccount, a)
  {
    if lines != [] {
      var init := lines[..|lines| - 1];
      MirroredRowsCancel(init, e, first, a);
      var legs := Mirror(Legs(lines));
      assert legs[..|legs| - 1] == Mirror(Legs(init));
      var rows := Rows(e, legs, first);
      assert rows[..|rows| - 1] == Rows(e, Mirror(Legs(init)), first);
    }
  }

  lemma {:induction false} PostedLinesAppend(b: Books, x: seq<Line>, y: seq<Line>)
    ensures PostedLines(b, x + y) == PostedLines(b, x) + PostedLines(b, y)
  {
    if y == [] {
      assert x + y == x;
    } else {
      assert (x + y)[..|x + y| - 1] == x + y[..|y| - 1];
      PostedLinesAppend(b, x, y[..|y| - 1]);
    }
  }

  lemma {:induction false} PostedLinesFrame(b: Books, b': Books, lines: seq<Line>)
    requires forall l <- lines :: IsPosted(b, l.entry) == IsPosted(b', l.entry)
    ensures PostedLines(b, lines) == PostedLines(b', lines)
  {
    if lines != [] {
      assert lines[|lines| - 1] in lines;
      PostedLinesFrame(b, b', lines[..|lines| - 1]);
    }
  }

  lemma {:induction false} AllPosted(b: Books, lines: seq<Line>)
    requires forall l <- lines :: IsPosted(b, l.entry)
    ensures PostedLines(b, lines) == lines
  {
    if lines != [] {
      assert lines[|lines| - 1] in lines;
      AllPosted(b, lines[..|lines| - 1]);
    }
  }

  /** A reversal adds one posted entry made of mirrored lines, and nothing else. */
  lemma ReverseOneShape(b: Books, e: nat, usable: set<nat>, ready: bool) returns (rows: seq<Line>)
    requires Inv(b) && DoReverseOne(b, e, usable, ready).Some?
    ensures var b' := DoReverseOne(b, e, usable, ready).value;
      && rows == Rows(b.nextEntry, Mirror(Legs(Of(b.lines, e))), b.nextLine)
      && b'.lines == b.lines + rows && b'.entries == b.entries[b.nextEntry := Posted]
    ensures b.nextEntry !in b.entries
    ensures forall l <- rows :: l.entry == b.nextEntry
  {
    var legs := Mirror(Legs(Of(b.lines, e)));
    CreateKeeps(b, legs, usable);
    var b1 := DoCreate(b, legs, usable).value;
    assert DoPost(b1, b.nextEntry, usable, ready).value == b1.(entries := b1.entries[b.nextEntry := Posted]);
    rows := Rows(b.nextEntry, legs, b.nextLine);
    RowsFacts(b.nextEntry, legs, b.nextLine);
  }

  lemma ReverseOneEffect(b: Books, e: nat, usable: set<nat>, ready: bool, a: nat)
    requires Inv(b) && DoReverseOne(b, e, usable, ready).Some?
    ensures TrialBalance(DoReverseOne(b, e, usable, ready).value, a) == TrialBalance(b, a) - Effect(b, e, a)
  {
    var b' := DoReverseOne(b, e, usable, ready).value;
    var rows := ReverseOneShape(b, e, usable, ready);
    PostedLinesAppend(b', b.lines, rows);
    PostedLinesFrame(b, b', b.lines);
    AllPosted(b', rows);
    NetAppend(PostedLines(b, b.lines), rows, ByAccount, a);
    MirroredRowsCancel(Of(b.lines, e), b.nextEntry, b.nextLine, a);
  }

  lemma ReverseOneFrame(b: Books, e: nat, usable: set<nat>, ready: bool, k: nat)
    requires Inv(b) && DoReverseOne(b, e, usable, ready).Some? && k != b.nextEntry
    ensures Of(DoReverseOne(b, e, usable, ready).value.lines, k) == Of(b.lines, k)
  {
    var rows := ReverseOneShape(b, e, usable, ready);
    RowsBelong(b.nextEntry, Mirror(Legs(Of(b.lines, e))), b.nextLine, k);
    OfAppend(b.lines, rows, k);
  }

  function Effects(b: Books, members: seq<nat>, a: nat): int {
    if members == [] then 0 else Effects(b, members[..|members| - 1], a) + Effect(b, members[|members| - 1], a)
  }

  lemma {:induction false} ReverseFrame(b: Books, members: seq<nat>, usable: set<nat>, ready: bool, k: nat)
    requires Inv(b) && DoReverse(b, members, usable, ready).Some? && k in b.entries
    ensures var b' := DoReverse(b, members, usable, ready).value; k in b'.entries && Of(b'.lines, k) == Of(b.lines, k)
  {
    ReverseKeeps(b, members, usable, ready);
    if members != [] {
      var init := members[..|members| - 1];
      ReverseFrame(b, init, usable, ready, k);
      ReverseKeeps(b, init, usable, ready);
      ReverseOneFrame(DoReverse(b, init, usable, ready).value, members[|members| - 1], usable, ready, k);
    }
  }

  /** A reversal takes the effect of every member off every account, whatever the member's status. */
  lemma {:induction false} ReverseEffect(b: Books, members: seq<nat>, usable: set<nat>, ready: bool, a: nat)
    requires Inv(b) && DoReverse(b, members, usable, ready).Some?
    requires forall i :: 0 <= i < |members| ==> members[i] in b.entries
    ensures TrialBalance(DoReverse(b, members, usable, ready).value, a) == TrialBalance(b, a) - Effects(b, members, a)
  {
    if members != [] {
      var init, last := members[..|members| - 1], members[|members| - 1];
      ReverseEffect(b, init, usable, ready, a);
      ReverseKeeps(b, init, usable, ready);
      ReverseFrame(b, init, usable, ready, last);
      ReverseOneEffect(DoReverse(b, init, usable, ready).value, last, usable, ready, a);
    }
  }

  lemma {:induction false} UnpostOneLines(b: Books, lines: seq<Line>, e: nat, a: nat)
    ensures Net(PostedLines(b.(entries := b.entries[e := Draft]), lines), ByAccount, a)
         == Net(PostedLines(b, lines), ByAccount, a) - (if IsPosted(b, e) then Net(Of(lines, e), ByAccount, a) else 0)
  {
    if lines != [] {
      var init, last := lines[..|lines| - 1], lines[|lines| - 1];
      UnpostOneLines(b, init, e, a);
      var b' := b.(entries := b.entries[e := Draft]);
      NetSnoc(PostedLines(b', init), last, ByAccount, a);
      NetSnoc(PostedLines(b, init), last, ByAccount, a);
      NetSnoc(Of(init, e), last, ByAccount, a);
    }
  }

  /** The part of those effects that the books never showed: that of the members not posted. */
  function HiddenEffects(b: Books, members: seq<nat>, a: nat): int {
    if members == [] then 0 else
      HiddenEffects(b, members[..|members| - 1], a)
      + (if IsPosted(b, members[|members| - 1]) then 0 else Effect(b, members[|members| - 1], a))
  }

  ghost predicate Distinct(members: seq<nat>) { forall i, j :: 0 <= i < j < |members| ==> members[i] != members[j] }

  lemma {:induction false} UnpostEffect(b: Books, members: seq<nat>, a: nat)
    requires Distinct(members)
    ensures var b' := Unpost(b, members);
      && TrialBalance(b', a) == TrialBalance(b, a) - Effects(b, members, a) + HiddenEffects(b, members, a)
      && b'.lines == b.lines
      && forall k :: k !in members ==> (IsPosted(b, k) <==> IsPosted(b', k))
  {
    if members != [] {
      var init, last := members[..|members| - 1], members[|members| - 1];
      assert members == init + [last];
      assert last !in init;
      UnpostEffect(b, init, a);
      UnpostOneLines(Unpost(b, init), b.lines, last, a);
    }
  }

  ghost predicate SameBalances(b1: Books, b2: Books) { forall a: nat :: TrialBalance(b1, a) == TrialBalance(b2, a) }

  ghost predicate HidesNothing(b: Books, members: seq<nat>) { forall a: nat :: HiddenEffects(b, members, a) == 0 }

  /** Reversing a group of different entries leaves the trial balance as if they had not been posted
      if and only if, on every account, the members that are not posted cancel out. The reversal
      looks at no status: a VOID or DRAFT member is subtracted although it was never counted. */
  lemma ReversalUndoesIffHiddenCancel(b: Books, members: seq<nat>, usable: set<nat>, ready: bool)
    requires Inv(b) && DoReverse(b, members, usable, ready).Some? && Distinct(members)
    requires forall i :: 0 <= i < |members| ==> members[i] in b.entries
    ensures SameBalances(DoReverse(b, members, usable, ready).value, Unpost(b, members)) <==> HidesNothing(b, members)
  {
    var reversed, unposted := DoReverse(b, members, usable, ready).value, Unpost(b, members);
    if SameBalances(reversed, unposted) {
      forall a: nat ensures HiddenEffects(b, members, a) == 0 {
        assert TrialBalance(reversed, a) == TrialBalance(unposted, a);
        HiddenIsTheGap(b, members, usable, ready, a);
      }
    }
    if HidesNothing(b, members) {
      forall a: nat ensures TrialBalance(reversed, a) == TrialBalance(unposted, a) { HiddenIsTheGap(b, members, usable, ready, a); }
    }
  }

  lemma HiddenIsTheGap(b: Books, members: seq<nat>, usable: set<nat>, ready: bool, a: nat)
    requires Inv(b) && DoReverse(b, members, usable, ready).Some? && Distinct(members)
    requires forall i :: 0 <= i < |members| ==> members[i] in b.entries
    ensures TrialBalance(Unpost(b, members), a) - TrialBalance(DoReverse(b, members, usable, ready).value, a) == HiddenEffects(b, members, a)
  {
    ReverseEffect(b, members, usable, ready, a);
    UnpostEffect(b, members, a);
  }

  lemma {:induction false} NothingHidden(b: Books, members: seq<nat>, a: nat)
    requires forall i :: 0 <= i < |members| ==> IsPosted(b, members[i])
    ensures HiddenEffects(b, members, a) == 0
  {
    if members != [] { NothingHidden(b, members[..|members| - 1], a); }
  }

  /** In particular for a group of posted entries, */
  lemma ReversalUndoesPostedGroup(b: Books, members: seq<nat>, usable: set<nat>, ready: bool, a: nat)
    requires Inv(b) && DoReverse(b, members, usable, ready).Some? && Distinct(members)
    requires forall i :: 0 <= i < |members| ==> IsPosted(b, members[i])
    ensures TrialBalance(DoReverse(b, members, usable, ready).value, a) == TrialBalance(Unpost(b, members), a)
  {
    NothingHidden(b, members, a);
    HiddenIsTheGap(b, members, usable, ready, a);
  }

  /** and for one entry exactly when it is posted or nets to nothing on each account. */
  lemma ReversalUndoesIffPosted(b: Books, e: nat, usable: set<nat>, ready: bool)
    requires Inv(b) && e in b.entries && DoReverse(b, [e], usable, ready).Some?
    ensures SameBalances(DoReverse(b, [e], usable, ready).value, Unpost(b, [e])) <==> IsPosted(b, e) || forall a: nat :: Effect(b, e, a) == 0
  {
    forall a: nat ensures HiddenEffects(b, [e], a) == if IsPosted(b, e) then 0 else Effect(b, e, a) { OneHidden(b, e, a); }
    ReversalUndoesIffHiddenCancel(b, [e], usable, ready);
    if !IsPosted(b, e) && HidesNothing(b, [e]) {
      forall a: nat ensures Effect(b, e, a) == 0 { assert HiddenEffects(b, [e], a) == 0; OneHidden(b, e, a); }
    }
  }

  lemma OneHidden(b: Books, e: nat, a: nat)
    ensures HiddenEffects(b, [e], a) == if IsPosted(b, e) then 0 else Effect(b, e, a)
  {
    assert [e][..0] == [];
  }

  lemma ReverseSingle(b: Books, e: nat, usable: set<nat>, ready: bool)
    ensures DoReverse(b, [e], usable, ready) == DoReverseOne(b, e, usable, ready)
  {
    assert [e][..0] == [];
  }

  /** A voided entry of 100 paise from account 2 to account 1. */
  const VOIDED := Books(map[0 := Void], [Line(0, 0, 1, 100, 0), Line(1, 0, 2, 0, 100)], 1, 2)

  /** The sums and row sets of a two-line table, computed. */
  lemma PairFacts(b: Books, l0: Line, l1: Line, k: nat)
    ensures Net([l0, l1], ByAccount, k) == Part(l0, ByAccount, k) + Part(l1, ByAccount, k)
    ensures l0.entry == l1.entry ==> Of([l0, l1], l0.entry) == [l0, l1]
    ensures !IsPosted(b, l0.entry) && !IsPosted(b, l1.entry) ==> PostedLines(b, [l0, l1]) == []
    ensures l0.id != l1.id ==> DistinctIds([l0, l1])
  {
    var one, two := [l0], [l0, l1];
    assert two[..|two| - 1] == one && one[..|one| - 1] == [];
    assert Net(one, ByAccount, k) == Part(l0, ByAccount, k);
    assert Of(one, l0.entry) == one;
    assert PostedLines(b, one) == if IsPosted(b, l0.entry) then one else [];
    assert Ids(one) == {l0.id} && DistinctIds(one);
    assert Net(two, ByAccount, k) == Net(one, ByAccount, k) + Part(l1, ByAccount, k);
  }

  lemma LegPairFacts(g0: Leg, g1: Leg)
    ensures LegsNet([g0, g1]) == g0.debit - g0.credit + g1.debit - g1.credit
  {
    var one, two := [g0], [g0, g1];
    assert two[..|two| - 1] == one && one[..|one| - 1] == [];
    assert LegsNet(one) == g0.debit - g0.credit;
    assert LegsNet(two) == LegsNet(one) + g1.debit - g1.credit;
  }

  /** A reversal is refused only for the mirrored lines themselves. */
  lemma ReverseOneAccepted(b: Books, e: nat, usable: set<nat>)
    requires Inv(b) && ValidPayload(Mirror(Legs(Of(b.lines, e))), usable) && Constrained(Mirror(Legs(Of(b.lines, e))))
    ensures DoReverseOne(b, e, usable, true).Some?
  {
    CreateKeeps(b, Mirror(Legs(Of(b.lines, e))), usable);
  }

  lemma VoidedFacts()
    ensures Inv(VOIDED) && TrialBalance(VOIDED, 1) == 0 && Effect(VOIDED, 0, 1) == 100
    ensures Mirror(Legs(Of(VOIDED.lines, 0))) == [Leg(1, 0, 100), Leg(2, 100, 0)]
  {
    PairFacts(VOIDED, VOIDED.lines[0], VOIDED.lines[1], 1);
  }

  lemma ReversePair(b: Books, e: nat, g0: Leg, g1: Leg, usable: set<nat>, a: nat)
    requires Inv(b) && Mirror(Legs(Of(b.lines, e))) == [g0, g1]
    requires g0.account in usable && g1.account in usable && g0.debit == g1.credit == 0 && g0.credit == g1.debit > 0
    ensures DoReverse(b, [e], usable, true).Some?
    ensures TrialBalance(DoReverse(b, [e], usable, true).value, a) == TrialBalance(b, a) - Effect(b, e, a)
  {
    LegPairFacts(g0, g1);
    ReverseOneAccepted(b, e, usable);
    ReverseSingle(b, e, usable, true);
    ReverseOneEffect(b, e, usable, true, a);
  }

  /** Reversing a group that holds a voided entry leaves its amount on the books, negated. */
  lemma ReversingVoidLeavesResidue()
    ensures DoReverse(VOIDED, [0], {1, 2}, true).Some?
    ensures TrialBalance(VOIDED, 1) == 0 && TrialBalance(DoReverse(VOIDED, [0], {1, 2}, true).value, 1) == -100
  {
    VoidedFacts();
    ReversePair(VOIDED, 0, Leg(1, 0, 100), Leg(2, 100, 0), {1, 2}, 1);
  }

  // ----- What each operation does -----

  /** Voiding a posted entry needs a reason and an open period. It marks that entry VOID, leaves every
      other entry and every line alone, and takes exactly the entry's effect off every account. */
  lemma VoidTakesEffectOff(b: Books, e: nat, reason: bool, ready: bool, a: nat)
    requires e in b.entries
    ensures Perform(b, VoidEntry(e, reason, ready)).Some? <==> b.entries[e] == Void || (b.entries[e] == Posted && reason && ready)
    ensures b.entries[e] == Posted && reason && ready ==>
      var b' := Apply(b, VoidEntry(e, reason, ready));
      b' == b.(entries := b.entries[e := Void]) && TrialBalance(b', a) == TrialBalance(b, a) - Effect(b, e, a)
    ensures !(b.entries[e] == Posted && reason && ready) ==> Apply(b, VoidEntry(e, reason, ready)) == b
  {
    if b.entries[e] == Posted && reason && ready {
      UnpostOneLines(b, b.lines, e, a);
      PostedLinesFrame(Apply(b, VoidEntry(e, reason, ready)), b.(entries := b.entries[e := Draft]), b.lines);
    }
  }

  function DebitTotal(legs: seq<Leg>): int { if legs == [] then 0 else DebitTotal(legs[..|legs| - 1]) + legs[|legs| - 1].debit }

  function CreditTotal(legs: seq<Leg>): int { if legs == [] then 0 else CreditTotal(legs[..|legs| - 1]) + legs[|legs| - 1].credit }

  lemma {:induction false} NetIsTotals(legs: seq<Leg>)
    ensures LegsNet(legs) == DebitTotal(legs) - CreditTotal(legs)
  {
    if legs != [] { NetIsTotals(legs[..|legs| - 1]); }
  }

  /** What the service asks of the lines of an entry: at least one, all on usable accounts, each with one
      positive side, and equal totals. */
  predicate Bookable(legs: seq<Leg>, usable: set<nat>) {
    && |legs| > 0 && DebitTotal(legs) == CreditTotal(legs)
    && forall g <- legs :: g.account in usable && (if g.debit > 0 then g.credit <= 0 else g.credit > 0)
  }

  /** Posting a draft needs bookable lines and an open period with a document number. It marks that
      entry POSTED, leaves everything else alone, and puts exactly its effect on every account. */
  lemma PostPutsEffectOn(b: Books, e: nat, usable: set<nat>, ready: bool, a: nat)
    requires e in b.entries && b.entries[e] != Posted
    ensures Perform(b, Post(e, usable, ready)).Some? <==> b.entries[e] == Draft && ready && Bookable(Legs(Of(b.lines, e)), usable)
    ensures Perform(b, Post(e, usable, ready)).Some? ==>
      var b' := Apply(b, Post(e, usable, ready));
      b' == b.(entries := b.entries[e := Posted]) && TrialBalance(b', a) == TrialBalance(b, a) + Effect(b, e, a)
  {
    NetIsTotals(Legs(Of(b.lines, e)));
    if Perform(b, Post(e, usable, ready)).Some? {
      var b' := Apply(b, Post(e, usable, ready));
      UnpostOneLines(b', b.lines, e, a);
      assert b'.entries[e := Draft] == b.entries;
      assert b'.(entries := b'.entries[e := Draft]) == b;
    }
  }

  lemma AddLegsElsewhere(b: Books, e: nat, legs: seq<Leg>, k: nat)
    ensures Of(AddLegs(b, e, legs).lines, k) == Of(b.lines, k) + (if k == e then Rows(e, legs, b.nextLine) else [])
  {
    OfAppend(b.lines, Rows(e, legs, b.nextLine), k);
    RowsBelong(e, legs, b.nextLine, k);
  }

  /** Creating an entry with lines needs bookable ones, none of them negative. The new entry is a draft
      with exactly these lines; the others keep theirs. */
  lemma CreateBooksItsLines(b: Books, legs: seq<Leg>, usable: set<nat>, k: nat)
    requires Inv(b)
    ensures Perform(b, Create(legs, usable)).Some? <==>
      legs == [] || (Bookable(legs, usable) && forall g <- legs :: g.debit >= 0 && g.credit >= 0)
    ensures Perform(b, Create(legs, usable)).Some? ==>
      var b' := Apply(b, Create(legs, usable));
      && b'.entries == b.entries[b.nextEntry := Draft]
      && Legs(Of(b'.lines, b.nextEntry)) == legs && (k != b.nextEntry ==> Of(b'.lines, k) == Of(b.lines, k))
  {
    NetIsTotals(legs);
    if Perform(b, Create(legs, usable)).Some? {
      CreateKeeps(b, legs, usable);
      AddLegsElsewhere(b, b.nextEntry, legs, k);
    }
  }

  /** Editing the lines of an entry needs a draft and bookable new lines, none of them negative. The
      draft then has exactly the new lines; other entries keep theirs, and nothing is posted. */
  lemma UpdateReplacesLines(b: Books, e: nat, legs: seq<Leg>, usable: set<nat>, k: nat)
    ensures Perform(b, Update(e, Some(legs), usable)).Some? <==>
      e in b.entries && b.entries[e] == Draft && Bookable(legs, usable) && forall g <- legs :: g.debit >= 0 && g.credit >= 0
    ensures Perform(b, Update(e, Some(legs), usable)).Some? ==>
      var b' := Apply(b, Update(e, Some(legs), usable));
      && b'.entries == b.entries && Legs(Of(b'.lines, e)) == legs && (k != e ==> Of(b'.lines, k) == Of(b.lines, k))
  {
    NetIsTotals(legs);
    if Perform(b, Update(e, Some(legs), usable)).Some? {
      var b1 := b.(lines := RemoveOf(b.lines, e));
      OfRemoveOf(b.lines, e, e);
      OfRemoveOf(b.lines, e, k);
      AddLegsElsewhere(b1, e, legs, e);
      AddLegsElsewhere(b1, e, legs, k);
      RowsFacts(e, legs, b.nextLine);
    }
  }

  /** Saving an entry needs a free way from its stored status, a posting time for POSTED and a reason for
      VOID; a whole save then stores the status given, a save without the status keeps the stored one. */
  lemma EntrySaveStoresStatus(b: Books, e: nat, status: Status, fields: StatusGuards.Fields, at: bool, reason: bool)
    requires e in b.entries
    ensures Perform(b, SaveEntry(Some(e), status, fields, at, reason)).Some? <==>
      && (match b.entries[e] case Draft => true case Posted => status == Void case Void => false)
      && (match status case Draft => true case Posted => at case Void => reason)
    ensures Perform(b, SaveEntry(Some(e), status, fields, at, reason)).Some? ==>
      var b' := Apply(b, SaveEntry(Some(e), status, fields, at, reason));
      b'.lines == b.lines && b'.entries == if fields == StatusGuards.Part(false) then b.entries else b.entries[e := status]
  {
  }

  lemma {:induction false} RemoveTakesOne(lines: seq<Line>, id: nat)
    ensures forall m :: m in Remove(lines, id) <==> m in lines && m.id != id
  {
    if lines != [] {
      RemoveTakesOne(lines[..|lines| - 1], id);
      assert lines == lines[..|lines| - 1] + [lines[|lines| - 1]];
    }
  }

  lemma {:induction false} ReplacePutsOne(lines: seq<Line>, l: Line)
    requires l.id in Ids(lines)
    ensures forall m :: m in Replace(lines, l) <==> m == l || (m in lines && m.id != l.id)
  {
    var init, last := lines[..|lines| - 1], lines[|lines| - 1];
    assert lines == init + [last];
    if l.id in Ids(init) {
      ReplacePutsOne(init, l);
    } else {
      AbsentId(init, l);
      IdsAreMembers(init);
    }
  }

  /** Deleting a line takes away that row and no other. */
  lemma DeleteTakesOneLine(b: Books, id: nat)
    ensures Perform(b, DeleteLine(id)).Some? <==> exists l <- b.lines :: l.id == id
    ensures Perform(b, DeleteLine(id)).Some? ==>
      var b' := Apply(b, DeleteLine(id));
      b'.entries == b.entries && forall m :: m in b'.lines <==> m in b.lines && m.id != id
  {
    IdsAreMembers(b.lines);
    RemoveTakesOne(b.lines, id);
  }

  /** A partial save of a stored line, of an instance whose parent is a draft and whose own amounts are
      one-sided, stores a row that has the listed columns from the instance and the others as they
      were, if that row is one-sided too; no other line changes. */
  lemma LineSaveWritesListedColumns(b: Books, was: Line, parent: nat, g: Leg, f: set<LineField>, row: Line)
    requires DistinctIds(b.lines) && was in b.lines && parent in b.entries && b.entries[parent] == Draft && f != {}
    requires (g.debit > 0 && g.credit == 0) || (g.credit > 0 && g.debit == 0)
    requires row.id == was.id
    requires row.entry == (if EntryField in f then parent else was.entry) && row.account == (if AccountField in f then g.account else was.account)
    requires row.debit == (if DebitField in f then g.debit else was.debit) && row.credit == (if CreditField in f then g.credit else was.credit)
    ensures var op := SaveLine(Some(was.id), parent, g, Some(f));
      && (Perform(b, op).Some? <==> (row.debit > 0 && row.credit == 0) || (row.credit > 0 && row.debit == 0))
      && (Perform(b, op).Some? ==>
            (Apply(b, op).entries == b.entries
             && forall m :: m in Apply(b, op).lines <==> m == row || (m in b.lines && m.id != was.id)))
  {
    IdsAreMembers(b.lines);
    OneRowPerId(b.lines, Find(b.lines, was.id), was);
    ReplacePutsOne(b.lines, row);
  }

  // ----- The store -----

  class JournalStore {
    var entries: map<nat, Status>
    var lines: seq<Line>
    var nextEntry: nat
    var nextLine: nat

    function Now(): Books
      reads this
    {
      Books(entries, lines, nextEntry, nextLine)
    }

    constructor ()
      ensures Now() == NO_BOOKS && Inv(Now())
    {
      entries, lines, nextEntry, nextLine := map[], [], 0, 0;
    }

    /** `JournalEntry.save` of a whole instance or of some fields. */
    method SaveEntry(pk: Option<nat>, status: Status, fields: StatusGuards.Fields, hasPostedAt: bool, hasReason: bool) returns (ok: bool)
      modifies this
      ensures ok == DoSaveEntry(old(Now()), pk, status, fields, hasPostedAt, hasReason).Some?
      ensures Now() == if ok then DoSaveEntry(old(Now()), pk, status, fields, hasPostedAt, hasReason).value else old(Now())
    {
      ok := false;
      if pk.Some? && pk.value in entries {
        var previous := entries[pk.value];
        if previous in {Posted, Void} && (previous, status) !in {(Posted, Void)} { return; }
      }
      if status == Posted && !hasPostedAt { return; }
      if status == Void && !hasReason { return; }
      if fields.Part? {
        if pk.None? || pk.value !in entries { return; }
        if !fields.status { return true; }
      }
      var key := Target(pk, nextEntry);
      entries := entries[key := status];
      nextEntry := Max(nextEntry, key + 1);
      ok := true;
    }

    /** `JournalEntryLine.save`: the guard looks at the parent the instance names now, not at the
        parent of the stored row. */
    method SaveLine(pk: Option<nat>, parent: nat, leg: Leg, fields: Option<set<LineField>>) returns (ok: bool)
      modifies this
      ensures ok == DoSaveLine(old(Now()), pk, parent, leg, fields).Some?
      ensures Now() == if ok then DoSaveLine(old(Now()), pk, parent, leg, fields).value else old(Now())
    {
      ok := false;
      if pk.Some? && parent in entries && entries[parent] in {Posted, Void} { return; }
      if parent !in entries || !OneSided(leg.debit, leg.credit) { return; }
      if fields == Some({}) { return true; }
      var row := Line(Target(pk, nextLine), parent, leg.account, leg.debit, leg.credit);
      if row.id in Ids(lines) {
        row := MergeLine(Find(lines, row.id), row, fields);
        if !OneSided(row.debit, row.credit) { return; }
        lines := Replace(lines, row);
      } else {
        if fields.Some? { return; }
        lines := lines + [row];
        nextLine := Max(nextLine, row.id + 1);
      }
      ok := true;
    }

    /** `JournalEntryLine.delete`: no guard at all. */
    method DeleteLine(id: nat) returns (ok: bool)
      modifies this
      ensures ok == DoDeleteLine(old(Now()), id).Some?
      ensures Now() == if ok then DoDeleteLine(old(Now()), id).value else old(Now())
    {
      ok := id in Ids(lines);
      if ok { lines := Remove(lines, id); }
    }

    /** `_validate_line_payloads`: running totals, refusing at the first bad line. */
    static method ValidatePayload(legs: seq<Leg>, usable: set<nat>) returns (ok: bool)
      ensures ok == ValidPayload(legs, usable)
    {
      if legs == [] { return false; }
      var debits, credits := 0, 0;
      var i := 0;
      while i < |legs|
        invariant 0 <= i <= |legs|
        invariant forall j :: 0 <= j < i ==> legs[j].account in usable && (legs[j].debit > 0) != (legs[j].credit > 0)
        invariant debits - credits == LegsNet(legs[..i])
      {
        var leg := legs[i];
        if (leg.debit > 0) == (leg.credit > 0) || leg.account !in usable {
          assert leg in legs;
          return false;
        }
        assert legs[..i + 1][..i] == legs[..i];
        debits, credits := debits + leg.debit, credits + leg.credit;
        i := i + 1;
      }
      assert legs[..i] == legs;
      return debits == credits;
    }

    method PostEntry(e: nat, usable: set<nat>, ready: bool) returns (ok: bool)
      modifies this
      ensures ok == DoPost(old(Now()), e, usable, ready).Some?
      ensures Now() == if ok then DoPost(old(Now()), e, usable, ready).value else old(Now())
      ensures ok && e in old(entries) ==> entries == old(entries)[e := Posted] && lines == old(lines)
    {
      ok := false;
      if e !in entries { return; }
      if entries[e] == Posted { return true; }
      if entries[e] == Void || !ready { return; }
      ok := ValidatePayload(Legs(Of(lines, e)), usable);
      if ok { entries := entries[e := Posted]; }
    }

    method CreateEntry(legs: seq<Leg>, usable: set<nat>) returns (ok: bool)
      modifies this
      ensures ok == DoCreate(old(Now()), legs, usable).Some?
      ensures Now() == if ok then DoCreate(old(Now()), legs, usable).value else old(Now())
    {
      ok := true;
      if legs != [] { ok := ValidatePayload(legs, usable); }
      if !ok || !Constrained(legs) { return false; }
      entries := entries[nextEntry := Draft];
      lines := lines + Rows(nextEntry, legs, nextLine);
      nextEntry, nextLine := nextEntry + 1, nextLine + |legs|;
    }

    method UpdateDraft(e: nat, legs: Option<seq<Leg>>, usable: set<nat>) returns (ok: bool)
      modifies this
      ensures ok == DoUpdate(old(Now()), e, legs, usable).Some?
      ensures Now() == if ok then DoUpdate(old(Now()), e, legs, usable).value else old(Now())
    {
      ok := false;
      if e !in entries || entries[e] != Draft { return; }
      if legs.None? { return true; }
      ok := ValidatePayload(legs.value, usable);
      if !ok || !Constrained(legs.value) { return false; }
      lines := RemoveOf(lines, e);
      lines := lines + Rows(e, legs.value, nextLine);
      nextLine := nextLine + |legs.value|;
    }

    method VoidPosted(e: nat, reason: bool, ready: bool) returns (ok: bool)
      modifies this
      ensures ok == DoVoid(old(Now()), e, reason, ready).Some?
      ensures Now() == if ok then DoVoid(old(Now()), e, reason, ready).value else old(Now())
      ensures ok && e in old(entries) ==> entries == old(entries)[e := Void] && lines == old(lines)
    {
      ok := false;
      if e !in entries { return; }
      if entries[e] == Void { return true; }
      if entries[e] != Posted || !ready || !reason { return; }
      entries := entries[e := Void];
      ok := true;
    }

    /** Book the mirror image of one entry and post it. */
    method ReverseMember(e: nat, usable: set<nat>, ready: bool) returns (ok: bool)
      modifies this
      ensures ok == DoReverseOne(old(Now()), e, usable, ready).Some?
      ensures ok ==> Now() == DoReverseOne(old(Now()), e, usable, ready).value
    {
      var created := nextEntry;
      ok := CreateEntry(Mirror(Legs(Of(lines, e))), usable);
      if ok { ok := PostEntry(created, usable, ready); }
    }

    /** The reversal of a group: one mirrored entry per member, undone together on any failure. */
    method ReverseGroup(members: seq<nat>, usable: set<nat>, ready: bool) returns (ok: bool)
      modifies this
      ensures ok == (ready && DoReverse(old(Now()), members, usable, ready).Some?)
      ensures Now() == if ok then DoReverse(old(Now()), members, usable, ready).value else old(Now())
    {
      if !ready { return false; }
      ghost var start := Now();
      var entries0, lines0, nextEntry0, nextLine0 := entries, lines, nextEntry, nextLine;
      ok := true;
      var i := 0;
      while i < |members|
        invariant 0 <= i <= |members|
        invariant DoReverse(start, members[..i], usable, ready) == Some(Now())
      {
        ReverseStep(start, members, i, usable, ready, Now());
        ok := ReverseMember(members[i], usable, ready);
        if !ok {
          RefusedStaysRefused(start, members, i + 1, usable, ready);
          entries, lines, nextEntry, nextLine := entries0, lines0, nextEntry0, nextLine0;
          return;
        }
        i := i + 1;
      }
      assert members[..|members|] == members;
    }
  }

  lemma ReverseStep(b: Books, members: seq<nat>, i: nat, usable: set<nat>, ready: bool, now: Books)
    requires i < |members| && DoReverse(b, members[..i], usable, ready) == Some(now)
    ensures DoReverse(b, members[..i + 1], usable, ready) == DoReverseOne(now, members[i], usable, ready)
  {
    assert members[..i + 1][..i] == members[..i];
  }

  lemma {:induction false} RefusedStaysRefused(b: Books, members: seq<nat>, i: nat, usable: set<nat>, ready: bool)
    requires i <= |members| && DoReverse(b, members[..i], usable, ready).None?
    ensures DoReverse(b, members, usable, ready).None?
    decreases |members|
  {
    if i == |members| {
      assert members[..i] == members;
    } else {
      assert members[..|members| - 1][..i] == members[..i];
      RefusedStaysRefused(b, members[..|members| - 1], i, usable, ready);
    }
  }
}
