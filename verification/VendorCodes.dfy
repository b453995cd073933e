/** `Vendor.save`: the code assigned to a vendor saved without one, and the active flag derived from
    the status, under inserts, full saves and partial saves.
 */
module VendorCodes {
  import opened Options
  import opened Texts

  // ----- The assigned code -----

  function Digit(d: nat): char
    requires d < 10
  {
    '0' + d as char
  }

  function Decimal(n: nat): string {
    if n < 10 then [Digit(n)] else Decimal(n / 10) + [Digit(n % 10)]
  }

  function ZeroPadded(s: string, width: nat): string
    decreases width - |s|
  {
    if |s| >= width then s else ZeroPadded("0" + s, width)
  }

  predicate IsDigit(c: char) { '0' <= c <= '9' }

  /** A date written as eight digits, year, month and day. */
  type Stamp = s: string | |s| == 8 && forall i :: 0 <= i < 8 ==> IsDigit(s[i]) witness "20250131"

  /** The code assigned to row `k`. */
  function AssignedCode(day: Stamp, k: nat): string { "VND-" + day + "-" + ZeroPadded(Decimal(k), 6) }

  /** The number a string of digits stands for. */
  function NumberOf(s: string): int {
    if s == "" then 0 else 10 * NumberOf(s[..|s| - 1]) + (s[|s| - 1] as int - '0' as int)
  }

  lemma {:induction false} DecimalReadsBack(n: nat)
    ensures NumberOf(Decimal(n)) == n
  {
    if n >= 10 {
      DecimalReadsBack(n / 10);
      assert Decimal(n)[..|Decimal(n)| - 1] == Decimal(n / 10);
    } else {
      assert NumberOf([Digit(n)][..0]) == 0;
    }
  }

  lemma {:induction false} LeadingZero(s: string)
    ensures NumberOf("0" + s) == NumberOf(s)
  {
    if s == "" {
      assert ("0" + s)[..0] == "";
    } else {
      assert ("0" + s)[..|s|] == "0" + s[..|s| - 1];
      LeadingZero(s[..|s| - 1]);
    }
  }

  lemma {:induction false} PaddingReadsBack(s: string, width: nat)
    ensures NumberOf(ZeroPadded(s, width)) == NumberOf(s)
    decreases width - |s|
  {
    if |s| < width {
      LeadingZero(s);
      PaddingReadsBack("0" + s, width);
    }
  }

  /** The code tells its day and its row, also for keys of more than six digits. */
  lemma AssignedCodeReadsBack(day: Stamp, k: nat)
    ensures var c := AssignedCode(day, k); |c| > 13 && c[4..12] == day && NumberOf(c[13..]) == k
  {
    var c, tail := AssignedCode(day, k), ZeroPadded(Decimal(k), 6);
    DecimalReadsBack(k);
    PaddingReadsBack(Decimal(k), 6);
    PaddedIsLong(Decimal(k), 6);
    assert c[13..] == tail;
  }

  lemma {:induction false} PaddedIsLong(s: string, width: nat)
    ensures |ZeroPadded(s, width)| >= width
    decreases width - |s|
  {
    if |s| < width { PaddedIsLong("0" + s, width); }
  }

  lemma {:induction false} DecimalIsDigits(n: nat)
    ensures Decimal(n) != "" && forall i :: 0 <= i < |Decimal(n)| ==> IsDigit(Decimal(n)[i])
  {
    if n >= 10 { DecimalIsDigits(n / 10); }
  }

  lemma {:induction false} PaddedIsDigits(s: string, width: nat)
    requires s != "" && forall i :: 0 <= i < |s| ==> IsDigit(s[i])
    ensures var p := ZeroPadded(s, width); p != "" && forall i :: 0 <= i < |p| ==> IsDigit(p[i])
    decreases width - |s|
  {
    if |s| < width { PaddedIsDigits("0" + s, width); }
  }

  /** An assigned code is in normal form, so saving it again does not change it. */
  lemma AssignedCodeIsNormal(day: Stamp, k: nat)
    ensures var c := AssignedCode(day, k); Upper(Strip(c)) == c != ""
  {
    var c, tail := AssignedCode(day, k), ZeroPadded(Decimal(k), 6);
    DecimalIsDigits(k);
    PaddedIsDigits(Decimal(k), 6);
    assert c == ("VND-" + day + "-") + tail;
    assert c[|c| - 1] == tail[|tail| - 1];
    StripStrips(c);
    forall i | 0 <= i < |c| ensures UpperChar(c[i]) == c[i] {
      if 4 <= i < 12 {
        assert c[i] == day[i - 4];
      } else if i > 12 {
        assert c[i] == tail[i - 13];
      }
    }
  }

  // ----- One save -----

  datatype Status = ACTIVE | ON_HOLD | BLOCKED | ARCHIVED

  datatype Vendor = Vendor(name: string, code: string, status: Status, active: bool)

  datatype Field = Name | Code | StatusField | Active

  datatype Vendors = Vendors(rows: map<nat, Vendor>, next: nat)

  datatype VendorSave = VendorSave(pk: Option<nat>, inst: Vendor, fields: Option<set<Field>>, today: Stamp, valid: bool)

  predicate MayBeActive(s: Status) { s == ACTIVE || s == ON_HOLD }

  predicate Accepted(s: Vendors, v: VendorSave) {
    && v.valid
    && (v.fields.Some? ==> v.pk.Some?)
    && (v.fields.Some? && WrittenFields(v) != {} ==> v.pk.value in s.rows)
  }

  /** The code the instance carries, normalised. */
  function GivenCode(v: VendorSave): string { Upper(Strip(v.inst.code)) }

  predicate LacksCode(v: VendorSave) { GivenCode(v) == "" }

  /** A save that assigns a code also writes it. */
  function WrittenFields(v: VendorSave): set<Field> {
    if v.fields.None? then {Name, Code, StatusField, Active}
    else if LacksCode(v) && v.pk.Some? then v.fields.value + {Code} else v.fields.value
  }

  function Key(s: Vendors, v: VendorSave): nat {
    match v.pk case None => s.next case Some(k) => k
  }

  /** The instance once the save is over; a new row gets its code in a second write. */
  function Prepared(v: VendorSave, k: nat): Vendor {
    Vendor(Strip(v.inst.name),
           if LacksCode(v) then AssignedCode(v.today, k) else GivenCode(v),
           v.inst.status,
           MayBeActive(v.inst.status) && v.inst.active)
  }

  function Merge(stored: Vendor, inst: Vendor, f: set<Field>): Vendor {
    Vendor(if Name in f then inst.name else stored.name,
           if Code in f then inst.code else stored.code,
           if StatusField in f then inst.status else stored.status,
           if Active in f then inst.active else stored.active)
  }

  function AfterVendorSave(s: Vendors, v: VendorSave): Vendors {
    var k := Key(s, v);
    if !Accepted(s, v) || (v.fields.Some? && WrittenFields(v) == {}) then s
    else Vendors(s.rows[k := if v.fields.Some? then Merge(s.rows[k], Prepared(v, k), WrittenFields(v)) else Prepared(v, k)],
                 if s.next <= k then k + 1 else s.next)
  }

  function AfterVendorSaves(s: Vendors, vs: seq<VendorSave>): Vendors {
    if vs == [] then s else AfterVendorSave(AfterVendorSaves(s, vs[..|vs| - 1]), vs[|vs| - 1])
  }

  class VendorTable {
    var rows: map<nat, Vendor>
    var next: nat

    function Now(): Vendors
      reads this
    {
      Vendors(rows, next)
    }

    constructor ()
      ensures Now() == Vendors(map[], 0)
    {
      rows, next := map[], 0;
    }

    method Save(pk: Option<nat>, inst: Vendor, fields: Option<set<Field>>, today: Stamp, valid: bool) returns (ok: bool)
      modifies this
      ensures var v := VendorSave(pk, inst, fields, today, valid);
        ok == Accepted(old(Now()), v) && Now() == AfterVendorSave(old(Now()), v)
    {
      ok := false;
      var row, written := inst.(name := Strip(inst.name), code := Upper(Strip(inst.code))), fields;
      if row.code == "" && pk.Some? {
        row := row.(code := AssignedCode(today, pk.value));
        if fields.Some? { written := Some(fields.value + {Code}); }
      }
      row := row.(active := MayBeActive(row.status) && row.active);
      if !valid || (fields.Some? && pk.None?) { return; }
      if written.Some? {
        if written.value != {} {
          if pk.value !in rows { return; }
          rows := rows[pk.value := Merge(rows[pk.value], row, written.value)];
          if next <= pk.value { next := pk.value + 1; }
        }
        return true;
      }
      var key := match pk case None => next case Some(k) => k;
      rows := rows[key := row];
      if next <= key { next := key + 1; }
      if row.code == "" {
        rows := rows[key := row.(code := AssignedCode(today, key))];
      }
      ok := true;
    }
  }

  // ----- What a save writes -----

  /** After an accepted save, for the row `k` it is about: a written name is stripped, a written code is
      the given one normalised or the assigned one, a written flag is kept only for ACTIVE and ON_HOLD
      vendors; what is not written, and every other vendor, is as it was. */
  lemma SaveWritesListedColumns(s: Vendors, v: VendorSave, k: nat)
    requires Accepted(s, v) && (v.pk == Some(k) || (v.pk.None? && k == s.next && k !in s.rows))
    requires v.fields.None? || (k in s.rows && v.fields.value != {})
    ensures var s' := AfterVendorSave(s, v);
      var all, f := v.fields.None?, if v.fields.None? then {} else v.fields.value;
      && s'.rows.Keys == s.rows.Keys + {k} && (forall j <- s.rows :: j != k ==> s'.rows[j] == s.rows[j])
      && s'.rows[k].name == (if all || Name in f then Strip(v.inst.name) else s.rows[k].name)
      && s'.rows[k].status == (if all || StatusField in f then v.inst.status else s.rows[k].status)
      && s'.rows[k].active == (if all || Active in f
                               then v.inst.active && v.inst.status != BLOCKED && v.inst.status != ARCHIVED else s.rows[k].active)
      && s'.rows[k].code == (if Upper(Strip(v.inst.code)) == "" then AssignedCode(v.today, k)
                             else if all || Code in f then Upper(Strip(v.inst.code)) else s.rows[k].code)
  {
  }

  /** A whole vendor is accepted whenever its fields are valid; a partial save also needs the stored row,
      unless it writes nothing, not even an assigned code. */
  lemma SaveIsAcceptedIff(s: Vendors, v: VendorSave)
    ensures v.fields.None? ==> (Accepted(s, v) <==> v.valid)
    ensures v.fields.Some? ==> (Accepted(s, v) <==>
      v.valid && v.pk.Some? && (v.pk.value in s.rows || (v.fields.value == {} && Upper(Strip(v.inst.code)) != "")))
  {
  }

  // ----- Codes over runs -----

  ghost predicate Coded(s: Vendors) {
    forall k <- s.rows :: k < s.next && s.rows[k].code != "" && Upper(Strip(s.rows[k].code)) == s.rows[k].code
  }

  /** Whether a save stores a code for its row. */
  predicate WritesCode(s: Vendors, v: VendorSave) {
    Accepted(s, v) && (v.fields.Some? ==> Code in WrittenFields(v))
  }

  function NewCode(s: Vendors, v: VendorSave): string {
    if LacksCode(v) then AssignedCode(v.today, Key(s, v)) else GivenCode(v)
  }

  /** The day on which row `k` got its code by assignment, if it still has that code: saves that leave
      the code out, or write it as it is stored, do not count as choosing another. */
  function AssignedOn(s: Vendors, vs: seq<VendorSave>, k: nat): Option<Stamp> {
    if vs == [] then None else
      var before, v := AfterVendorSaves(s, vs[..|vs| - 1]), vs[|vs| - 1];
      if !WritesCode(before, v) || Key(before, v) != k then AssignedOn(s, vs[..|vs| - 1], k)
      else if LacksCode(v) then Some(v.today)
      else if k in before.rows && before.rows[k].code == GivenCode(v) then AssignedOn(s, vs[..|vs| - 1], k)
      else None
  }

  /** Only the row of a save that writes a code changes its code. */
  lemma CodeStep(s: Vendors, v: VendorSave, k: nat)
    ensures var s' := AfterVendorSave(s, v);
      && s'.rows.Keys >= s.rows.Keys
      && (k in s'.rows && WritesCode(s, v) && Key(s, v) == k ==> s'.rows[k].code == NewCode(s, v))
      && (k in s'.rows && !(WritesCode(s, v) && Key(s, v) == k) ==> k in s.rows && s'.rows[k].code == s.rows[k].code)
      && (WritesCode(s, v) ==> Key(s, v) in s'.rows)
  {
  }

  lemma SaveKeepsCoded(s: Vendors, v: VendorSave)
    requires Coded(s)
    ensures Coded(AfterVendorSave(s, v))
  {
    var s' := AfterVendorSave(s, v);
    AssignedCodeIsNormal(v.today, Key(s, v));
    NormalisingIsIdempotent(v.inst.code);
    forall k | k in s'.rows ensures k < s'.next && s'.rows[k].code != "" && Upper(Strip(s'.rows[k].code)) == s'.rows[k].code {
      CodeStep(s, v, k);
    }
  }

  const NO_VENDORS := Vendors(map[], 0)

  /** After any run of inserts, full saves and partial saves, every stored code is non-empty and in
      normal form, and every code that goes back to an assignment is the one assigned to its own row. */
  lemma {:induction false} EveryVendorIsCoded(vs: seq<VendorSave>)
    ensures var s := AfterVendorSaves(NO_VENDORS, vs);
      Coded(s) && forall k :: AssignedOn(NO_VENDORS, vs, k).Some? ==>
        k in s.rows && s.rows[k].code == AssignedCode(AssignedOn(NO_VENDORS, vs, k).value, k)
  {
    if vs != [] {
      var init, v := vs[..|vs| - 1], vs[|vs| - 1];
      var before := AfterVendorSaves(NO_VENDORS, init);
      EveryVendorIsCoded(init);
      SaveKeepsCoded(before, v);
      forall k | AssignedOn(NO_VENDORS, vs, k).Some?
        ensures var s := AfterVendorSave(before, v); k in s.rows && s.rows[k].code == AssignedCode(AssignedOn(NO_VENDORS, vs, k).value, k)
      {
        CodeStep(before, v, k);
      }
    }
  }

  /** Saving a loaded vendor again, in full or in part, leaves its code and its origin as they were. */
  lemma ResavingKeepsTheCode(vs: seq<VendorSave>, v: VendorSave, k: nat)
    requires var s := AfterVendorSaves(NO_VENDORS, vs); k in s.rows && v.pk == Some(k) && v.inst.code == s.rows[k].code
    ensures var s := AfterVendorSaves(NO_VENDORS, vs);
      && AfterVendorSave(s, v).rows[k].code == s.rows[k].code
      && AssignedOn(NO_VENDORS, vs + [v], k) == AssignedOn(NO_VENDORS, vs, k)
  {
    EveryVendorIsCoded(vs);
    assert (vs + [v])[..|vs|] == vs;
    CodeStep(AfterVendorSaves(NO_VENDORS, vs), v, k);
  }

  lemma AssignedCodesDiffer(d: Stamp, j: nat, e: Stamp, k: nat)
    requires j != k
    ensures AssignedCode(d, j) != AssignedCode(e, k)
  {
    AssignedCodeReadsBack(d, j);
    AssignedCodeReadsBack(e, k);
  }

  /** Two different vendors never share an assigned code, whenever each one was assigned and however
      often either has been saved since. */
  lemma AssignedCodesAreUnique(vs: seq<VendorSave>, j: nat, k: nat)
    requires j != k && AssignedOn(NO_VENDORS, vs, j).Some? && AssignedOn(NO_VENDORS, vs, k).Some?
    ensures var s := AfterVendorSaves(NO_VENDORS, vs); j in s.rows && k in s.rows && s.rows[j].code != s.rows[k].code
  {
    EveryVendorIsCoded(vs);
    AssignedCodesDiffer(AssignedOn(NO_VENDORS, vs, j).value, j, AssignedOn(NO_VENDORS, vs, k).value, k);
  }

  // ----- When all codes differ -----

  ghost predicate AllDiffer(s: Vendors) {
    forall j, k :: j in s.rows && k in s.rows && j != k ==> s.rows[j].code != s.rows[k].code
  }

  ghost predicate AlwaysDiffer(s: Vendors, vs: seq<VendorSave>) {
    AllDiffer(AfterVendorSaves(s, vs)) && (vs == [] || AlwaysDiffer(s, vs[..|vs| - 1]))
  }

  /** A save stores a code that some other row has: a chosen one that is taken, or an assigned one
      that a client has chosen for another row before. */
  ghost predicate Collides(s: Vendors, v: VendorSave, other: nat) {
    WritesCode(s, v) && other in s.rows && other != Key(s, v) && s.rows[other].code == NewCode(s, v)
  }

  ghost predicate IsTaken(s: Vendors, v: VendorSave) { exists other :: Collides(s, v, other) }

  ghost predicate NeverCollides(s: Vendors, vs: seq<VendorSave>) {
    vs == [] || (NeverCollides(s, vs[..|vs| - 1]) && !IsTaken(AfterVendorSaves(s, vs[..|vs| - 1]), vs[|vs| - 1]))
  }

  /** The column is not unique. Over any run, all codes differ at every moment if and only if no save
      stores a code that another row has at its turn. */
  lemma {:induction false} CodesDifferIffNoCollision(vs: seq<VendorSave>)
    ensures AlwaysDiffer(NO_VENDORS, vs) <==> NeverCollides(NO_VENDORS, vs)
  {
    if vs != [] {
      var s, v := AfterVendorSaves(NO_VENDORS, vs[..|vs| - 1]), vs[|vs| - 1];
      CodesDifferIffNoCollision(vs[..|vs| - 1]);
      if AllDiffer(s) { DifferStep(s, v); }
    }
  }

  lemma DifferStep(s: Vendors, v: VendorSave)
    requires AllDiffer(s)
    ensures AllDiffer(AfterVendorSave(s, v)) <==> !IsTaken(s, v)
  {
    var s', key := AfterVendorSave(s, v), Key(s, v);
    forall j ensures j in s.rows ==> j in s'.rows { CodeStep(s, v, j); }
    if other :| Collides(s, v, other) {
      CodeStep(s, v, other);
      CodeStep(s, v, key);
    } else {
      forall j, k | j in s'.rows && k in s'.rows && j != k ensures s'.rows[j].code != s'.rows[k].code {
        CodeStep(s, v, j);
        CodeStep(s, v, k);
        assert !Collides(s, v, j) && !Collides(s, v, k);
      }
    }
  }

  /** Assignment itself never causes a collision: an assigned code can only meet one that a client
      chose, and clients that choose no code at all never see one. */
  lemma AssignedCodesOnlyMeetChosenOnes(vs: seq<VendorSave>, v: VendorSave, other: nat)
    requires LacksCode(v) && Collides(AfterVendorSaves(NO_VENDORS, vs), v, other)
    ensures AssignedOn(NO_VENDORS, vs, other).None?
  {
    EveryVendorIsCoded(vs);
    if AssignedOn(NO_VENDORS, vs, other).Some? {
      AssignedCodesDiffer(AssignedOn(NO_VENDORS, vs, other).value, other, v.today, Key(AfterVendorSaves(NO_VENDORS, vs), v));
    }
  }

  /** Every code a save brings is blank or the one its row has. */
  ghost predicate ChoosesNone(s: Vendors, vs: seq<VendorSave>) {
    vs == [] || (ChoosesNone(s, vs[..|vs| - 1])
                 && var before, v := AfterVendorSaves(s, vs[..|vs| - 1]), vs[|vs| - 1];
                    LacksCode(v) || (v.pk.Some? && v.pk.value in before.rows && before.rows[v.pk.value].code == GivenCode(v)))
  }

  lemma {:induction false} UnchosenCodesDiffer(vs: seq<VendorSave>)
    requires ChoosesNone(NO_VENDORS, vs)
    ensures AllDiffer(AfterVendorSaves(NO_VENDORS, vs))
  {
    var s := AfterVendorSaves(NO_VENDORS, vs);
    forall j, k | j in s.rows && k in s.rows && j != k ensures s.rows[j].code != s.rows[k].code {
      UnchosenIsAssigned(vs, j);
      UnchosenIsAssigned(vs, k);
      AssignedCodesAreUnique(vs, j, k);
    }
  }

  lemma {:induction false} UnchosenIsAssigned(vs: seq<VendorSave>, k: nat)
    requires ChoosesNone(NO_VENDORS, vs) && k in AfterVendorSaves(NO_VENDORS, vs).rows
    ensures AssignedOn(NO_VENDORS, vs, k).Some?
  {
    if vs != [] {
      var before, v := AfterVendorSaves(NO_VENDORS, vs[..|vs| - 1]), vs[|vs| - 1];
      CodeStep(before, v, k);
      if k in before.rows { UnchosenIsAssigned(vs[..|vs| - 1], k); }
    }
  }

  // ----- The active flag -----

  predicate FlagFits(r: Vendor) { r.active ==> MayBeActive(r.status) }

  /** A partial save that writes only one of status and flag, against what the other one is stored as. */
  predicate SplitsFlag(stored: Vendor, v: VendorSave) {
    && v.fields.Some?
    && ((StatusField in v.fields.value && Active !in v.fields.value && !MayBeActive(v.inst.status) && stored.active)
        || (Active in v.fields.value && StatusField !in v.fields.value
            && MayBeActive(v.inst.status) && v.inst.active && !MayBeActive(stored.status)))
  }

  ghost predicate FlagsFit(s: Vendors) { forall k <- s.rows :: FlagFits(s.rows[k]) }

  ghost predicate FlagsAlwaysFit(s: Vendors, vs: seq<VendorSave>) {
    FlagsFit(AfterVendorSaves(s, vs)) && (vs == [] || FlagsAlwaysFit(s, vs[..|vs| - 1]))
  }

  /** No accepted save of the run splits the two at its turn. */
  ghost predicate NeverSplits(s: Vendors, vs: seq<VendorSave>) {
    vs == [] || (NeverSplits(s, vs[..|vs| - 1])
                 && var before, v := AfterVendorSaves(s, vs[..|vs| - 1]), vs[|vs| - 1];
                    Accepted(before, v) && v.pk.Some? && v.pk.value in before.rows ==> !SplitsFlag(before.rows[v.pk.value], v))
  }

  /** The flag is recomputed in memory at every save but written only when listed: blocking a vendor
      with a partial save of the status leaves it stored as active. A save keeps "active vendors are
      ACTIVE or ON_HOLD" exactly when it does not split the two. */
  lemma FlagKeptIffNotSplit(s: Vendors, v: VendorSave, k: nat)
    requires k in s.rows && FlagFits(s.rows[k]) && v.pk == Some(k) && Accepted(s, v)
    ensures FlagFits(AfterVendorSave(s, v).rows[k]) <==> !SplitsFlag(s.rows[k], v)
  {
    if v.fields.Some? {
      assert StatusField in WrittenFields(v) <==> StatusField in v.fields.value;
      assert Active in WrittenFields(v) <==> Active in v.fields.value;
    }
  }

  /** And over any run every stored flag fits at every moment exactly when no save splits the two. */
  lemma {:induction false} FlagsFitIffNeverSplit(vs: seq<VendorSave>)
    ensures FlagsAlwaysFit(NO_VENDORS, vs) <==> NeverSplits(NO_VENDORS, vs)
  {
    if vs != [] {
      var s, v := AfterVendorSaves(NO_VENDORS, vs[..|vs| - 1]), vs[|vs| - 1];
      FlagsFitIffNeverSplit(vs[..|vs| - 1]);
      if FlagsFit(s) && Accepted(s, v) && v.pk.Some? && v.pk.value in s.rows {
        FlagKeptIffNotSplit(s, v, v.pk.value);
      }
    }
  }
}
