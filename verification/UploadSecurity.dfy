/** Upload validation: the detected type comes from the leading bytes, and the stored name from a
    sanitised stem and the extension of the detected type.
 */
module UploadSecurity {
  import opened Options

  // ----- The kind of a file -----

  type Byte = b: int | 0 <= b < 256

  datatype Kind = Jpeg | Png | Gif | Webp | Pdf

  const PNG_SIGNATURE: seq<Byte> := [0x89, 0x50, 0x4E, 0x47, 0x0D, 0x0A, 0x1A, 0x0A]
  const GIF87A: seq<Byte> := [0x47, 0x49, 0x46, 0x38, 0x37, 0x61]
  const GIF89A: seq<Byte> := [0x47, 0x49, 0x46, 0x38, 0x39, 0x61]
  const RIFF: seq<Byte> := [0x52, 0x49, 0x46, 0x46]
  const WEBP: seq<Byte> := [0x57, 0x45, 0x42, 0x50]
  const PDF_SIGNATURE: seq<Byte> := [0x25, 0x50, 0x44, 0x46, 0x2D]
  const JPEG_SIGNATURE: seq<Byte> := [0xFF, 0xD8, 0xFF]

  /** A slice of a byte string, which may be cut short by its end. */
  function Slice(h: seq<Byte>, from: nat, to: nat): seq<Byte>
  {
    if from <= to <= |h| then h[from..to] else if from <= |h| then h[from..] else []
  }

  predicate Matches(kind: Kind, h: seq<Byte>) {
    match kind
    case Jpeg => Slice(h, 0, 3) == JPEG_SIGNATURE
    case Png => Slice(h, 0, 8) == PNG_SIGNATURE
    case Gif => Slice(h, 0, 6) == GIF87A || Slice(h, 0, 6) == GIF89A
    case Webp => Slice(h, 0, 4) == RIFF && Slice(h, 8, 12) == WEBP
    case Pdf => Slice(h, 0, 5) == PDF_SIGNATURE
  }

  /** The first signature in table order that matches. */
  function DetectKind(h: seq<Byte>): Option<Kind> {
    if Matches(Jpeg, h) then Some(Jpeg)
    else if Matches(Png, h) then Some(Png)
    else if Matches(Gif, h) then Some(Gif)
    else if Matches(Webp, h) then Some(Webp)
    else if Matches(Pdf, h) then Some(Pdf)
    else None
  }

  /** No header has two kinds, so the order of the table does not matter and the detected kind is the
      one kind whose signature the header carries. */
  lemma SignaturesAreExclusive(h: seq<Byte>, kind: Kind)
    ensures DetectKind(h) == Some(kind) <==> Matches(kind, h)
  {
    if h != [] && exists k: Kind :: Matches(k, h) {
      var k: Kind :| Matches(k, h);
      FirstByte(k, h);
      if Matches(kind, h) { FirstByte(kind, h); }
    }
  }

  function Lead(kind: Kind): Byte {
    match kind case Jpeg => 0xFF case Png => 0x89 case Gif => 0x47 case Webp => 0x52 case Pdf => 0x25
  }

  lemma FirstByte(kind: Kind, h: seq<Byte>)
    requires Matches(kind, h)
    ensures h != [] && h[0] == Lead(kind)
  {
    match kind
    case Jpeg => assert Slice(h, 0, 3)[0] == 0xFF;
    case Png => assert Slice(h, 0, 8)[0] == 0x89;
    case Gif => assert Slice(h, 0, 6)[0] == 0x47;
    case Webp => assert Slice(h, 0, 4)[0] == 0x52;
    case Pdf => assert Slice(h, 0, 5)[0] == 0x25;
  }

  function Extension(kind: Kind): string {
    match kind case Jpeg => ".jpg" case Png => ".png" case Gif => ".gif" case Webp => ".webp" case Pdf => ".pdf"
  }

  // ----- The stem of a path -----

  predicate IsLetterOrDigit(c: char) { 'a' <= c <= 'z' || 'A' <= c <= 'Z' || '0' <= c <= '9' }

  predicate IsPunctuation(c: char) { c == '.' || c == '_' || c == '-' }

  predicate IsSafe(c: char) { IsLetterOrDigit(c) || IsPunctuation(c) }

  /** The position after the last `c`, or 0. */
  function AfterLast(s: string, c: char): (i: nat)
    ensures i <= |s| && (i > 0 ==> s[i - 1] == c) && forall j :: i <= j < |s| ==> s[j] != c
  {
    if s == "" then 0 else if s[|s| - 1] == c then |s| else AfterLast(s[..|s| - 1], c)
  }

  /** The last component of a POSIX path, empty and `.` components dropped. */
  function PathName(path: string): string
    decreases |path|
  {
    var i := AfterLast(path, '/');
    if path[i..] != "" && path[i..] != "." then path[i..]
    else if i == 0 then ""
    else PathName(path[..i - 1])
  }

  /** The name without its suffix; a leading or trailing dot starts no suffix. */
  function StemOf(name: string): string {
    var i := AfterLast(name, '.');
    if 1 < i < |name| then name[..i - 1] else name
  }

  // ----- The safe name -----

  /** Each run of unsafe characters becomes one underscore. */
  function Collapse(s: string): string {
    if s == "" then "" else
      var init, last := s[..|s| - 1], s[|s| - 1];
      if IsSafe(last) then Collapse(init) + [last]
      else if init != "" && !IsSafe(init[|init| - 1]) then Collapse(init)
      else Collapse(init) + "_"
  }

  function TrimLeft(s: string): string {
    if s != "" && IsPunctuation(s[0]) then TrimLeft(s[1..]) else s
  }

  function TrimRight(s: string): string {
    if s != "" && IsPunctuation(s[|s| - 1]) then TrimRight(s[..|s| - 1]) else s
  }

  function First60(s: string): string { if |s| <= 60 then s else s[..60] }

  function SafeStem(original: string): string {
    var stem := First60(TrimRight(TrimLeft(Collapse(StemOf(PathName(original))))));
    if stem == "" then "upload" else stem
  }

  function SafeName(original: string, extension: string): string { SafeStem(original) + extension }

  // ----- What the rewriting does, piece by piece -----

  /** The known leading bytes, whatever follows, and the extension each kind gets. */
  lemma KnownFiles(rest: seq<Byte>, size: seq<Byte>)
    requires |size| == 4
    ensures DetectKind([0xFF, 0xD8, 0xFF] + rest) == Some(Jpeg) && Extension(Jpeg) == ".jpg"
    ensures DetectKind([0x89, 0x50, 0x4E, 0x47, 0x0D, 0x0A, 0x1A, 0x0A] + rest) == Some(Png) && Extension(Png) == ".png"
    ensures DetectKind([0x47, 0x49, 0x46, 0x38, 0x37, 0x61] + rest) == Some(Gif) && Extension(Gif) == ".gif"
    ensures DetectKind([0x47, 0x49, 0x46, 0x38, 0x39, 0x61] + rest) == Some(Gif)
    ensures DetectKind([0x52, 0x49, 0x46, 0x46] + size + [0x57, 0x45, 0x42, 0x50] + rest) == Some(Webp) && Extension(Webp) == ".webp"
    ensures DetectKind([0x25, 0x50, 0x44, 0x46, 0x2D] + rest) == Some(Pdf) && Extension(Pdf) == ".pdf"
  {
    var webp := [0x52, 0x49, 0x46, 0x46] + size + [0x57, 0x45, 0x42, 0x50] + rest;
    assert Slice(webp, 0, 4) == [0x52, 0x49, 0x46, 0x46] && Slice(webp, 8, 12) == [0x57, 0x45, 0x42, 0x50];
    SignaturesAreExclusive(webp, Webp);
    SignaturesAreExclusive([0xFF, 0xD8, 0xFF] + rest, Jpeg);
    SignaturesAreExclusive([0x89, 0x50, 0x4E, 0x47, 0x0D, 0x0A, 0x1A, 0x0A] + rest, Png);
    SignaturesAreExclusive([0x47, 0x49, 0x46, 0x38, 0x37, 0x61] + rest, Gif);
    SignaturesAreExclusive([0x47, 0x49, 0x46, 0x38, 0x39, 0x61] + rest, Gif);
    SignaturesAreExclusive([0x25, 0x50, 0x44, 0x46, 0x2D] + rest, Pdf);
  }

  /** One or more unsafe characters between safe ones become one underscore; everything else is kept. */
  lemma {:induction false} CollapseRun(before: string, run: string, after: string)
    requires AllSafe(before) && AllSafe(after) && run != "" && forall c <- run :: !IsSafe(c)
    ensures Collapse(before + run + after) == before + "_" + after
  {
    var s := before + run + after;
    if after != "" {
      var init, last := after[..|after| - 1], after[|after| - 1];
      assert last in after && forall c <- init :: c in after;
      assert s[..|s| - 1] == before + run + init;
      CollapseRun(before, run, init);
    } else if |run| > 1 {
      var init := run[..|run| - 1];
      assert run[|run| - 1] in run && init[|init| - 1] in run && forall c <- init :: c in run;
      assert s == before + run && s[..|s| - 1] == before + init + "";
      CollapseRun(before, init, "");
    } else {
      assert run[0] in run;
      assert s[..|s| - 1] == before;
      if before != "" { assert before[|before| - 1] in before; }
      CollapseKeepsSafe(before);
    }
  }

  /** Runs are rewritten one by one: after a safe character the rest of the name is on its own. */
  lemma {:induction false} CollapseSplits(a: string, b: string)
    requires a != "" && IsSafe(a[|a| - 1])
    ensures Collapse(a + b) == Collapse(a) + Collapse(b)
  {
    if b == "" {
      assert a + b == a;
    } else {
      var init := b[..|b| - 1];
      assert (a + b)[..|a + b| - 1] == a + init;
      CollapseSplits(a, init);
    }
  }

  /** Only the last component of a path counts. */
  lemma LastComponent(dir: string, name: string)
    requires (forall c <- name :: c != '/') && name != "" && name != "."
    ensures PathName(dir + "/" + name) == name && PathName(name) == name
  {
    forall i | 0 <= i < |name| ensures name[i] != '/' { assert name[i] in name; }
    LastAt(dir + "/", name, '/');
    LastAt("", name, '/');
    assert "" + name == name && dir + "/" + name == (dir + "/") + name;
    assert ((dir + "/") + name)[|dir| + 1..] == name && name[0..] == name;
  }

  lemma {:induction false} LastAt(a: string, b: string, c: char)
    requires (forall i :: 0 <= i < |b| ==> b[i] != c) && (a == "" || a[|a| - 1] == c)
    ensures AfterLast(a + b, c) == |a|
  {
    if b == "" {
      assert a + b == a;
    } else {
      assert (a + b)[..|a + b| - 1] == a + b[..|b| - 1];
      LastAt(a, b[..|b| - 1], c);
    }
  }

  /** The stem is the name without its last suffix, if something stands before and after the dot. */
  lemma StemDropsLastSuffix(stem: string, suffix: string)
    requires forall c <- suffix :: c != '.'
    ensures stem != "" && suffix != "" ==> StemOf(stem + "." + suffix) == stem
    ensures StemOf("." + suffix) == "." + suffix && StemOf(stem + ".") == stem + "." && StemOf(suffix) == suffix
  {
    forall i | 0 <= i < |suffix| ensures suffix[i] != '.' { assert suffix[i] in suffix; }
    LastAt(stem + ".", suffix, '.');
    LastAt(".", suffix, '.');
    LastAt(stem + ".", "", '.');
    LastAt("", suffix, '.');
    assert "" + suffix == suffix && (stem + ".") + "" == stem + ".";
    assert (stem + "." + suffix)[..|stem|] == stem;
  }

  /** A name of safe characters whose stem is framed by punctuation: the frame goes, at most 60 characters
      stay, and a stem of nothing else becomes "upload". */
  lemma SafeStemIs(dir: string, left: string, core: string, right: string, suffix: string)
    requires AllSafe(left) && AllSafe(core) && AllSafe(right)
    requires (forall c <- left :: c == '_' || c == '-') && (forall c <- right :: c == '_' || c == '-')
    requires core != "" && !IsPunctuation(core[0]) && !IsPunctuation(core[|core| - 1])
    requires suffix != "" && forall c <- suffix :: c != '.' && c != '/'
    ensures SafeStem(dir + "/" + (left + core + right + "." + suffix)) == if |core| > 60 then core[..60] else core
  {
    var stem := left + core + right;
    var name := stem + "." + suffix;
    forall c | c in name ensures c != '/' {
      assert c in left || c in core || c in right || c == '.' || c in suffix;
    }
    LastComponent(dir, name);
    StemDropsLastSuffix(stem, suffix);
    assert AllSafe(stem);
    CollapseKeepsSafe(stem);
    TrimFrame(left, core, right);
  }

  lemma {:induction false} TrimFrame(left: string, core: string, right: string)
    requires (forall c <- left :: IsPunctuation(c)) && forall c <- right :: IsPunctuation(c)
    requires core != "" && !IsPunctuation(core[0]) && !IsPunctuation(core[|core| - 1])
    ensures TrimRight(TrimLeft(left + core + right)) == core
  {
    if left != "" {
      assert left[0] in left && forall c <- left[1..] :: c in left;
      assert (left + core + right)[1..] == left[1..] + core + right;
      TrimFrame(left[1..], core, right);
    } else {
      assert left + core + right == core + right;
      assert TrimLeft(core + right) == core + right;
      TrimTail(core, right);
    }
  }

  lemma {:induction false} TrimTail(core: string, right: string)
    requires (forall c <- right :: IsPunctuation(c)) && core != "" && !IsPunctuation(core[|core| - 1])
    ensures TrimRight(core + right) == core
  {
    if right == "" {
      assert core + right == core;
    } else {
      assert right[|right| - 1] in right && forall c <- right[..|right| - 1] :: c in right;
      assert (core + right)[..|core + right| - 1] == core + right[..|right| - 1];
      TrimTail(core, right[..|right| - 1]);
    }
  }

  /** A name with nothing usable becomes "upload". */
  lemma EmptyNameIsUpload()
    ensures SafeName("", ".png") == "upload.png"
  {
  }

  // ----- What the stem looks like -----

  predicate AllSafe(s: string) { forall c <- s :: IsSafe(c) }

  /** A stem the rewriting can produce. */
  predicate GoodStem(s: string) { 1 <= |s| <= 60 && AllSafe(s) && IsLetterOrDigit(s[0]) }

  lemma {:induction false} CollapseIsSafe(s: string)
    ensures AllSafe(Collapse(s))
  {
    if s != "" { CollapseIsSafe(s[..|s| - 1]); }
  }

  lemma {:induction false} TrimLeftFacts(s: string)
    ensures AllSafe(s) ==> AllSafe(TrimLeft(s))
    ensures TrimLeft(s) == "" || !IsPunctuation(TrimLeft(s)[0])
  {
    if s != "" && IsPunctuation(s[0]) {
      assert forall c <- s[1..] :: c in s;
      TrimLeftFacts(s[1..]);
    }
  }

  lemma {:induction false} TrimRightFacts(s: string)
    ensures var r := TrimRight(s);
      && r <= s && (r == "" || !IsPunctuation(r[|r| - 1])) && TrimRight(r) == r
      && (s != "" && !IsPunctuation(s[0]) ==> r != "")
  {
    if s != "" && IsPunctuation(s[|s| - 1]) { TrimRightFacts(s[..|s| - 1]); }
  }

  /** For every original name the stem is 1 to 60 safe characters and starts with a letter or digit. */
  lemma StemIsGood(original: string)
    ensures GoodStem(SafeStem(original))
  {
    var a := Collapse(StemOf(PathName(original)));
    CollapseIsSafe(StemOf(PathName(original)));
    TrimLeftFacts(a);
    TrimRightFacts(TrimLeft(a));
    var stem := First60(TrimRight(TrimLeft(a)));
    assert stem <= TrimLeft(a);
    assert forall c <- stem :: c in TrimLeft(a);
    if stem != "" { assert stem[0] == TrimLeft(a)[0] && stem[0] in stem; }
  }

  // ----- Applying it again -----

  /** An extension of the table: a dot and then letters or digits. */
  predicate GoodExtension(e: string) { |e| >= 2 && e[0] == '.' && forall i :: 1 <= i < |e| ==> IsLetterOrDigit(e[i]) }

  lemma ExtensionsAreGood(kind: Kind)
    ensures GoodExtension(Extension(kind))
  {
  }

  lemma {:induction false} CollapseKeepsSafe(s: string)
    requires AllSafe(s)
    ensures Collapse(s) == s
  {
    if s != "" {
      assert s[|s| - 1] in s;
      assert forall c <- s[..|s| - 1] :: c in s;
      CollapseKeepsSafe(s[..|s| - 1]);
    }
  }

  /** The path machinery finds the stem of a good name again. */
  lemma StemOfGoodName(t: string, e: string)
    requires GoodStem(t) && GoodExtension(e)
    ensures StemOf(PathName(t + e)) == t
  {
    var n := t + e;
    forall i | 0 <= i < |n| ensures n[i] != '/' {
      if i < |t| { assert t[i] in t; }
    }
    assert AfterLast(n, '/') == 0 && n[0..] == n;
    assert PathName(n) == n;
    var d := AfterLast(n, '.');
    assert n[|t|] == '.';
    assert d == |t| + 1;
    assert n[..d - 1] == t;
  }

  /** On a name with a good stem, the rewriting only trims punctuation off the end of the stem. */
  lemma SafeNameOfGoodName(t: string, e: string)
    requires GoodStem(t) && GoodExtension(e)
    ensures SafeName(t + e, e) == TrimRight(t) + e && GoodStem(TrimRight(t))
  {
    StemOfGoodName(t, e);
    CollapseKeepsSafe(t);
    TrimRightFacts(t);
    assert forall c <- TrimRight(t) :: c in t;
  }

  /** After at most two applications the name no longer changes. */
  lemma TwoPassesReachAFixedPoint(original: string, e: string)
    requires GoodExtension(e)
    ensures var twice := SafeName(SafeName(original, e), e); SafeName(twice, e) == twice
  {
    StemIsGood(original);
    SafeNameOfGoodName(SafeStem(original), e);
    TrimRightFacts(SafeStem(original));
    SafeNameOfGoodName(TrimRight(SafeStem(original)), e);
  }

  /** One application is enough exactly when cutting at 60 characters did not leave punctuation last. */
  lemma OnePassIsEnoughIff(original: string, e: string)
    requires GoodExtension(e)
    ensures SafeName(SafeName(original, e), e) == SafeName(original, e)
      <==> IsLetterOrDigit(SafeStem(original)[|SafeStem(original)| - 1])
  {
    var t := SafeStem(original);
    StemIsGood(original);
    SafeNameOfGoodName(t, e);
    SameWithSuffix(TrimRight(t), t, e);
    TrimRightKeepsIff(t);
    assert t[|t| - 1] in t;
  }

  lemma SameWithSuffix(a: string, b: string, e: string)
    ensures a + e == b + e <==> a == b
  {
    if a + e == b + e {
      assert |a| == |b|;
      assert a == (a + e)[..|a|] && b == (b + e)[..|b|];
    }
  }

  lemma TrimRightKeepsIff(t: string)
    requires t != ""
    ensures TrimRight(t) == t <==> !IsPunctuation(t[|t| - 1])
  {
    TrimRightFacts(t);
  }

  /** The names left alone are exactly those with a good stem that ends in a letter or digit. */
  lemma FixedNames(t: string, e: string)
    requires GoodExtension(e)
    ensures SafeName(t + e, e) == t + e <==> GoodStem(t) && IsLetterOrDigit(t[|t| - 1])
  {
    if SafeName(t + e, e) == t + e {
      StemIsGood(t + e);
      assert (SafeStem(t + e) + e)[..|SafeStem(t + e)|] == (t + e)[..|t|];
      assert SafeStem(t + e) == t;
      OnePassIsEnoughIff(t + e, e);
    }
    if GoodStem(t) && IsLetterOrDigit(t[|t| - 1]) {
      SafeNameOfGoodName(t, e);
    }
  }

  // ----- Validation -----

  datatype Failure = Empty | TooLarge | WrongType

  /** An uploaded file: its reported size, its bytes, the read position, and its name, which some
      file objects do not let anyone set. */
  class Upload {
    const size: int
    const data: seq<Byte>
    const renamable: bool
    var name: string
    var position: nat

    constructor (name: string, data: seq<Byte>, size: int, renamable: bool)
      ensures this.name == name && this.data == data && this.size == size && this.renamable == renamable
    {
      this.name, this.data, this.size, this.renamable, position := name, data, size, renamable, 0;
    }

    /** `read(n)` from the current position. */
    method Read(n: nat) returns (bytes: seq<Byte>)
      requires position <= |data|
      modifies this
      ensures bytes == Slice(data, old(position), old(position) + n)
      ensures position == old(position) + |bytes| <= |data| && name == old(name)
    {
      bytes := Slice(data, position, position + n);
      position := position + |bytes|;
    }
  }

  /** `validate_upload`. */
  method ValidateUpload(file: Upload, allowed: set<Kind>, maxBytes: int) returns (kind: Option<Kind>, why: Failure)
    modifies file
    ensures kind.Some? <==> 0 < file.size <= maxBytes && exists k <- allowed :: Matches(k, file.data)
    ensures kind.Some? ==> kind.value in allowed && Matches(kind.value, file.data)
    ensures file.position == if 0 < file.size <= maxBytes then 0 else old(file.position)
    ensures kind.Some? && file.renamable ==> file.name == SafeName(old(file.name), Extension(kind.value))
    ensures kind.None? || !file.renamable ==> file.name == old(file.name)
    ensures kind.None? ==> why == if file.size <= 0 then Empty else if file.size > maxBytes then TooLarge else WrongType
  {
    kind, why := None, WrongType;
    if file.size <= 0 { why := Empty; return; }
    if file.size > maxBytes { why := TooLarge; return; }
    file.position := 0;
    var header := file.Read(32);
    file.position := 0;
    HeaderIsEnough(file.data);
    var detected := DetectKind(header);
    forall k: Kind ensures DetectKind(header) == Some(k) <==> Matches(k, file.data) {
      SignaturesAreExclusive(header, k);
    }
    if detected.None? || detected.value !in allowed { return; }
    kind := detected;
    if file.renamable {
      file.name := SafeName(file.name, Extension(kind.value));
    }
  }

  /** The first 32 bytes decide. */
  lemma HeaderIsEnough(data: seq<Byte>)
    ensures forall k: Kind :: Matches(k, Slice(data, 0, 32)) <==> Matches(k, data)
  {
    var h := Slice(data, 0, 32);
    assert forall from: nat, to: nat :: from <= to <= 32 ==> Slice(h, from, to) == Slice(data, from, to);
  }

  /** The stored name of every accepted, renamable upload: a good stem and the extension of the kind
      its bytes show, whatever name and content type the client sent. */
  lemma AcceptedNameIsSafe(original: string, kind: Kind)
    ensures var n, e := SafeName(original, Extension(kind)), Extension(kind);
      && GoodStem(n[..|n| - |e|]) && n[|n| - |e|..] == e && GoodExtension(e)
      && forall c <- n :: IsSafe(c)
  {
    StemIsGood(original);
    ExtensionsAreGood(kind);
    var t, e := SafeStem(original), Extension(kind);
    assert (t + e)[..|t|] == t && (t + e)[|t|..] == e;
    forall i | 0 <= i < |e| ensures IsSafe(e[i]) {}
  }
}
