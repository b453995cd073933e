/** The `db_table` patcher: scan the classes of a parsed module, collect one text per class that needs
    a table name, and insert the texts into the file's lines from the bottom up.
 */
module TextInsertion {
  import opened Options

  // ----- The syntax tree, as far as the scan looks at it -----

  /** `attr` of an assignment is the attribute of the called function on its right, or "". */
  datatype Node =
    | ClassDef(name: string, lineno: nat, bases: seq<string>, body: seq<Node>)
    | Assign(targets: seq<string>, attr: string)
    | Other

  datatype Replacement = Replacement(lineno: nat, text: string)

  predicate EndsWith(s: string, suffix: string) {
    |suffix| <= |s| && s[|s| - |suffix|..] == suffix
  }

  predicate IsField(n: Node) { n.Assign? && EndsWith(n.attr, "Field") }

  predicate IsMeta(n: Node) { n.ClassDef? && n.name == "Meta" }

  predicate NamesTable(n: Node) { n.Assign? && "db_table" in n.targets }

  /** A Meta class that names the table. */
  predicate MetaNames(n: Node) { IsMeta(n) && exists a <- n.body :: NamesTable(a) }

  /** A class is patched if it looks like a model and none of its Meta classes names a table. */
  predicate Selected(n: Node) {
    && n.ClassDef?
    && ((exists f <- n.body :: IsField(f)) || "TimeStampedModel" in n.bases)
    && forall m <- n.body :: !MetaNames(m)
  }

  function LastMeta(body: seq<Node>): (m: Option<Node>)
    ensures m.Some? <==> exists n <- body :: IsMeta(n)
    ensures m.Some? ==> IsMeta(m.value) && m.value in body
  {
    if body == [] then None
    else if IsMeta(body[|body| - 1]) then Some(body[|body| - 1])
    else LastMeta(body[..|body| - 1])
  }

  function LowerChar(c: char): char { if 'A' <= c <= 'Z' then c - 'A' + 'a' else c }

  function Lower(s: string): string { seq(|s|, i requires 0 <= i < |s| => LowerChar(s[i])) }

  function NewLine(name: string): string { "        db_table = \"subscriptions_" + Lower(name) + "\"\n" }

  /** The text for one class: into its last Meta if it has one, else a new Meta, placed after the line
      on which that class statement begins. */
  function Patch(n: Node): Replacement
    requires n.ClassDef?
  {
    match LastMeta(n.body)
    case Some(m) => Replacement(m.lineno, NewLine(n.name))
    case None => Replacement(n.lineno, "    class Meta:\n" + NewLine(n.name))
  }

  function Patches(tree: seq<Node>): seq<Replacement> {
    if tree == [] then [] else
      var rest, last := Patches(tree[..|tree| - 1]), tree[|tree| - 1];
      if Selected(last) then rest + [Patch(last)] else rest
  }

  function SelectedOf(tree: seq<Node>): seq<Node> {
    if tree == [] then [] else
      var rest, last := SelectedOf(tree[..|tree| - 1]), tree[|tree| - 1];
      if Selected(last) then rest + [last] else rest
  }

  /** Each selected class gets exactly one replacement, its own, in file order. */
  lemma {:induction false} OnePatchPerSelectedClass(tree: seq<Node>)
    ensures |Patches(tree)| == |SelectedOf(tree)|
    ensures forall i :: 0 <= i < |Patches(tree)| ==> SelectedOf(tree)[i].ClassDef? && Patches(tree)[i] == Patch(SelectedOf(tree)[i])
    ensures forall n :: n in SelectedOf(tree) <==> n in tree && Selected(n)
  {
    if tree != [] {
      var init, last := tree[..|tree| - 1], tree[|tree| - 1];
      OnePatchPerSelectedClass(init);
      assert tree == init + [last];
    }
  }

  // ----- Inserting -----

  /** `list.insert`: past the end it appends. */
  function Insert(lines: seq<string>, i: nat, text: string): seq<string> {
    if i >= |lines| then lines + [text] else lines[..i] + [text] + lines[i..]
  }

  function InsertAll(lines: seq<string>, reps: seq<Replacement>): seq<string> {
    if reps == [] then lines else
      Insert(InsertAll(lines, reps[..|reps| - 1]), reps[|reps| - 1].lineno, reps[|reps| - 1].text)
  }

  function InsertSorted(sorted: seq<Replacement>, r: Replacement): seq<Replacement> {
    if sorted == [] || sorted[|sorted| - 1].lineno >= r.lineno then sorted + [r]
    else InsertSorted(sorted[..|sorted| - 1], r) + [sorted[|sorted| - 1]]
  }

  /** `sort(key=lineno, reverse=True)`: descending, equal keys in their original order. */
  function SortDescending(reps: seq<Replacement>): seq<Replacement> {
    if reps == [] then [] else InsertSorted(SortDescending(reps[..|reps| - 1]), reps[|reps| - 1])
  }

  predicate Descending(reps: seq<Replacement>) {
    forall i :: 0 < i < |reps| ==> reps[i - 1].lineno >= reps[i].lineno
  }

  // ----- The reference: all texts placed at once -----

  /** The texts meant for one position; of equal positions, the last collected comes first. */
  function TextsAt(reps: seq<Replacement>, p: nat): seq<string> {
    if reps == [] then [] else
      var rest, last := TextsAt(reps[..|reps| - 1], p), reps[|reps| - 1];
      if last.lineno == p then [last.text] + rest else rest
  }

  /** The original lines from `p` on, each preceded by the texts meant for its position. */
  function Weave(lines: seq<string>, reps: seq<Replacement>, p: nat): seq<string>
    decreases |lines| - p
  {
    TextsAt(reps, p) + (if p >= |lines| then [] else [lines[p]] + Weave(lines, reps, p + 1))
  }

  lemma {:induction false} NoTexts(reps: seq<Replacement>, p: nat)
    requires forall r <- reps :: r.lineno != p
    ensures TextsAt(reps, p) == []
  {
    if reps != [] {
      assert reps[|reps| - 1] in reps;
      NoTexts(reps[..|reps| - 1], p);
    }
  }

  lemma {:induction false} WeaveSame(lines: seq<string>, a: seq<Replacement>, b: seq<Replacement>, p: nat)
    requires p <= |lines| && forall q :: p <= q <= |lines| ==> TextsAt(a, q) == TextsAt(b, q)
    ensures Weave(lines, a, p) == Weave(lines, b, p)
    decreases |lines| - p
  {
    if p < |lines| { WeaveSame(lines, a, b, p + 1); }
  }

  /** Above the highest inserted position nothing changes yet. */
  lemma {:induction false} WeaveBelow(lines: seq<string>, reps: seq<Replacement>, m: nat, r: nat)
    requires m <= r <= |lines| && forall x <- reps :: x.lineno >= r
    ensures lines[..m] + Weave(lines, reps, m) == lines[..r] + Weave(lines, reps, r)
    decreases r - m
  {
    if m < r {
      NoTexts(reps, m);
      WeaveBelow(lines, reps, m + 1, r);
      assert lines[..m + 1] == lines[..m] + [lines[m]];
    }
  }

  lemma {:induction false} WeaveEmpty(lines: seq<string>, p: nat)
    requires p <= |lines|
    ensures Weave(lines, [], p) == lines[p..]
    decreases |lines| - p
  {
    if p < |lines| { WeaveEmpty(lines, p + 1); }
  }

  lemma {:induction false} DescendingBound(reps: seq<Replacement>, i: nat)
    requires Descending(reps) && i < |reps|
    ensures reps[i].lineno >= reps[|reps| - 1].lineno
    decreases |reps| - i
  {
    if i + 1 < |reps| { DescendingBound(reps, i + 1); }
  }

  /** One insertion at or above everything placed so far. */
  lemma OneMoreInsertion(lines: seq<string>, init: seq<Replacement>, reps: seq<Replacement>)
    requires reps != [] && init == reps[..|reps| - 1] && reps[|reps| - 1].lineno <= |lines|
    requires var n := reps[|reps| - 1].lineno; InsertAll(lines, init) == lines[..n] + Weave(lines, init, n)
    ensures var n := reps[|reps| - 1].lineno; InsertAll(lines, reps) == lines[..n] + Weave(lines, reps, n)
  {
    var last := reps[|reps| - 1];
    InsertAtBoundary(lines[..last.lineno], Weave(lines, init, last.lineno), last.text);
    OneMoreText(lines, init, reps, last);
  }

  lemma OneMoreText(lines: seq<string>, init: seq<Replacement>, reps: seq<Replacement>, last: Replacement)
    requires reps != [] && init == reps[..|reps| - 1] && last == reps[|reps| - 1] && last.lineno <= |lines|
    ensures Weave(lines, reps, last.lineno) == [last.text] + Weave(lines, init, last.lineno)
  {
    OneMoreBelow(lines, init, reps, last);
    WeaveSplits(lines, init, last.lineno);
    WeaveSplits(lines, reps, last.lineno);
    Regroup(last.text, TextsAt(init, last.lineno), Below(lines, init, last.lineno), Weave(lines, init, last.lineno));
  }

  lemma OneMoreBelow(lines: seq<string>, init: seq<Replacement>, reps: seq<Replacement>, last: Replacement)
    requires reps != [] && init == reps[..|reps| - 1] && last == reps[|reps| - 1] && last.lineno <= |lines|
    ensures Below(lines, reps, last.lineno) == Below(lines, init, last.lineno)
    ensures TextsAt(reps, last.lineno) == [last.text] + TextsAt(init, last.lineno)
  {
    forall q | last.lineno < q <= |lines| ensures TextsAt(init, q) == TextsAt(reps, q) { TextsElsewhere(reps, q); }
    SameBelow(lines, init, reps, last.lineno);
  }

  lemma TextsElsewhere(reps: seq<Replacement>, q: nat)
    requires reps != [] && reps[|reps| - 1].lineno != q
    ensures TextsAt(reps, q) == TextsAt(reps[..|reps| - 1], q)
  {
  }

  lemma SameBelow(lines: seq<string>, a: seq<Replacement>, b: seq<Replacement>, p: nat)
    requires p <= |lines| && forall q :: p < q <= |lines| ==> TextsAt(a, q) == TextsAt(b, q)
    ensures Below(lines, a, p) == Below(lines, b, p)
  {
    if p < |lines| { WeaveSame(lines, a, b, p + 1); }
  }

  function Below(lines: seq<string>, reps: seq<Replacement>, p: nat): seq<string>
  {
    if p >= |lines| then [] else [lines[p]] + Weave(lines, reps, p + 1)
  }

  lemma WeaveSplits(lines: seq<string>, reps: seq<Replacement>, p: nat)
    ensures Weave(lines, reps, p) == TextsAt(reps, p) + Below(lines, reps, p)
  {
  }

  lemma Regroup(text: string, here: seq<string>, below: seq<string>, both: seq<string>)
    requires both == here + below
    ensures ([text] + here) + below == [text] + both
  {
  }

  lemma DescendingAbove(reps: seq<Replacement>)
    requires Descending(reps) && reps != []
    ensures forall r <- reps :: r.lineno >= reps[|reps| - 1].lineno
  {
    forall i | 0 <= i < |reps| ensures reps[i].lineno >= reps[|reps| - 1].lineno { DescendingBound(reps, i); }
  }

  /** In descending order, inserting one after another places every text at its original position. */
  lemma {:induction false} BottomUpIsSimultaneous(lines: seq<string>, reps: seq<Replacement>)
    requires Descending(reps) && forall i :: 0 <= i < |reps| ==> reps[i].lineno <= |lines|
    ensures InsertAll(lines, reps) == Weave(lines, reps, 0)
  {
    if reps == [] {
      WeaveEmpty(lines, 0);
    } else {
      var init, n := reps[..|reps| - 1], reps[|reps| - 1].lineno;
      BottomUpIsSimultaneous(lines, init);
      DescendingAbove(reps);
      assert forall r <- init :: r in reps;
      WeaveBelow(lines, init, 0, n);
      OneMoreInsertion(lines, init, reps);
      WeaveBelow(lines, reps, 0, n);
    }
  }

  lemma InsertAtBoundary(a: seq<string>, b: seq<string>, text: string)
    ensures Insert(a + b, |a|, text) == a + ([text] + b)
  {
    if b == [] { assert a + b == a; }
  }

  // ----- Sorting -----

  lemma {:induction false} InsertSortedTexts(sorted: seq<Replacement>, r: Replacement, p: nat)
    ensures TextsAt(InsertSorted(sorted, r), p) == if r.lineno == p then [r.text] + TextsAt(sorted, p) else TextsAt(sorted, p)
  {
    var s := InsertSorted(sorted, r);
    if sorted == [] || sorted[|sorted| - 1].lineno >= r.lineno {
      assert s[..|s| - 1] == sorted;
    } else {
      var init, last := sorted[..|sorted| - 1], sorted[|sorted| - 1];
      InsertSortedTexts(init, r, p);
      assert s[..|s| - 1] == InsertSorted(init, r);
    }
  }

  lemma {:induction false} InsertSortedOrders(sorted: seq<Replacement>, r: Replacement)
    requires Descending(sorted)
    ensures var s := InsertSorted(sorted, r);
      && s != [] && Descending(s)
      && (s[|s| - 1] == r || (sorted != [] && s[|s| - 1] == sorted[|sorted| - 1]))
  {
    if sorted != [] && sorted[|sorted| - 1].lineno < r.lineno {
      InsertSortedOrders(sorted[..|sorted| - 1], r);
    }
  }

  lemma {:induction false} InsertSortedKeeps(sorted: seq<Replacement>, r: Replacement)
    ensures multiset(InsertSorted(sorted, r)) == multiset(sorted) + multiset{r}
  {
    if sorted != [] && sorted[|sorted| - 1].lineno < r.lineno {
      var init, last := sorted[..|sorted| - 1], sorted[|sorted| - 1];
      InsertSortedKeeps(init, r);
      assert InsertSorted(sorted, r) == InsertSorted(init, r) + [last];
      assert sorted == init + [last];
    }
  }

  lemma {:induction false} SortDescendingOrders(reps: seq<Replacement>)
    ensures Descending(SortDescending(reps))
  {
    if reps != [] {
      SortDescendingOrders(reps[..|reps| - 1]);
      InsertSortedOrders(SortDescending(reps[..|reps| - 1]), reps[|reps| - 1]);
    }
  }

  lemma {:induction false} SortDescendingKeeps(reps: seq<Replacement>)
    ensures multiset(SortDescending(reps)) == multiset(reps)
  {
    if reps != [] {
      var init, last := reps[..|reps| - 1], reps[|reps| - 1];
      SortDescendingKeeps(init);
      InsertSortedKeeps(SortDescending(init), last);
      assert reps == init + [last];
    }
  }

  lemma {:induction false} SortDescendingTexts(reps: seq<Replacement>, p: nat)
    ensures TextsAt(SortDescending(reps), p) == TextsAt(reps, p)
  {
    if reps != [] {
      SortDescendingTexts(reps[..|reps| - 1], p);
      InsertSortedTexts(SortDescending(reps[..|reps| - 1]), reps[|reps| - 1], p);
    }
  }

  /** Sorting and inserting from the bottom up equals placing all texts at once, positions counted in
      the original file; equal positions are covered too. */
  lemma SortedInsertionIsSimultaneous(lines: seq<string>, reps: seq<Replacement>)
    requires forall r <- reps :: r.lineno <= |lines|
    ensures InsertAll(lines, SortDescending(reps)) == Weave(lines, reps, 0)
  {
    var sorted := SortDescending(reps);
    SortDescendingOrders(reps);
    SortDescendingKeeps(reps);
    forall i | 0 <= i < |sorted| ensures sorted[i].lineno <= |lines| {
      assert sorted[i] in multiset(sorted);
      assert sorted[i] in multiset(reps);
    }
    BottomUpIsSimultaneous(lines, sorted);
    forall q | 0 <= q <= |lines| ensures TextsAt(sorted, q) == TextsAt(reps, q) { SortDescendingTexts(reps, q); }
    WeaveSame(lines, sorted, reps, 0);
  }

  predicate DistinctLines(reps: seq<Replacement>) {
    forall i, j :: 0 <= i < j < |reps| ==> reps[i].lineno != reps[j].lineno
  }

  lemma {:induction false} TextsAtOfDistinct(reps: seq<Replacement>, p: nat)
    requires DistinctLines(reps)
    ensures forall r <- reps :: r.lineno == p ==> TextsAt(reps, p) == [r.text]
    ensures (forall r <- reps :: r.lineno != p) ==> TextsAt(reps, p) == []
  {
    if reps != [] {
      var init, last := reps[..|reps| - 1], reps[|reps| - 1];
      TextsAtOfDistinct(init, p);
      assert reps == init + [last];
      assert forall i :: 0 <= i < |init| ==> reps[i].lineno != last.lineno;
    }
  }

  /** With one text per line number, the order in which the replacements were collected is irrelevant. */
  lemma CollectionOrderIsIrrelevant(lines: seq<string>, a: seq<Replacement>, b: seq<Replacement>)
    requires DistinctLines(a) && DistinctLines(b) && multiset(a) == multiset(b)
    requires forall r <- a :: r.lineno <= |lines|
    ensures InsertAll(lines, SortDescending(a)) == InsertAll(lines, SortDescending(b))
  {
    forall r ensures r in a <==> r in b {
      assert r in a <==> r in multiset(a);
      assert r in b <==> r in multiset(b);
    }
    forall q | 0 <= q <= |lines| ensures TextsAt(a, q) == TextsAt(b, q) {
      TextsAtOfDistinct(a, q);
      TextsAtOfDistinct(b, q);
    }
    WeaveSame(lines, a, b, 0);
    SortedInsertionIsSimultaneous(lines, a);
    SortedInsertionIsSimultaneous(lines, b);
  }

  // ----- Where everything ends up -----

  /** How many texts land at positions from `p` up to and including `i`. */
  function Between(reps: seq<Replacement>, p: nat, i: nat): nat {
    if reps == [] then 0 else
      Between(reps[..|reps| - 1], p, i) + (if p <= reps[|reps| - 1].lineno <= i then 1 else 0)
  }

  lemma {:induction false} BetweenSplits(reps: seq<Replacement>, p: nat, i: nat)
    requires p <= i
    ensures Between(reps, p, i) == |TextsAt(reps, p)| + Between(reps, p + 1, i)
  {
    if reps != [] { BetweenSplits(reps[..|reps| - 1], p, i); }
  }

  lemma {:induction false} BetweenAll(reps: seq<Replacement>, i: nat)
    requires forall r <- reps :: r.lineno <= i
    ensures Between(reps, 0, i) == |reps|
  {
    if reps != [] {
      assert reps[|reps| - 1] in reps;
      BetweenAll(reps[..|reps| - 1], i);
    }
  }

  lemma {:induction false} BetweenNone(reps: seq<Replacement>, p: nat, i: nat)
    requires p > i
    ensures Between(reps, p, i) == 0
  {
    if reps != [] { BetweenNone(reps[..|reps| - 1], p, i); }
  }

  /** Original line `i` moves down by exactly the texts placed at or above it; so the original lines
      keep their order and none is lost. */
  lemma {:induction false} OriginalLinesKeepTheirOrder(lines: seq<string>, reps: seq<Replacement>, p: nat, i: nat)
    requires p <= i < |lines|
    ensures var w, at := Weave(lines, reps, p), i - p + Between(reps, p, i); at < |w| && w[at] == lines[i]
    decreases i - p
  {
    BetweenSplits(reps, p, i);
    if p < i {
      OriginalLinesKeepTheirOrder(lines, reps, p + 1, i);
    } else {
      BetweenNone(reps, p + 1, i);
    }
  }

  lemma {:induction false} WeaveLength(lines: seq<string>, reps: seq<Replacement>, p: nat)
    requires p <= |lines|
    ensures |Weave(lines, reps, p)| == |lines| - p + Between(reps, p, |lines|)
    decreases |lines| - p
  {
    BetweenSplits(reps, p, |lines|);
    if p < |lines| { WeaveLength(lines, reps, p + 1); } else { BetweenNone(reps, p + 1, |lines|); }
  }

  // ----- Where a text lands -----

  /** The only text meant for position `n`. */
  lemma {:induction false} TextLandsAt(lines: seq<string>, reps: seq<Replacement>, p: nat, n: nat, text: string)
    requires p <= n <= |lines| && TextsAt(reps, n) == [text]
    ensures var w, at := Weave(lines, reps, p), n - p + Between(reps, p, n) - 1; 0 <= at < |w| && w[at] == text
    decreases n - p
  {
    BetweenSplits(reps, p, n);
    if p < n {
      TextLandsAt(lines, reps, p + 1, n, text);
    } else {
      BetweenNone(reps, p + 1, n);
    }
  }

  lemma {:induction false} BetweenGrows(reps: seq<Replacement>, i: nat, j: nat)
    requires i < j
    ensures Between(reps, 0, j) >= Between(reps, 0, i) + |TextsAt(reps, j)|
    ensures i + 1 == j ==> Between(reps, 0, j) == Between(reps, 0, i) + |TextsAt(reps, j)|
  {
    if reps != [] { BetweenGrows(reps[..|reps| - 1], i, j); }
  }

  /** The text for a class is placed by the line on which its header begins. If the header ends on line
      `last`, both counted from 1, the text lies below the whole header in the rewritten file exactly
      when the header is a single line; otherwise it lands inside it. */
  lemma TextLiesBelowHeaderIff(lines: seq<string>, reps: seq<Replacement>, r: Replacement, last: nat)
    requires DistinctLines(reps) && r in reps && 1 <= r.lineno <= last <= |lines|
    ensures var w := Weave(lines, reps, 0);
            var text, end := r.lineno + Between(reps, 0, r.lineno) - 1, last - 1 + Between(reps, 0, last - 1);
      && 0 <= text < |w| && end < |w| && w[text] == r.text && w[end] == lines[last - 1]
      && (text > end <==> last == r.lineno)
  {
    TextsAtOfDistinct(reps, r.lineno);
    TextLandsAt(lines, reps, 0, r.lineno, r.text);
    OriginalLinesKeepTheirOrder(lines, reps, 0, last - 1);
    BetweenGrows(reps, r.lineno - 1, r.lineno);
    if r.lineno < last - 1 { BetweenGrows(reps, r.lineno, last - 1); }
  }

  // ----- The rewritten file, said about classes and lines -----

  /** The last Meta of a class body begins on this line, or there is none and it is the default. */
  function LastMetaLine(body: seq<Node>, default: nat): nat {
    if body == [] then default
    else if body[|body| - 1].ClassDef? && body[|body| - 1].name == "Meta" then body[|body| - 1].lineno
    else LastMetaLine(body[..|body| - 1], default)
  }

  predicate HasMeta(body: seq<Node>) { exists m <- body :: m.ClassDef? && m.name == "Meta" }

  /** The original line, counted from 1, below which the text for a class belongs. */
  function PlaceOf(n: Node): nat {
    if n.ClassDef? then LastMetaLine(n.body, n.lineno) else 0
  }

  /** Only the last Meta counts. */
  lemma {:induction false} PlaceIsLastMeta(body: seq<Node>, default: nat, q: nat)
    requires q < |body| && body[q].ClassDef? && body[q].name == "Meta"
    requires forall r :: q < r < |body| ==> !(body[r].ClassDef? && body[r].name == "Meta")
    ensures LastMetaLine(body, default) == body[q].lineno
  {
    if q < |body| - 1 { PlaceIsLastMeta(body[..|body| - 1], default, q); }
  }

  /** The line that names the table, alone or under a Meta of its own. */
  function TextFor(n: Node): string {
    match n
    case ClassDef(name, _, _, body) =>
      var line := "        db_table = \"subscriptions_" + Lower(name) + "\"\n";
      if HasMeta(body) then line else "    class Meta:\n" + line
    case _ => ""
  }

  /** Lower case changes the letters A to Z and nothing else. */
  lemma LowerCase(s: string)
    ensures |Lower(s)| == |s|
    ensures forall i :: 0 <= i < |s| ==> if 'A' <= s[i] <= 'Z' then Lower(s)[i] as int == s[i] as int + 32 else Lower(s)[i] == s[i]
  {
  }

  /** Which classes are patched. */
  lemma SelectedIff(n: Node)
    ensures Selected(n) <==>
      && n.ClassDef?
      && ("TimeStampedModel" in n.bases || exists f <- n.body :: f.Assign? && exists p :: f.attr == p + "Field")
      && forall m <- n.body :: m.ClassDef? && m.name == "Meta" ==> forall a <- m.body :: a.Assign? ==> "db_table" !in a.targets
  {
    forall f: Node | f.Assign? ensures EndsWith(f.attr, "Field") <==> exists p :: f.attr == p + "Field" {
      if EndsWith(f.attr, "Field") { assert f.attr == f.attr[..|f.attr| - 5] + "Field"; }
    }
    if n.ClassDef? {
      forall m <- n.body ensures !MetaNames(m) <==> (m.ClassDef? && m.name == "Meta" ==> forall a <- m.body :: a.Assign? ==> "db_table" !in a.targets) {
        if MetaNames(m) { var a :| a in m.body && NamesTable(a); }
      }
    }
  }

  /** The patched classes whose text belongs below line `l` or further up. */
  function Count(tree: seq<Node>, l: nat): nat {
    if tree == [] then 0 else
      var last := tree[|tree| - 1];
      Count(tree[..|tree| - 1], l) + (if Selected(last) && PlaceOf(last) <= l then 1 else 0)
  }

  ghost predicate DistinctPlaces(tree: seq<Node>) {
    forall i, j :: 0 <= i < j < |tree| && Selected(tree[i]) && Selected(tree[j]) ==> PlaceOf(tree[i]) != PlaceOf(tree[j])
  }

  /** Where original line `i`, counted from 0, is in the result, */
  function LineIndex(tree: seq<Node>, i: nat): nat { i + Count(tree, i) }

  /** and where the text for a class is. */
  function TextIndex(tree: seq<Node>, n: Node): int { PlaceOf(n) + Count(tree, PlaceOf(n)) - 1 }

  /** The original lines in their order, directly below line `PlaceOf(n)` the text for each patched class
      `n`, and nothing else. */
  ghost predicate IsPatched(lines: seq<string>, tree: seq<Node>, result: seq<string>) {
    KeepsLines(lines, tree, result) && (forall n <- tree :: Selected(n) ==> HasText(tree, n, result)) && OnlyThese(lines, tree, result)
  }

  ghost predicate KeepsLines(lines: seq<string>, tree: seq<Node>, result: seq<string>) {
    forall i :: 0 <= i < |lines| ==> LineIndex(tree, i) < |result| && result[LineIndex(tree, i)] == lines[i]
  }

  ghost predicate HasText(tree: seq<Node>, n: Node, result: seq<string>) {
    && 1 <= PlaceOf(n) && 1 <= TextIndex(tree, n) < |result| && result[TextIndex(tree, n)] == TextFor(n)
    && TextIndex(tree, n) == LineIndex(tree, PlaceOf(n) - 1) + 1
  }

  ghost predicate OnlyThese(lines: seq<string>, tree: seq<Node>, result: seq<string>) {
    forall p :: 0 <= p < |result| ==> OriginalAt(lines, tree, p) || TextAt(tree, p)
  }

  ghost predicate OriginalAt(lines: seq<string>, tree: seq<Node>, p: nat) { exists i :: 0 <= i < |lines| && p == LineIndex(tree, i) }

  ghost predicate TextAt(tree: seq<Node>, p: nat) { exists n <- tree :: Selected(n) && p == TextIndex(tree, n) }

  lemma PatchIs(n: Node)
    requires n.ClassDef?
    ensures Patch(n) == Replacement(PlaceOf(n), TextFor(n))
  {
    LastMetaIs(n.body, n.lineno);
  }

  lemma {:induction false} LastMetaIs(body: seq<Node>, default: nat)
    ensures LastMeta(body).Some? <==> HasMeta(body)
    ensures LastMetaLine(body, default) == match LastMeta(body) case Some(m) => m.lineno case None => default
  {
    if body != [] {
      LastMetaIs(body[..|body| - 1], default);
      assert body == body[..|body| - 1] + [body[|body| - 1]];
    }
  }

  lemma {:induction false} CountIsBetween(tree: seq<Node>, l: nat)
    ensures Count(tree, l) == Between(Patches(tree), 0, l)
  {
    if tree != [] {
      CountIsBetween(tree[..|tree| - 1], l);
      var last, rest := tree[|tree| - 1], Patches(tree[..|tree| - 1]);
      if Selected(last) {
        PatchIs(last);
        assert (rest + [Patch(last)])[..|rest|] == rest;
      }
    }
  }

  lemma {:induction false} PatchIsCollected(tree: seq<Node>, n: Node)
    requires n in tree && Selected(n)
    ensures Replacement(PlaceOf(n), TextFor(n)) in Patches(tree)
  {
    var init, last := tree[..|tree| - 1], tree[|tree| - 1];
    assert tree == init + [last];
    if n in init { PatchIsCollected(init, n); } else { PatchIs(n); }
  }

  lemma {:induction false} CollectedIsPatch(tree: seq<Node>, r: Replacement) returns (n: Node)
    requires r in Patches(tree)
    ensures n in tree && Selected(n) && r == Replacement(PlaceOf(n), TextFor(n))
  {
    var init, last := tree[..|tree| - 1], tree[|tree| - 1];
    if r in Patches(init) {
      n := CollectedIsPatch(init, r);
    } else {
      n := last;
      PatchIs(n);
    }
  }

  lemma {:induction false} PlacesAreLines(tree: seq<Node>)
    requires DistinctPlaces(tree)
    ensures DistinctLines(Patches(tree))
  {
    if tree != [] {
      var init, last := tree[..|tree| - 1], tree[|tree| - 1];
      PlacesAreLines(init);
      if Selected(last) {
        PatchIs(last);
        var reps := Patches(init);
        forall i | 0 <= i < |reps| ensures reps[i].lineno != PlaceOf(last) {
          var n := CollectedIsPatch(init, reps[i]);
          var j :| 0 <= j < |init| && init[j] == n;
          assert tree[j] == n;
        }
      }
    }
  }

  /** Every position of the result up to original line `i` holds an original line or a text. */
  lemma {:induction false} PositionsAreCovered(lines: seq<string>, tree: seq<Node>, i: nat, p: nat)
    requires DistinctPlaces(tree) && i <= |lines| && p < LineIndex(tree, i) && forall n <- tree :: Selected(n) ==> 1 <= PlaceOf(n)
    ensures OriginalAt(lines, tree, p) || TextAt(tree, p)
  {
    if i == 0 {
      NothingAbove(tree);
    } else if p < LineIndex(tree, i - 1) {
      PositionsAreCovered(lines, tree, i - 1, p);
    } else if p > LineIndex(tree, i - 1) {
      TextOfLine(tree, i, p);
    }
  }

  /** Between two original lines there is at most one text. */
  lemma TextOfLine(tree: seq<Node>, i: nat, p: nat)
    requires DistinctPlaces(tree) && 0 < i && LineIndex(tree, i - 1) < p < LineIndex(tree, i)
    ensures TextAt(tree, p)
  {
    var reps := Patches(tree);
    CountIsBetween(tree, i);
    CountIsBetween(tree, i - 1);
    BetweenGrows(reps, i - 1, i);
    PlacesAreLines(tree);
    TextsAtOfDistinct(reps, i);
    var r :| r in reps && r.lineno == i;
    var n := CollectedIsPatch(tree, r);
    assert p == TextIndex(tree, n);
  }

  lemma {:induction false} NothingAbove(tree: seq<Node>)
    requires forall n <- tree :: Selected(n) ==> 1 <= PlaceOf(n)
    ensures Count(tree, 0) == 0
  {
    if tree != [] {
      assert tree[|tree| - 1] in tree && forall n <- tree[..|tree| - 1] :: n in tree;
      NothingAbove(tree[..|tree| - 1]);
    }
  }

  /** With one place per patched class, weaving in the collected texts yields exactly the patched file. */
  lemma WeaveIsPatched(lines: seq<string>, tree: seq<Node>)
    requires PlacesFit(lines, tree)
    ensures IsPatched(lines, tree, Weave(lines, Patches(tree), 0))
  {
    LinesAreKept(lines, tree);
    forall n | n in tree && Selected(n) ensures HasText(tree, n, Weave(lines, Patches(tree), 0)) { TextIsPlaced(lines, tree, n); }
    NothingElse(lines, tree);
  }

  /** Each patched class has a place of its own among the lines. */
  ghost predicate PlacesFit(lines: seq<string>, tree: seq<Node>) {
    DistinctPlaces(tree) && forall n <- tree :: Selected(n) ==> 1 <= PlaceOf(n) <= |lines|
  }

  lemma PatchedAsWoven(lines: seq<string>, tree: seq<Node>)
    ensures PlacesFit(lines, tree) ==> IsPatched(lines, tree, Weave(lines, Patches(tree), 0))
    ensures |Weave(lines, Patches(tree), 0)| == |lines| + Between(Patches(tree), 0, |lines|)
  {
    if PlacesFit(lines, tree) { WeaveIsPatched(lines, tree); }
    WeaveLength(lines, Patches(tree), 0);
  }

  lemma LinesAreKept(lines: seq<string>, tree: seq<Node>)
    ensures KeepsLines(lines, tree, Weave(lines, Patches(tree), 0))
  {
    forall i: nat | i < |lines| ensures LineIndex(tree, i) < |Weave(lines, Patches(tree), 0)| && Weave(lines, Patches(tree), 0)[LineIndex(tree, i)] == lines[i] {
      CountIsBetween(tree, i);
      OriginalLinesKeepTheirOrder(lines, Patches(tree), 0, i);
    }
  }

  lemma NothingElse(lines: seq<string>, tree: seq<Node>)
    requires DistinctPlaces(tree) && forall n <- tree :: Selected(n) ==> 1 <= PlaceOf(n) <= |lines|
    ensures OnlyThese(lines, tree, Weave(lines, Patches(tree), 0))
  {
    WeaveLength(lines, Patches(tree), 0);
    CountIsBetween(tree, |lines|);
    forall p: nat | p < |Weave(lines, Patches(tree), 0)| ensures OriginalAt(lines, tree, p) || TextAt(tree, p) {
      PositionsAreCovered(lines, tree, |lines|, p);
    }
  }

  lemma TextIsPlaced(lines: seq<string>, tree: seq<Node>, n: Node)
    requires DistinctPlaces(tree) && n in tree && Selected(n) && 1 <= PlaceOf(n) <= |lines|
    ensures HasText(tree, n, Weave(lines, Patches(tree), 0))
  {
    PatchIsCollected(tree, n);
    PlacesAreLines(tree);
    ReplacementIsPlaced(lines, tree, Patches(tree), n, PlaceOf(n), TextFor(n));
  }

  lemma ReplacementIsPlaced(lines: seq<string>, tree: seq<Node>, reps: seq<Replacement>, n: Node, l: nat, text: string)
    requires reps == Patches(tree) && DistinctLines(reps) && Replacement(l, text) in reps && 1 <= l <= |lines|
    requires l == PlaceOf(n) && text == TextFor(n)
    ensures HasText(tree, n, Weave(lines, reps, 0))
  {
    var c := PlacedAt(lines, reps, l, text);
    CountIsBetween(tree, l);
    CountIsBetween(tree, l - 1);
    TextIndexIs(tree, n, l, text, Weave(lines, reps, 0), c);
  }

  lemma PlacedAt(lines: seq<string>, reps: seq<Replacement>, l: nat, text: string) returns (c: nat)
    requires DistinctLines(reps) && Replacement(l, text) in reps && 1 <= l <= |lines|
    ensures c == Between(reps, 0, l) == Between(reps, 0, l - 1) + 1
    ensures 1 <= l + c - 1 < |Weave(lines, reps, 0)| && Weave(lines, reps, 0)[l + c - 1] == text
  {
    c := Between(reps, 0, l);
    TextsAtOfDistinct(reps, l);
    TextLandsAt(lines, reps, 0, l, text);
    BetweenGrows(reps, l - 1, l);
  }

  lemma TextIndexIs(tree: seq<Node>, n: Node, l: nat, text: string, result: seq<string>, c: nat)
    requires l == PlaceOf(n) && 1 <= l && text == TextFor(n) && Count(tree, l) == c == Count(tree, l - 1) + 1
    requires 1 <= l + c - 1 < |result| && result[l + c - 1] == text
    ensures HasText(tree, n, result)
  {
  }

  // ----- The script -----

  /** The scan of the top-level classes. */
  method Collect(tree: seq<Node>) returns (replacements: seq<Replacement>)
    ensures replacements == Patches(tree)
  {
    replacements := [];
    var i := 0;
    while i < |tree|
      invariant 0 <= i <= |tree| && replacements == Patches(tree[..i])
    {
      assert tree[..i + 1][..i] == tree[..i];
      if tree[i].ClassDef? {
        var selected, meta := Inspect(tree[i]);
        if selected {
          replacements := replacements + [Patch(tree[i])];
        }
      }
      i := i + 1;
    }
    assert tree[..i] == tree;
  }

  /** Whether some node of a body satisfies `p`, as a scan finds out. */
  predicate Any(body: seq<Node>, p: Node -> bool) {
    body != [] && (Any(body[..|body| - 1], p) || p(body[|body| - 1]))
  }

  lemma {:induction false} AnyIsExists(body: seq<Node>, p: Node -> bool)
    ensures Any(body, p) <==> exists n <- body :: p(n)
  {
    if body != [] {
      AnyIsExists(body[..|body| - 1], p);
      assert body == body[..|body| - 1] + [body[|body| - 1]];
    }
  }

  lemma ScanStep(body: seq<Node>, i: nat, p: Node -> bool)
    requires i < |body|
    ensures Any(body[..i + 1], p) == (Any(body[..i], p) || p(body[i]))
  {
    assert body[..i + 1][..i] == body[..i];
  }

  /** The flags the scan sets for one class, and the Meta class it remembers. */
  method Inspect(node: Node) returns (selected: bool, meta: Option<Node>)
    requires node.ClassDef?
    ensures selected == Selected(node) && meta == LastMeta(node.body)
  {
    var hasFields, hasTable := false, false;
    meta := None;
    var i := 0;
    while i < |node.body|
      invariant 0 <= i <= |node.body|
      invariant hasFields == Any(node.body[..i], IsField) && hasTable == Any(node.body[..i], MetaNames)
      invariant meta == LastMeta(node.body[..i])
    {
      var stmt := node.body[i];
      ScanStep(node.body, i, IsField);
      ScanStep(node.body, i, MetaNames);
      assert node.body[..i + 1][..i] == node.body[..i];
      if IsField(stmt) { hasFields := true; }
      if IsMeta(stmt) {
        meta := Some(stmt);
        var named := InspectMeta(stmt.body);
        if named { hasTable := true; }
      }
      i := i + 1;
    }
    assert node.body[..i] == node.body;
    AnyIsExists(node.body, IsField);
    AnyIsExists(node.body, MetaNames);
    selected := (hasFields || "TimeStampedModel" in node.bases) && !hasTable;
  }

  /** The scan of one Meta class. */
  method InspectMeta(body: seq<Node>) returns (named: bool)
    ensures named <==> exists a <- body :: NamesTable(a)
  {
    named := false;
    var i := 0;
    while i < |body|
      invariant 0 <= i <= |body| && named == Any(body[..i], NamesTable)
    {
      ScanStep(body, i, NamesTable);
      if NamesTable(body[i]) { named := true; }
      i := i + 1;
    }
    assert body[..i] == body;
    AnyIsExists(body, NamesTable);
  }

  /** The file rewritten: the collected texts at their original positions. Line numbers come from
      parsing these very lines, so none lies beyond the last one. */
  method AddMissingDbTables(lines: seq<string>, tree: seq<Node>) returns (result: seq<string>)
    requires forall r <- Patches(tree) :: r.lineno <= |lines|
    ensures result == Weave(lines, Patches(tree), 0)
    ensures |result| == |lines| + |Patches(tree)|
    ensures PlacesFit(lines, tree) ==> IsPatched(lines, tree, result)
  {
    PatchedAsWoven(lines, tree);
    var replacements := Collect(tree);
    BetweenAll(replacements, |lines|);
    result := lines;
    if replacements == [] {
      WeaveEmpty(lines, 0);
      return;
    }
    SortedInsertionIsSimultaneous(lines, replacements);
    var sorted := SortDescending(replacements);
    var i := 0;
    while i < |sorted|
      invariant 0 <= i <= |sorted| && result == InsertAll(lines, sorted[..i])
    {
      assert sorted[..i + 1][..i] == sorted[..i];
      result := Insert(result, sorted[i].lineno, sorted[i].text);
      i := i + 1;
    }
    assert sorted[..i] == sorted;
  }
}
