/** The normalisation every document save applies to its text fields. */
module Texts {
  predicate IsSpace(c: char) { c == ' ' || c == '\t' || c == '\n' || c == '\r' }

  function UpperChar(c: char): char { if 'a' <= c <= 'z' then c - 'a' + 'A' else c }

  function StripLeft(s: string): string {
    if s != "" && IsSpace(s[0]) then StripLeft(s[1..]) else s
  }

  function StripRight(s: string): string {
    if s != "" && IsSpace(s[|s| - 1]) then StripRight(s[..|s| - 1]) else s
  }

  /** `strip()` on ASCII white space. */
  function Strip(s: string): string { StripRight(StripLeft(s)) }

  /** `upper()` on ASCII letters. */
  function Upper(s: string): string { seq(|s|, i requires 0 <= i < |s| => UpperChar(s[i])) }

  predicate Stripped(s: string) { s == "" || (!IsSpace(s[0]) && !IsSpace(s[|s| - 1])) }

  lemma {:induction false} StripLeftStarts(s: string)
    ensures StripLeft(s) == "" || !IsSpace(StripLeft(s)[0])
  {
    if s != "" && IsSpace(s[0]) { StripLeftStarts(s[1..]); }
  }

  lemma {:induction false} StripRightEnds(s: string)
    ensures var r := StripRight(s); r <= s && (r == "" || !IsSpace(r[|r| - 1]))
  {
    if s != "" && IsSpace(s[|s| - 1]) { StripRightEnds(s[..|s| - 1]); }
  }

  lemma StripStrips(s: string)
    ensures Stripped(Strip(s))
    ensures Stripped(s) ==> Strip(s) == s
  {
    StripLeftStarts(s);
    StripRightEnds(StripLeft(s));
  }

  lemma {:induction false} StripLeftTakes(s: string) returns (n: nat)
    ensures n <= |s| && StripLeft(s) == s[n..] && forall i :: 0 <= i < n ==> IsSpace(s[i])
  {
    n := 0;
    if s != "" && IsSpace(s[0]) {
      n := StripLeftTakes(s[1..]);
      n := n + 1;
    }
  }

  lemma {:induction false} StripRightTakes(s: string)
    ensures StripRight(s) <= s && forall i :: |StripRight(s)| <= i < |s| ==> IsSpace(s[i])
  {
    if s != "" && IsSpace(s[|s| - 1]) { StripRightTakes(s[..|s| - 1]); }
  }

  /** Stripping takes white space off both ends and nothing else. */
  lemma StripTakesSpace(s: string) returns (n: nat, m: nat)
    ensures n <= m <= |s| && Strip(s) == s[n..m] && Stripped(Strip(s))
    ensures forall i :: 0 <= i < n || m <= i < |s| ==> IsSpace(s[i])
  {
    n := StripLeftTakes(s);
    StripRightTakes(StripLeft(s));
    StripStrips(s);
    m := n + |Strip(s)|;
    forall i | m <= i < |s| ensures IsSpace(s[i]) { assert s[i] == StripLeft(s)[i - n]; }
  }

  /** A text is blank exactly when it is all white space. */
  lemma BlankIff(s: string)
    ensures Strip(s) == "" <==> forall i :: 0 <= i < |s| ==> IsSpace(s[i])
  {
    var n, m := StripTakesSpace(s);
    if Strip(s) != "" { assert !IsSpace(Strip(s)[0]) && Strip(s)[0] == s[n]; }
  }

  /** Upper case changes the letters a to z and nothing else. */
  lemma UpperCase(s: string)
    ensures |Upper(s)| == |s|
    ensures forall i :: 0 <= i < |s| ==> if 'a' <= s[i] <= 'z' then Upper(s)[i] as int == s[i] as int - 32 else Upper(s)[i] == s[i]
  {
  }

  /** Normalising twice changes nothing more. */
  lemma NormalisingIsIdempotent(s: string)
    ensures Strip(Strip(s)) == Strip(s)
    ensures Upper(Strip(Upper(Strip(s)))) == Upper(Strip(s))
  {
    StripStrips(s);
    StripStrips(Strip(s));
    var u := Upper(Strip(s));
    assert Stripped(u);
    StripStrips(u);
    assert Upper(u) == u;
  }
}
