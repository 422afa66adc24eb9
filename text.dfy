/**
 * The few pieces of Python's string library that the chat front end relies on:
 * `str.find`, `str.replace`, `str.join`, `str.strip` and the decimal
 * rendering of a non-negative integer by `str(n)`.
 */
module Text {

  datatype Option<T> = None | Some(value: T)

  /** `pat` occurs in `s` starting at index `i`. */
  predicate OccursAt(s: string, pat: string, i: int) {
    0 <= i && i + |pat| <= |s| && s[i..i + |pat|] == pat
  }

  /** `pat` occurs nowhere in `s`. */
  predicate Absent(s: string, pat: string) {
    forall i :: 0 <= i <= |s| ==> !OccursAt(s, pat, i)
  }

  /** An occurrence in the tail of `s` is an occurrence in `s`, one position later. */
  lemma OccursInTail(s: string, pat: string, i: int)
    requires |s| > 0 && 0 <= i
    ensures OccursAt(s[1..], pat, i) <==> OccursAt(s, pat, i + 1)
  {
    if 0 <= i && i + |pat| <= |s| - 1 {
      assert s[1..][i..i + |pat|] == s[i + 1..i + 1 + |pat|];
    }
  }

  /** Python's `s.find(pat)`: the lowest index where `pat` occurs in `s`, or -1. */
  function Find(s: string, pat: string): (k: int)
    ensures k == -1 || OccursAt(s, pat, k)
    ensures forall i :: 0 <= i && (k == -1 || i < k) ==> !OccursAt(s, pat, i)
    decreases |s|
  {
    if |s| < |pat| then -1
    else if s[..|pat|] == pat then 0
    else
      var k := Find(s[1..], pat);
      assert !OccursAt(s, pat, 0) by { assert s[0..|pat|] == s[..|pat|]; }
      assert forall i :: 1 <= i ==> (OccursAt(s[1..], pat, i - 1) <==> OccursAt(s, pat, i)) by {
        forall i | 1 <= i ensures OccursAt(s[1..], pat, i - 1) <==> OccursAt(s, pat, i) {
          OccursInTail(s, pat, i - 1);
        }
      }
      if k == -1 then -1 else k + 1
  }

  /** A found index leaves room for the whole pattern; -1 means the pattern is absent. */
  lemma FindBounds(s: string, pat: string)
    ensures Find(s, pat) != -1 ==> 0 <= Find(s, pat) <= |s| - |pat|
    ensures Find(s, pat) == -1 <==> Absent(s, pat)
  {
  }

  /**
   * Python's `s.replace(pat, rep)` for a non-empty `pat`: every occurrence found
   * by a left-to-right scan that does not reuse replaced characters becomes `rep`.
   */
  function Replace(s: string, pat: string, rep: string): (r: string)
    requires pat != []
    ensures rep == [] ==> |r| <= |s|
    decreases |s|
  {
    var k := Find(s, pat);
    if k == -1 then s else s[..k] + rep + Replace(s[k + |pat|..], pat, rep)
  }

  /**
   * The same replacement described one character at a time: at each position,
   * either the pattern starts here and is replaced, or the character is kept.
   */
  function ReplaceAtEachPosition(s: string, pat: string, rep: string): string
    requires pat != []
    decreases |s|
  {
    if s == [] then []
    else if OccursAt(s, pat, 0) then rep + ReplaceAtEachPosition(s[|pat|..], pat, rep)
    else [s[0]] + ReplaceAtEachPosition(s[1..], pat, rep)
  }

  /** Characters before the first occurrence are copied unchanged by the per-position scan. */
  lemma {:induction false} KeepsPrefixWithoutPattern(s: string, pat: string, rep: string, k: nat)
    requires pat != [] && k <= |s|
    requires forall i :: 0 <= i < k ==> !OccursAt(s, pat, i)
    ensures ReplaceAtEachPosition(s, pat, rep) == s[..k] + ReplaceAtEachPosition(s[k..], pat, rep)
  {
    if k > 0 {
      assert !OccursAt(s, pat, 0);
      forall i | 0 <= i < k - 1 ensures !OccursAt(s[1..], pat, i) {
        OccursInTail(s, pat, i);
      }
      KeepsPrefixWithoutPattern(s[1..], pat, rep, k - 1);
      assert s[1..][k - 1..] == s[k..];
      assert [s[0]] + s[1..][..k - 1] == s[..k];
    }
  }

  /** The find-based replacement agrees with the per-position description. */
  lemma {:induction false} ReplaceIsLeftmost(s: string, pat: string, rep: string)
    requires pat != []
    ensures Replace(s, pat, rep) == ReplaceAtEachPosition(s, pat, rep)
    decreases |s|
  {
    var k := Find(s, pat);
    if k == -1 {
      KeepsWithoutPattern(s, pat, rep);
    } else {
      var rest := s[k + |pat|..];
      ReplaceIsLeftmost(rest, pat, rep);
      ReplaceAtMatch(s, pat, rep, k);
      ReplaceUnfold(s, pat, rep, k);
    }
  }

  /** One step of the find-based replacement. */
  lemma {:induction false} ReplaceUnfold(s: string, pat: string, rep: string, k: int)
    requires pat != [] && k == Find(s, pat) && k != -1
    ensures Replace(s, pat, rep) == s[..k] + rep + Replace(s[k + |pat|..], pat, rep)
  {
  }

  /** Without any occurrence the per-position scan copies everything. */
  lemma KeepsWithoutPattern(s: string, pat: string, rep: string)
    requires pat != [] && Find(s, pat) == -1
    ensures ReplaceAtEachPosition(s, pat, rep) == s
  {
    KeepsPrefixWithoutPattern(s, pat, rep, |s|);
    assert s[|s|..] == [];
    assert s[..|s|] == s;
  }

  /** The per-position scan, at the first occurrence, copies the prefix and replaces the match. */
  lemma ReplaceAtMatch(s: string, pat: string, rep: string, k: nat)
    requires pat != [] && OccursAt(s, pat, k)
    requires forall i :: 0 <= i < k ==> !OccursAt(s, pat, i)
    ensures ReplaceAtEachPosition(s, pat, rep)
         == s[..k] + rep + ReplaceAtEachPosition(s[k + |pat|..], pat, rep)
  {
    KeepsPrefixWithoutPattern(s, pat, rep, k);
    var t := s[k..];
    assert t[0..|pat|] == s[k..k + |pat|];
    assert t[|pat|..] == s[k + |pat|..];
    ReplaceAtStart(t, pat, rep);
    Regroup(s[..k], rep, ReplaceAtEachPosition(t[|pat|..], pat, rep));
  }

  lemma ReplaceAtStart(t: string, pat: string, rep: string)
    requires pat != [] && OccursAt(t, pat, 0)
    ensures ReplaceAtEachPosition(t, pat, rep) == rep + ReplaceAtEachPosition(t[|pat|..], pat, rep)
  {
  }

  lemma Regroup(a: string, b: string, c: string)
    ensures a + (b + c) == a + b + c
  {
  }

  /** With no occurrence of the pattern, replacing changes nothing. */
  lemma ReplaceAbsent(s: string, pat: string, rep: string)
    requires pat != [] && Absent(s, pat)
    ensures Replace(s, pat, rep) == s
  {
  }

  /** The first match of `pat` in `s` is at `k`. */
  lemma FindIs(s: string, pat: string, k: nat)
    requires OccursAt(s, pat, k) && forall i :: 0 <= i < k ==> !OccursAt(s, pat, i)
    ensures Find(s, pat) == k
  {
  }

  /** A single occurrence of the pattern, first met at `|a|`, is cut out. */
  lemma ReplaceSingle(a: string, pat: string, b: string)
    requires pat != [] && Absent(b, pat)
    requires forall i :: 0 <= i < |a| ==> !OccursAt(a + pat + b, pat, i)
    ensures Replace(a + pat + b, pat, []) == a + b
  {
    var s := a + pat + b;
    assert s[|a|..|a| + |pat|] == pat;
    FindIs(s, pat, |a|);
    ReplaceUnfold(s, pat, [], |a|);
    assert s[|a| + |pat|..] == b;
    assert s[..|a|] == a;
    ReplaceAbsent(b, pat, []);
    EmptyMiddle(a, b);
  }

  lemma EmptyMiddle(a: string, b: string)
    ensures a + [] + b == a + b
  {
  }

  /** Python's `sep.join(parts)`. */
  function Join(sep: string, parts: seq<string>): (r: string)
    ensures parts == [] ==> r == []
    ensures |parts| >= 1 ==> parts[0] <= r
    ensures |r| == SumLengths(parts) + (if parts == [] then 0 else (|parts| - 1) * |sep|)
    decreases |parts|
  {
    if |parts| == 0 then []
    else if |parts| == 1 then parts[0]
    else parts[0] + sep + Join(sep, parts[1..])
  }

  function SumLengths(parts: seq<string>): nat {
    if parts == [] then 0 else |parts[0]| + SumLengths(parts[1..])
  }

  /** Joining one part gives it back; joining two puts the separator between them. */
  lemma JoinSmall(sep: string, a: string, b: string)
    ensures Join(sep, [a]) == a
    ensures Join(sep, [a, b]) == a + sep + b
  {
    assert [a, b][1..] == [b];
  }

  /** The characters Python's `str.isspace` accepts, which `str.strip()` removes. */
  predicate IsSpace(c: char) {
    c == ' ' || ('\t' <= c <= '\r') || ('\U{1C}' <= c <= '\U{1F}')
    || c == '\U{85}' || c == '\U{A0}' || c == '\U{1680}'
    || ('\U{2000}' <= c <= '\U{200A}') || c == '\U{2028}' || c == '\U{2029}'
    || c == '\U{202F}' || c == '\U{205F}' || c == '\U{3000}'
  }

  predicate AllSpace(s: string) {
    forall i :: 0 <= i < |s| ==> IsSpace(s[i])
  }

  /** The number of whitespace characters `s` starts with. */
  function LeadingSpace(s: string): (n: nat)
    ensures n <= |s|
    ensures forall i :: 0 <= i < n ==> IsSpace(s[i])
    ensures n < |s| ==> !IsSpace(s[n])
    decreases |s|
  {
    if s != [] && IsSpace(s[0]) then
      var n := LeadingSpace(s[1..]);
      assert forall i :: 1 <= i < n + 1 ==> s[i] == s[1..][i - 1];
      assert n + 1 < |s| ==> s[n + 1] == s[1..][n];
      n + 1
    else 0
  }

  /** The number of whitespace characters `s` ends with. */
  function TrailingSpace(s: string): (n: nat)
    ensures n <= |s|
    ensures forall i :: |s| - n <= i < |s| ==> IsSpace(s[i])
    ensures n < |s| ==> !IsSpace(s[|s| - 1 - n])
    decreases |s|
  {
    if s != [] && IsSpace(s[|s| - 1]) then
      var n := TrailingSpace(s[..|s| - 1]);
      assert forall i :: 0 <= i < |s| - 1 ==> s[i] == s[..|s| - 1][i];
      n + 1
    else 0
  }

  /** `r` is the slice of `s` at `i`, with only whitespace before and after it. */
  predicate Trimmed(s: string, r: string, i: int) {
    0 <= i <= |s| - |r| && r == s[i..i + |r|]
    && (forall j :: 0 <= j < i ==> IsSpace(s[j]))
    && (forall j :: i + |r| <= j < |s| ==> IsSpace(s[j]))
  }

  /** Python's `s.strip()`: whitespace removed from both ends. */
  function Strip(s: string): (r: string)
    ensures |r| <= |s|
    ensures r != [] ==> !IsSpace(r[0]) && !IsSpace(r[|r| - 1])
    ensures r == [] <==> AllSpace(s)
    ensures exists i :: Trimmed(s, r, i)
  {
    var a := LeadingSpace(s);
    if a == |s| then
      assert Trimmed(s, [], |s|);
      []
    else
      var n := TrailingSpace(s);
      assert !IsSpace(s[a]);
      assert n < |s| - a;
      var r := s[a..|s| - n];
      assert r[0] == s[a] && r[|r| - 1] == s[|s| - 1 - n];
      assert Trimmed(s, r, a);
      r
  }

  predicate IsDigit(c: char) {
    '0' <= c <= '9'
  }

  predicate AllDigits(s: string) {
    forall i :: 0 <= i < |s| ==> IsDigit(s[i])
  }

  function DigitChar(d: nat): (c: char)
    requires d < 10
    ensures IsDigit(c) && c as int - '0' as int == d
  {
    "0123456789"[d]
  }

  /** Python's `str(n)` for a non-negative integer: its decimal digits, no leading zero. */
  function NatToString(n: nat): (r: string)
    ensures r != [] && AllDigits(r)
    ensures r[0] == '0' ==> n == 0
    decreases n
  {
    if n < 10 then [DigitChar(n)] else NatToString(n / 10) + [DigitChar(n % 10)]
  }

  /** The value of a string of decimal digits. */
  function ParseNat(s: string): int
  {
    if s == [] then 0 else ParseNat(s[..|s| - 1]) * 10 + (s[|s| - 1] as int - '0' as int)
  }

  /** Reading back the digits `str(n)` wrote gives `n`. */
  lemma {:induction false} ParseNatToString(n: nat)
    ensures ParseNat(NatToString(n)) == n
    decreases n
  {
    var r := NatToString(n);
    if n >= 10 {
      ParseNatToString(n / 10);
      assert r[..|r| - 1] == NatToString(n / 10);
    }
  }
}
