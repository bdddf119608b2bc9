/**
 * The string operations the parking programs apply to user input:
 * Python's `str.strip()`, `str.upper()` and `str.lower()`, the deny-list of
 * characters reserved for SQL syntax, and Python's ordering of strings.
 */
module Text {

  /** The characters Python's `str.isspace()` accepts. */
  const Whitespace: set<char> :=
    {'\t', '\n', '\U{B}', '\U{C}', '\r', '\U{1C}', '\U{1D}', '\U{1E}', '\U{1F}', ' ',
     '\U{85}', '\U{A0}', '\U{1680}', '\U{2000}', '\U{2001}', '\U{2002}', '\U{2003}',
     '\U{2004}', '\U{2005}', '\U{2006}', '\U{2007}', '\U{2008}', '\U{2009}', '\U{200A}',
     '\U{2028}', '\U{2029}', '\U{202F}', '\U{205F}', '\U{3000}'}

  predicate IsSpace(c: char) { c in Whitespace }

  predicate IsLowerAscii(c: char) { 'a' <= c <= 'z' }

  predicate IsUpperAscii(c: char) { 'A' <= c <= 'Z' }

  /** The first index at or after `i` that is not whitespace (or `|s|`). */
  function SkipSpaces(s: string, i: nat): (n: nat)
    requires i <= |s|
    ensures i <= n <= |s|
    ensures forall k :: i <= k < n ==> IsSpace(s[k])
    ensures n == |s| || !IsSpace(s[n])
    decreases |s| - i
  {
    if i < |s| && IsSpace(s[i]) then SkipSpaces(s, i + 1) else i
  }

  /** The end of `s[..j]` once trailing whitespace is dropped. */
  function BackSpaces(s: string, j: nat): (n: nat)
    requires j <= |s|
    ensures n <= j
    ensures forall k :: n <= k < j ==> IsSpace(s[k])
    ensures n == 0 || !IsSpace(s[n - 1])
  {
    if j > 0 && IsSpace(s[j - 1]) then BackSpaces(s, j - 1) else j
  }

  /** How many whitespace characters open `s`. */
  function LeadSpaces(s: string): nat
  {
    SkipSpaces(s, 0)
  }

  /**
   * Python's `s.strip()`: the characters of `s` from index `LeadSpaces(s)` on,
   * everything outside them whitespace, and neither end of them whitespace.
   */
  function Strip(s: string): (r: string)
    ensures LeadSpaces(s) + |r| <= |s|
    ensures forall i :: 0 <= i < |r| ==> r[i] == s[LeadSpaces(s) + i]
    ensures forall k :: LeadSpaces(s) + |r| <= k < |s| ==> IsSpace(s[k])
    ensures r == [] || (!IsSpace(r[0]) && !IsSpace(r[|r| - 1]))
  {
    var a := LeadSpaces(s);
    if a == |s| then []
    else
      var b := BackSpaces(s, |s|);
      assert a < b by { assert !IsSpace(s[a]); }
      s[a..b]
  }

  function UpperChar(c: char): char
  {
    if IsLowerAscii(c) then (c as int - 32) as char else c
  }

  function LowerChar(c: char): char
  {
    if IsUpperAscii(c) then (c as int + 32) as char else c
  }

  /** Python's `s.upper()` restricted to ASCII letters. */
  function Upper(s: string): (r: string)
    ensures |r| == |s|
    ensures forall i :: 0 <= i < |s| ==> r[i] == UpperChar(s[i])
  {
    seq(|s|, i requires 0 <= i < |s| => UpperChar(s[i]))
  }

  /** Python's `s.lower()` restricted to ASCII letters. */
  function Lower(s: string): (r: string)
    ensures |r| == |s|
    ensures forall i :: 0 <= i < |s| ==> r[i] == LowerChar(s[i])
  {
    seq(|s|, i requires 0 <= i < |s| => LowerChar(s[i]))
  }

  /** `s.strip().upper()`, the normal form of slot and booking identifiers. */
  function Normalize(s: string): string
  {
    Upper(Strip(s))
  }

  /**
   * The normal form is the part of `s` between its leading and trailing
   * whitespace, each character upper-cased: neither end is whitespace and no
   * lower-case letter is left.
   */
  lemma NormalizeShape(s: string)
    ensures LeadSpaces(s) + |Normalize(s)| <= |s|
    ensures forall i :: 0 <= i < |Normalize(s)| ==> Normalize(s)[i] == UpperChar(s[LeadSpaces(s) + i])
    ensures Normalize(s) == [] || (!IsSpace(Normalize(s)[0]) && !IsSpace(Normalize(s)[|Normalize(s)| - 1]))
    ensures forall i :: 0 <= i < |Normalize(s)| ==> !IsLowerAscii(Normalize(s)[i])
  {
    UpperKeepsEnds(Strip(s));
  }

  /** Whether one of `'`, `"`, `;`, `--`, `/` followed by `*` starts at index `i` of `s`. */
  predicate ReservedAt(s: string, i: int)
    requires 0 <= i < |s|
  {
    s[i] == '\'' || s[i] == '"' || s[i] == ';' ||
    (i + 1 < |s| && ((s[i] == '-' && s[i + 1] == '-') || (s[i] == '/' && s[i + 1] == '*')))
  }

  /** `any(p in s for p in ["'", '"', ";", "--", "/" + "*"])` */
  predicate ContainsReserved(s: string)
  {
    exists i :: 0 <= i < |s| && ReservedAt(s, i)
  }

  lemma UpperCharKeepsReserved(c: char, d: char)
    requires d == '\'' || d == '"' || d == ';' || d == '-' || d == '/' || d == '*'
    ensures UpperChar(c) == d <==> c == d
  {
  }

  /** A string whose ends are not whitespace is left alone by `strip()`. */
  lemma StripNoop(s: string)
    requires s == [] || (!IsSpace(s[0]) && !IsSpace(s[|s| - 1]))
    ensures Strip(s) == s
  {
    if s != [] {
      assert LeadSpaces(s) == 0 && BackSpaces(s, |s|) == |s|;
      assert s[0..|s|] == s;
    }
  }

  /** Index `i` of the normalised text is the upper-cased character `LeadSpaces(s) + i` of the raw text. */
  lemma NormalizeAt(s: string, i: int)
    requires 0 <= i < |Normalize(s)|
    ensures LeadSpaces(s) + i < |s| && Normalize(s)[i] == UpperChar(s[LeadSpaces(s) + i])
  {
    var r := Strip(s);
    assert r[i] == s[LeadSpaces(s) + i];
  }

  /** A reserved pattern at index `i` of the normalised text sits at the matching raw index. */
  lemma ReservedAtRaw(s: string, i: int)
    requires 0 <= i < |Normalize(s)| && ReservedAt(Normalize(s), i)
    ensures LeadSpaces(s) + i < |s| && ReservedAt(s, LeadSpaces(s) + i)
  {
    var a, n := LeadSpaces(s), Normalize(s);
    NormalizeAt(s, i);
    UpperCharKeepsReserved(s[a + i], n[i]);
    if !(n[i] == '\'' || n[i] == '"' || n[i] == ';') {
      NormalizeAt(s, i + 1);
      UpperCharKeepsReserved(s[a + i + 1], n[i + 1]);
    }
  }

  /** A reserved pattern in the normalised text was already in the raw text. */
  lemma ReservedFromRaw(s: string)
    requires ContainsReserved(Normalize(s))
    ensures ContainsReserved(s)
  {
    var i :| 0 <= i < |Normalize(s)| && ReservedAt(Normalize(s), i);
    ReservedAtRaw(s, i);
  }

  lemma ReservedCharNotSpace(c: char)
    requires c == '\'' || c == '"' || c == ';' || c == '-' || c == '/' || c == '*'
    ensures !IsSpace(c)
  {
  }

  /** A raw index that is not whitespace lies inside the part `strip()` keeps. */
  lemma InsideStrip(s: string, i: int)
    requires 0 <= i < |s| && !IsSpace(s[i])
    ensures LeadSpaces(s) <= i < LeadSpaces(s) + |Strip(s)|
    ensures Normalize(s)[i - LeadSpaces(s)] == UpperChar(s[i])
  {
    var r := Strip(s);
    assert r[i - LeadSpaces(s)] == s[i];
  }

  /** A reserved pattern in the raw text is not whitespace, so `strip()` keeps it. */
  lemma ReservedToNormal(s: string)
    requires ContainsReserved(s)
    ensures ContainsReserved(Normalize(s))
  {
    var a, n := LeadSpaces(s), Normalize(s);
    var i :| 0 <= i < |s| && ReservedAt(s, i);
    ReservedCharNotSpace(s[i]);
    InsideStrip(s, i);
    UpperCharKeepsReserved(s[i], s[i]);
    if !(s[i] == '\'' || s[i] == '"' || s[i] == ';') {
      ReservedCharNotSpace(s[i + 1]);
      InsideStrip(s, i + 1);
      UpperCharKeepsReserved(s[i + 1], s[i + 1]);
    }
    assert ReservedAt(n, i - a);
  }

  /**
   * Normalising neither creates nor destroys a reserved pattern: `strip()` only
   * removes whitespace from the ends and `upper()` only changes letters. So the
   * deny-list check on the normalised text is a check on the raw input.
   */
  lemma ReservedSurvivesNormalize(s: string)
    ensures ContainsReserved(Normalize(s)) <==> ContainsReserved(s)
  {
    if ContainsReserved(Normalize(s)) { ReservedFromRaw(s); }
    if ContainsReserved(s) { ReservedToNormal(s); }
  }

  /** `upper()` on one character keeps whitespace whitespace and is idempotent. */
  lemma UpperCharFacts(c: char)
    ensures IsSpace(UpperChar(c)) == IsSpace(c)
    ensures UpperChar(UpperChar(c)) == UpperChar(c)
  {
  }

  lemma UpperKeepsEnds(r: string)
    requires r == [] || (!IsSpace(r[0]) && !IsSpace(r[|r| - 1]))
    ensures var u := Upper(r); u == [] || (!IsSpace(u[0]) && !IsSpace(u[|u| - 1]))
  {
    if r != [] {
      UpperCharFacts(r[0]);
      UpperCharFacts(r[|r| - 1]);
    }
  }

  lemma UpperIdempotent(r: string)
    ensures Upper(Upper(r)) == Upper(r)
  {
    var u := Upper(r);
    forall i | 0 <= i < |u| ensures Upper(u)[i] == u[i] {
      UpperCharFacts(r[i]);
    }
  }

  /** `s.strip().upper()` applied twice is applied once. */
  lemma NormalizeIdempotent(s: string)
    ensures Normalize(Normalize(s)) == Normalize(s)
  {
    var r := Strip(s);
    UpperKeepsEnds(r);
    StripNoop(Upper(r));
    UpperIdempotent(r);
  }

  predicate CanonicalChar(c: char) { !IsSpace(c) && !IsLowerAscii(c) }

  lemma UpperCanonical(s: string)
    requires forall i :: 0 <= i < |s| ==> CanonicalChar(s[i])
    ensures Upper(s) == s
  {
    forall i | 0 <= i < |s| ensures Upper(s)[i] == s[i] {
      assert CanonicalChar(s[i]);
    }
  }

  /** Text with no whitespace and no lower-case letter is already in normal form. */
  lemma NormalizeCanonical(s: string)
    requires forall i :: 0 <= i < |s| ==> CanonicalChar(s[i])
    ensures Normalize(s) == s
  {
    if s != [] {
      assert CanonicalChar(s[0]) && CanonicalChar(s[|s| - 1]);
    }
    StripNoop(s);
    UpperCanonical(s);
  }

  /** Python's `a < b` on strings: lexicographic by code point, a proper prefix first. */
  predicate StrLess(a: string, b: string)
    decreases |a|
  {
    if a == [] then b != []
    else if b == [] then false
    else if a[0] != b[0] then a[0] < b[0]
    else StrLess(a[1..], b[1..])
  }

  lemma {:induction false} StrLessIrreflexive(a: string)
    ensures !StrLess(a, a)
    decreases |a|
  {
    if a != [] { StrLessIrreflexive(a[1..]); }
  }

  lemma {:induction false} StrLessTransitive(a: string, b: string, c: string)
    requires StrLess(a, b) && StrLess(b, c)
    ensures StrLess(a, c)
    decreases |a|
  {
    if a != [] && b != [] && c != [] && a[0] == b[0] && b[0] == c[0] {
      StrLessTransitive(a[1..], b[1..], c[1..]);
    }
  }

  lemma {:induction false} StrLessTotal(a: string, b: string)
    requires a != b
    ensures StrLess(a, b) || StrLess(b, a)
    decreases |a|
  {
    if a != [] && b != [] && a[0] == b[0] {
      assert a == [a[0]] + a[1..] && b == [b[0]] + b[1..];
      StrLessTotal(a[1..], b[1..]);
    }
  }

  /** Every element is strictly smaller than the ones after it (so no duplicates). */
  predicate StrictlySorted(s: seq<string>)
  {
    forall i, j :: 0 <= i < j < |s| ==> StrLess(s[i], s[j])
  }

  lemma LessThanHead(k: string, s: seq<string>)
    requires StrictlySorted(s) && s != [] && StrLess(k, s[0])
    ensures forall j :: 0 <= j < |s| ==> StrLess(k, s[j])
  {
    forall j | 0 < j < |s| ensures StrLess(k, s[j]) { StrLessTransitive(k, s[0], s[j]); }
  }

  /** Places `k` into a strictly sorted sequence that does not yet hold it. */
  function InsertSorted(s: seq<string>, k: string): (r: seq<string>)
    requires StrictlySorted(s) && k !in s
    ensures StrictlySorted(r)
    ensures |r| == |s| + 1
    ensures forall x :: x in r <==> x in s || x == k
  {
    if s == [] then [k]
    else if StrLess(k, s[0]) then
      LessThanHead(k, s);
      [k] + s
    else
      StrLessTotal(k, s[0]);
      var t := InsertSorted(s[1..], k);
      assert forall x :: x in t ==> StrLess(s[0], x);
      [s[0]] + t
  }

  /** Two strictly sorted sequences with the same elements are the same sequence. */
  lemma {:induction false} SortedUnique(a: seq<string>, b: seq<string>)
    requires StrictlySorted(a) && StrictlySorted(b)
    requires forall x :: x in a <==> x in b
    ensures a == b
    decreases |a|
  {
    if a != [] { assert a[0] in b; }
    if b != [] { assert b[0] in a; }
    if a != [] {
      if a[0] != b[0] {
        assert a[0] in b && b[0] in a;
        var i :| 0 <= i < |b| && b[i] == a[0];
        var j :| 0 <= j < |a| && a[j] == b[0];
        assert StrLess(b[0], a[0]) && StrLess(a[0], b[0]);
        StrLessTransitive(a[0], b[0], a[0]);
        StrLessIrreflexive(a[0]);
      }
      forall x ensures x in a[1..] <==> x in b[1..] {
        if x in a[1..] {
          var i :| 0 <= i < |a| - 1 && a[1..][i] == x;
          assert StrLess(a[0], a[i + 1]);
          StrLessIrreflexive(a[0]);
          assert a[i + 1] == x && x in a && x in b;
          var k :| 0 <= k < |b| && b[k] == x;
          assert k != 0;
          assert b[1..][k - 1] == x;
        }
        if x in b[1..] {
          var i :| 0 <= i < |b| - 1 && b[1..][i] == x;
          assert StrLess(b[0], b[i + 1]);
          StrLessIrreflexive(b[0]);
          assert b[i + 1] == x && x in b && x in a;
          var k :| 0 <= k < |a| && a[k] == x;
          assert k != 0;
          assert a[1..][k - 1] == x;
        }
      }
      SortedUnique(a[1..], b[1..]);
    }
  }

  /** `strip()` leaves nothing exactly when every character is whitespace. */
  lemma StripEmpty(s: string)
    ensures Strip(s) == [] <==> forall i :: 0 <= i < |s| ==> IsSpace(s[i])
  {
    if Strip(s) == [] {
      forall i | 0 <= i < |s| ensures IsSpace(s[i]) {
        if i >= LeadSpaces(s) {
          assert LeadSpaces(s) + |Strip(s)| <= i;
        }
      }
    }
  }
}
