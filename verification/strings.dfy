/**
 * Text primitives shared by the vote parser and the scraper scripts: the whitespace
 * classes of Python and JavaScript, strip/trim, substring search, Python's
 * `str.replace(old, "")`, JavaScript's `String.prototype.replace` with a string
 * pattern, `split`/`join` on one separator character and decimal numerals.
 */
module Strings {

  /** Characters for which Python's `str.isspace()` holds: what `str.strip()`
      removes and what `\s` matches in a `str` regular expression. */
  predicate IsPySpace(c: char) {
    ('\t' <= c <= '\r') || ('\U{1c}' <= c <= '\U{1f}') || c == ' ' || c == '\U{85}' || c == '\U{a0}'
    || c == '\U{1680}' || ('\U{2000}' <= c <= '\U{200a}') || c == '\U{2028}' || c == '\U{2029}'
    || c == '\U{202f}' || c == '\U{205f}' || c == '\U{3000}'
  }

  /** JavaScript's WhiteSpace and LineTerminator characters: what `String.prototype.trim` removes. */
  predicate IsJsSpace(c: char) {
    ('\t' <= c <= '\r') || c == ' ' || c == '\U{a0}' || c == '\U{1680}' || ('\U{2000}' <= c <= '\U{200a}')
    || c == '\U{2028}' || c == '\U{2029}' || c == '\U{202f}' || c == '\U{205f}' || c == '\U{3000}'
    || c == '\U{feff}'
  }

  predicate IsDigit(c: char) {
    '0' <= c <= '9'
  }

  // ---------------------------------------------------------------------------
  // Stripping
  // ---------------------------------------------------------------------------

  /** Number of leading characters of `s` in the class `sp`. */
  function LeadCount(s: string, sp: char -> bool): (n: nat)
    ensures n <= |s|
    ensures forall i :: 0 <= i < n ==> sp(s[i])
    ensures n < |s| ==> !sp(s[n])
  {
    if s == [] || !sp(s[0]) then 0 else 1 + LeadCount(s[1..], sp)
  }

  /** Number of trailing characters of `s` in the class `sp`. */
  function TrailCount(s: string, sp: char -> bool): (n: nat)
    ensures n <= |s|
    ensures forall i :: |s| - n <= i < |s| ==> sp(s[i])
    ensures n < |s| ==> !sp(s[|s| - 1 - n])
  {
    if s == [] || !sp(s[|s| - 1]) then 0 else 1 + TrailCount(s[..|s| - 1], sp)
  }

  /** Everything of `s` before position `i` and from position `j` on is in the class `sp`. */
  ghost predicate PaddedBy(s: string, i: int, j: int, sp: char -> bool)
    requires 0 <= i <= j <= |s|
  {
    && (forall k :: 0 <= k < i ==> sp(s[k]))
    && (forall k :: j <= k < |s| ==> sp(s[k]))
  }

  /** `r` is `s` with its padding removed: a slice of `s` that starts and ends outside
      the class `sp`, with only `sp` characters around it. */
  ghost predicate IsStripOf(s: string, r: string, i: int, sp: char -> bool) {
    && 0 <= i <= |s| - |r|
    && r == s[i..i + |r|]
    && PaddedBy(s, i, i + |r|, sp)
    && (r == [] || (!sp(r[0]) && !sp(r[|r| - 1])))
  }

  /** Removes leading and trailing `sp` characters. */
  function StripBy(s: string, sp: char -> bool): (r: string)
    ensures r == [] || (!sp(r[0]) && !sp(r[|r| - 1]))
    ensures exists i :: IsStripOf(s, r, i, sp)
  {
    var a := LeadCount(s, sp);
    var b := TrailCount(s[a..], sp);
    var r := s[a..|s| - b];
    assert IsStripOf(s, r, a, sp) by {
      forall k | a + |r| <= k < |s| ensures sp(s[k]) {
        assert s[k] == s[a..][k - a];
      }
    }
    r
  }

  /** The characterisation in `IsStripOf` has exactly one solution, `StripBy`'s. */
  lemma StripUnique(s: string, r: string, i: int, sp: char -> bool)
    requires IsStripOf(s, r, i, sp)
    ensures r == StripBy(s, sp)
  {
    var a := LeadCount(s, sp);
    var b := TrailCount(s[a..], sp);
    if r == [] {
      assert forall k :: 0 <= k < |s| ==> sp(s[k]);
      assert a == |s|;
    } else {
      assert s[i] == r[0];
      assert a == i;
      var j := i + |r|;
      assert s[j - 1] == r[|r| - 1];
      var t := s[a..];
      assert forall k :: j - a <= k < |t| ==> sp(t[k]) by {
        forall k | j - a <= k < |t| ensures sp(t[k]) { assert t[k] == s[a + k]; }
      }
      assert t[j - a - 1] == s[j - 1];
      assert b == |s| - j;
    }
  }

  /** Python's `str.strip()` with no argument. */
  function Strip(s: string): string {
    StripBy(s, IsPySpace)
  }

  /** JavaScript's `String.prototype.trim()`. */
  function Trim(s: string): string {
    StripBy(s, IsJsSpace)
  }

  /** Stripping twice is stripping once. */
  lemma StripIdempotent(s: string, sp: char -> bool)
    ensures StripBy(StripBy(s, sp), sp) == StripBy(s, sp)
  {
    var r := StripBy(s, sp);
    assert r[0..|r|] == r;
    assert IsStripOf(r, r, 0, sp);
    StripUnique(r, r, 0, sp);
  }

  /** A string that neither starts nor ends with padding is its own strip. */
  lemma StripUnpadded(s: string, sp: char -> bool)
    requires s == [] || (!sp(s[0]) && !sp(s[|s| - 1]))
    ensures StripBy(s, sp) == s
  {
    assert s[0..|s|] == s;
    assert IsStripOf(s, s, 0, sp);
    StripUnique(s, s, 0, sp);
  }

  // ---------------------------------------------------------------------------
  // Substrings
  // ---------------------------------------------------------------------------

  predicate StartsWith(s: string, p: string) {
    p <= s
  }

  predicate EndsWith(s: string, p: string) {
    |p| <= |s| && s[|s| - |p|..] == p
  }

  /** Python's `p in s` and JavaScript's `s.includes(p)`. */
  predicate Contains(s: string, p: string) {
    exists i | 0 <= i <= |s| :: p <= s[i..]
  }

  lemma ContainsTail(s: string, p: string)
    requires s != []
    ensures Contains(s[1..], p) ==> Contains(s, p)
  {
    if Contains(s[1..], p) {
      var i :| 0 <= i <= |s[1..]| && p <= s[1..][i..];
      assert s[1..][i..] == s[i + 1..];
    }
  }

  lemma ContainsHead(s: string, p: string)
    requires s != [] && Contains(s, p) && !(p <= s)
    ensures Contains(s[1..], p)
  {
    var i :| 0 <= i <= |s| && p <= s[i..];
    assert i != 0;
    assert s[1..][i - 1..] == s[i..];
  }

  /** Without a match at the front, `s` contains `p` exactly when its tail does. */
  lemma ContainsShift(s: string, p: string)
    requires s != [] && !(p <= s)
    ensures Contains(s, p) <==> Contains(s[1..], p)
  {
    ContainsTail(s, p);
    if Contains(s, p) { ContainsHead(s, p); }
  }

  /** Dropping a prefix in which the first character of `p` does not occur keeps every
      occurrence of `p`. */
  lemma ContainsPastPrefix(s: string, q: string, p: string)
    requires StartsWith(s, q) && p != [] && p[0] !in q && Contains(s, p)
    ensures Contains(s[|q|..], p)
  {
    var i :| 0 <= i <= |s| && p <= s[i..];
    assert s[|q|..][i - |q|..] == s[i..];
  }

  /** A string without the first character of `p` does not contain `p`. */
  lemma MissingHead(s: string, p: string)
    requires p != [] && p[0] !in s
    ensures !Contains(s, p)
  {
    forall i | 0 <= i <= |s| ensures !(p <= s[i..]) {
      if i < |s| {
        assert s[i] in s;
      }
    }
  }

  /** Number of non-overlapping occurrences of `p` found scanning `s` left to right. */
  function Occurrences(s: string, p: string): (n: nat)
    requires p != []
    ensures n == 0 <==> !Contains(s, p)
    decreases |s|
  {
    if |s| < |p| then
      assert !Contains(s, p) by {
        if Contains(s, p) { var i :| 0 <= i <= |s| && p <= s[i..]; }
      }
      0
    else if p <= s then
      assert s[0..] == s;
      1 + Occurrences(s[|p|..], p)
    else
      ContainsShift(s, p);
      Occurrences(s[1..], p)
  }

  /** Python's `s.replace(p, "")`: every non-overlapping occurrence, found left to right, deleted. */
  function DeleteAll(s: string, p: string): (r: string)
    requires p != []
    ensures |r| == |s| - |p| * Occurrences(s, p)
    ensures !Contains(s, p) ==> r == s
    decreases |s|
  {
    if |s| < |p| then
      s
    else if p <= s then
      assert s[0..] == s;
      var n := Occurrences(s[|p|..], p);
      assert |p| * (1 + n) == |p| + |p| * n;
      DeleteAll(s[|p|..], p)
    else
      ContainsShift(s, p);
      assert [s[0]] + s[1..] == s;
      [s[0]] + DeleteAll(s[1..], p)
  }

  /** `i` is the leftmost position at which `p` occurs in `s`. */
  ghost predicate FirstAt(s: string, p: string, i: int) {
    && 0 <= i <= |s| - |p|
    && p <= s[i..]
    && forall j :: 0 <= j < i ==> !(p <= s[j..])
  }

  /** The leftmost position of `p` in `s`, which exists when `s` contains `p`. */
  function Find(s: string, p: string): (i: nat)
    requires Contains(s, p)
    ensures FirstAt(s, p, i)
  {
    if p <= s then
      assert s[0..] == s;
      0
    else
      ContainsShift(s, p);
      var i := Find(s[1..], p);
      assert s[i + 1..] == s[1..][i..];
      assert forall j :: 1 <= j <= |s| ==> s[j..] == s[1..][j - 1..];
      1 + i
  }

  /** `DeleteAll` keeps the text before the leftmost occurrence, deletes that occurrence and
      goes on behind it. */
  lemma {:induction false} DeleteAllAtFirst(a: string, p: string, b: string)
    requires p != []
    requires forall j :: 0 <= j < |a| ==> !(p <= (a + p + b)[j..])
    ensures DeleteAll(a + p + b, p) == a + DeleteAll(b, p)
    decreases |a|
  {
    var s := a + p + b;
    if a == [] {
      assert s == p + b && p <= s && s[|p|..] == b;
    } else {
      var a' := a[1..];
      assert s[0..] == s;
      assert s[1..] == a' + p + b;
      forall j | 0 <= j < |a'| ensures !(p <= (a' + p + b)[j..]) {
        assert (a' + p + b)[j..] == s[j + 1..];
      }
      DeleteAllAtFirst(a', p, b);
      ConsStep(a, DeleteAll(s, p), DeleteAll(a' + p + b, p), DeleteAll(b, p));
    }
  }

  lemma ConsStep<T>(a: seq<T>, d: seq<T>, dt: seq<T>, rest: seq<T>)
    requires a != [] && d == [a[0]] + dt && dt == a[1..] + rest
    ensures d == a + rest
  {
    assert [a[0]] + a[1..] == a;
  }

  /** JavaScript's `s.replace(p, "")` with a string pattern: only the leftmost occurrence
      is deleted. */
  function DeleteFirst(s: string, p: string): (r: string)
    requires p != []
    ensures Contains(s, p) ==> |r| == |s| - |p| && exists i :: FirstAt(s, p, i) && r == s[..i] + s[i + |p|..]
    ensures !Contains(s, p) ==> r == s
  {
    if Contains(s, p) then
      var i := Find(s, p);
      s[..i] + s[i + |p|..]
    else
      s
  }

  // ---------------------------------------------------------------------------
  // Split and join on one separator character
  // ---------------------------------------------------------------------------

  /** Position of the first `c` in `s`. */
  function IndexOf(s: string, c: char): (k: nat)
    requires c in s
    ensures k < |s| && s[k] == c && c !in s[..k]
  {
    if s[0] == c then 0 else 1 + IndexOf(s[1..], c)
  }

  /** JavaScript's `xs.join(sep)` and Python's `sep.join(xs)` for a one-character separator. */
  function Join(xs: seq<string>, sep: char): string {
    if |xs| == 0 then ""
    else if |xs| == 1 then xs[0]
    else xs[0] + [sep] + Join(xs[1..], sep)
  }

  /** JavaScript's `s.split(sep)` for a one-character separator: the pieces between
      separators, at least one, none containing the separator, joining back to `s`. */
  function Split(s: string, sep: char): (r: seq<string>)
    ensures |r| >= 1
    ensures forall i :: 0 <= i < |r| ==> sep !in r[i]
    ensures Join(r, sep) == s
    decreases |s|
  {
    if sep !in s then [s]
    else
      var k := IndexOf(s, sep);
      var rest := Split(s[k + 1..], sep);
      assert s == s[..k] + [sep] + s[k + 1..];
      [s[..k]] + rest
  }

  /** The first `c` is the one with no `c` before it. */
  lemma IndexOfAt(s: string, c: char, k: nat)
    requires k < |s| && s[k] == c && c !in s[..k]
    ensures IndexOf(s, c) == k
  {
  }

  /** Splitting undoes joining when no piece contains the separator. */
  lemma {:induction false} SplitJoin(xs: seq<string>, sep: char)
    requires |xs| >= 1
    requires forall i :: 0 <= i < |xs| ==> sep !in xs[i]
    ensures Split(Join(xs, sep), sep) == xs
  {
    if |xs| > 1 {
      var s := Join(xs, sep);
      var t := Join(xs[1..], sep);
      var k := |xs[0]|;
      SplitJoin(xs[1..], sep);
      assert s == xs[0] + [sep] + t;
      assert s[k] == sep && s[..k] == xs[0] && s[k + 1..] == t;
      IndexOfAt(s, sep, k);
      assert Split(s, sep) == [xs[0]] + Split(t, sep);
    }
  }

  // ---------------------------------------------------------------------------
  // Decimal numerals
  // ---------------------------------------------------------------------------

  function DigitChar(d: nat): (c: char)
    requires d < 10
    ensures IsDigit(c)
  {
    (48 + d) as char
  }

  function DigitValue(c: char): nat
    requires IsDigit(c)
  {
    c as int - 48
  }

  /** `int(d)` in Python for a run of ASCII digits. */
  function DigitsValue(d: string): nat
    requires forall i :: 0 <= i < |d| ==> IsDigit(d[i])
  {
    if d == [] then 0 else DigitsValue(d[..|d| - 1]) * 10 + DigitValue(d[|d| - 1])
  }

  /** The decimal numeral of `n`, as Python's `f"{n}"` and JavaScript's `${n}` write it. */
  function NatToString(n: nat): (r: string)
    ensures |r| >= 1
    ensures forall i :: 0 <= i < |r| ==> IsDigit(r[i])
    ensures DigitsValue(r) == n
    ensures r[0] == '0' ==> n == 0 && |r| == 1
  {
    if n < 10 then [DigitChar(n)]
    else
      var r := NatToString(n / 10) + [DigitChar(n % 10)];
      assert r[..|r| - 1] == NatToString(n / 10);
      r
  }

  // ---------------------------------------------------------------------------
  // Ordering
  // ---------------------------------------------------------------------------

  /** Python's `<=` on `str`: lexicographic by code point, a prefix first. */
  predicate StrLe(a: string, b: string) {
    a == [] || (b != [] && (a[0] < b[0] || (a[0] == b[0] && StrLe(a[1..], b[1..]))))
  }

  lemma {:induction false} StrLeTotal(a: string, b: string)
    ensures StrLe(a, b) || StrLe(b, a)
  {
    if a != [] && b != [] && a[0] == b[0] {
      StrLeTotal(a[1..], b[1..]);
    }
  }

  lemma {:induction false} StrLeTrans(a: string, b: string, c: string)
    requires StrLe(a, b) && StrLe(b, c)
    ensures StrLe(a, c)
  {
    if a != [] && a[0] == b[0] && b[0] == c[0] {
      StrLeTrans(a[1..], b[1..], c[1..]);
    }
  }

  lemma {:induction false} StrLeAntisymmetric(a: string, b: string)
    requires StrLe(a, b) && StrLe(b, a)
    ensures a == b
  {
    if a != [] {
      StrLeAntisymmetric(a[1..], b[1..]);
      assert a == [a[0]] + a[1..] && b == [b[0]] + b[1..];
    }
  }

  // ---------------------------------------------------------------------------
  // Sequences built element by element
  // ---------------------------------------------------------------------------

  /** A function on sequences that is built one element at a time, each element adding its
      own part at the end, maps a concatenation to the concatenation of the parts. */
  lemma {:induction false} SnocAppend<T, U>(f: seq<T> -> seq<U>, a: seq<T>, b: seq<T>)
    requires f([]) == []
    requires forall xs, x :: f(xs + [x]) == f(xs) + f([x])
    ensures f(a + b) == f(a) + f(b)
    decreases |b|
  {
    if b == [] {
      assert a + b == a;
    } else {
      var n := |b| - 1;
      var c := b[..n];
      assert b == c + [b[n]];
      assert a + b == (a + c) + [b[n]];
      SnocAppend(f, a, c);
      assert f(a + b) == f(a + c) + f([b[n]]);
      assert f(b) == f(c) + f([b[n]]);
    }
  }
}
