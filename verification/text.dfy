/**
 * String helpers shared by the content pipeline, the lookups and the UI models.
 * Strings are sequences of code points; the JavaScript and Python built-ins the
 * source relies on (`trim`, `toLowerCase`/`lower`, `includes`/`in`, `indexOf`,
 * `split`, `join`, `parseInt`) are defined here once.
 */
module Text {
  import opened Wrappers

  /** Whitespace as JavaScript's regex class `\s` and `String.prototype.trim` define it. */
  predicate IsSpace(c: char) {
    || c == ' ' || c == '\t' || c == '\n' || c == '\r' || c == '\U{000B}' || c == '\U{000C}'
    || c == '\U{00A0}' || c == '\U{1680}' || ('\U{2000}' <= c <= '\U{200A}')
    || c == '\U{2028}' || c == '\U{2029}' || c == '\U{202F}' || c == '\U{205F}'
    || c == '\U{3000}' || c == '\U{FEFF}'
  }

  /** Line terminators: what `.` refuses and where `^`/`$` match under the `m` flag. */
  predicate IsLineTerminator(c: char) {
    c == '\n' || c == '\r' || c == '\U{2028}' || c == '\U{2029}'
  }

  lemma LineTerminatorIsSpace(c: char)
    requires IsLineTerminator(c)
    ensures IsSpace(c)
  {
  }

  predicate IsDigit(c: char) { '0' <= c <= '9' }
  predicate IsAsciiUpper(c: char) { 'A' <= c <= 'Z' }
  predicate IsAsciiLower(c: char) { 'a' <= c <= 'z' }
  predicate IsAsciiAlnum(c: char) { IsAsciiUpper(c) || IsAsciiLower(c) || IsDigit(c) }

  predicate AllSpace(s: string) { forall i :: 0 <= i < |s| ==> IsSpace(s[i]) }
  predicate AllDigits(s: string) { forall i :: 0 <= i < |s| ==> IsDigit(s[i]) }

  predicate StartsWith(s: string, prefix: string) {
    |prefix| <= |s| && s[..|prefix|] == prefix
  }

  predicate EndsWith(s: string, suffix: string) {
    |suffix| <= |s| && s[|s| - |suffix|..] == suffix
  }

  /** Removes leading whitespace. */
  function TrimStart(s: string): (r: string)
    ensures |r| <= |s| && r == s[|s| - |r|..]
    ensures AllSpace(s[..|s| - |r|])
    ensures r == [] || !IsSpace(r[0])
  {
    if s == [] || !IsSpace(s[0]) then s
    else
      var t := s[1..];
      var r := TrimStart(t);
      var u := s[..|s| - |r|];
      assert AllSpace(u) by {
        forall i | 0 <= i < |u| ensures IsSpace(u[i]) {
          if i > 0 {
            assert u[i] == t[..|t| - |r|][i - 1];
          }
        }
      }
      assert s[|s| - |r|..] == t[|t| - |r|..];
      r
  }

  /** Removes trailing whitespace. */
  function TrimEnd(s: string): (r: string)
    ensures |r| <= |s| && r == s[..|r|]
    ensures AllSpace(s[|r|..])
    ensures r == [] || !IsSpace(r[|r| - 1])
  {
    if s == [] || !IsSpace(s[|s| - 1]) then s
    else
      var t := s[..|s| - 1];
      var r := TrimEnd(t);
      assert AllSpace(s[|r|..]) by {
        forall i | 0 <= i < |s| - |r| ensures IsSpace(s[|r|..][i]) {
          if i < |t| - |r| {
            assert s[|r|..][i] == t[|r|..][i];
          }
        }
      }
      r
  }

  /** `String.prototype.trim`: the longest infix that neither starts nor ends with whitespace. */
  function Trim(s: string): (r: string)
    ensures |r| <= |s|
    ensures r == [] || (!IsSpace(r[0]) && !IsSpace(r[|r| - 1]))
  {
    TrimEnd(TrimStart(s))
  }

  /** A slice of a slice is a slice of the original. */
  lemma SliceOfSlice(s: string, a: nat, b: nat, c: nat, d: nat)
    requires a <= b <= |s| && c <= d <= b - a
    ensures s[a..b][c..d] == s[a + c..a + d]
  {
    assert forall k :: 0 <= k < d - c ==> s[a..b][c..d][k] == s[a + c..a + d][k];
  }

  /** The middle part of a concatenation of three. */
  lemma MiddleOfConcat(a: string, b: string, c: string)
    ensures (a + b + c)[|a|..|a| + |b|] == b
  {
    assert forall i :: 0 <= i < |b| ==> (a + b + c)[|a|..|a| + |b|][i] == b[i];
  }

  /** A string trims to nothing exactly when it is all whitespace. */
  lemma TrimEmptyIff(s: string)
    ensures Trim(s) == [] <==> AllSpace(s)
  {
    if !AllSpace(s) {
      var t := TrimStart(s);
      var i :| 0 <= i < |s| && !IsSpace(s[i]);
      assert |s| - |t| <= i;
    }
  }

  /** Trimming text that has no whitespace at either end changes nothing. */
  lemma TrimNoEdges(s: string)
    requires s == [] || (!IsSpace(s[0]) && !IsSpace(s[|s| - 1]))
    ensures Trim(s) == s
  {
  }

  /**
   * Case mapping of one character as JavaScript's `toLowerCase` and Python's `lower`
   * perform it on the characters that can lower-case into ASCII: the 26 capitals,
   * KELVIN SIGN (to 'k') and LATIN CAPITAL LETTER I WITH DOT ABOVE (to 'i' and a
   * combining dot). Every other character is kept.
   */
  function LowerChar(c: char): (r: string)
    ensures 1 <= |r| <= 2
  {
    if IsAsciiUpper(c) then [(c as int + 32) as char]
    else if c == '\U{212A}' then "k"
    else if c == '\U{0130}' then "i\U{0307}"
    else [c]
  }

  /** Characters that lower-casing keeps as they are. */
  predicate LowerFixed(c: char) {
    !IsAsciiUpper(c) && c != '\U{212A}' && c != '\U{0130}'
  }

  function Lower(s: string): (r: string)
    ensures |r| >= |s|
  {
    if s == [] then [] else LowerChar(s[0]) + Lower(s[1..])
  }

  lemma LowerAppend(a: string, b: string)
    ensures Lower(a + b) == Lower(a) + Lower(b)
  {
    if a == [] {
      assert a + b == b;
    } else {
      assert (a + b)[1..] == a[1..] + b;
      LowerAppend(a[1..], b);
    }
  }

  /** Lower-casing leaves text without capitals unchanged. */
  lemma {:induction false} LowerOfFixed(s: string)
    requires forall i :: 0 <= i < |s| ==> LowerFixed(s[i])
    ensures Lower(s) == s
  {
    if s != [] {
      LowerOfFixed(s[1..]);
    }
  }

  /** Everything lower-casing produces is fixed by it, so lower-casing is idempotent. */
  lemma {:induction false} LowerIdempotent(s: string)
    ensures forall i :: 0 <= i < |Lower(s)| ==> LowerFixed(Lower(s)[i])
    ensures Lower(Lower(s)) == Lower(s)
  {
    if s != [] {
      LowerIdempotent(s[1..]);
      var h := LowerChar(s[0]);
      assert forall i :: 0 <= i < |h| ==> LowerFixed(h[i]);
      var r := Lower(s);
      assert r == h + Lower(s[1..]);
      forall i | 0 <= i < |r|
        ensures LowerFixed(r[i])
      {
        if i >= |h| {
          assert r[i] == Lower(s[1..])[i - |h|];
        }
      }
      LowerOfFixed(r);
    }
  }

  /** `sub` occurs in `s` at index `i`. */
  predicate OccursAt(s: string, sub: string, i: int) {
    0 <= i && i + |sub| <= |s| && s[i..i + |sub|] == sub
  }

  /** `indexOf` from position `from`: the first occurrence at or after `from`, or -1. */
  function IndexOfFrom(s: string, sub: string, from: nat): (r: int)
    ensures r == -1 || (from <= r && OccursAt(s, sub, r))
    ensures r == -1 ==> forall i :: from <= i ==> !OccursAt(s, sub, i)
    ensures r >= 0 ==> forall i :: from <= i < r ==> !OccursAt(s, sub, i)
    decreases |s| - from
  {
    if from + |sub| > |s| then -1
    else if s[from..from + |sub|] == sub then from
    else IndexOfFrom(s, sub, from + 1)
  }

  /** `String.prototype.indexOf`. */
  function IndexOf(s: string, sub: string): int {
    IndexOfFrom(s, sub, 0)
  }

  /** `String.prototype.includes` and Python's `in` on strings. */
  predicate Contains(s: string, sub: string) {
    IndexOf(s, sub) >= 0
  }

  lemma ContainsIff(s: string, sub: string)
    ensures Contains(s, sub) <==> exists i :: OccursAt(s, sub, i)
  {
  }

  lemma ContainsWitness(s: string, sub: string, i: int)
    requires OccursAt(s, sub, i)
    ensures Contains(s, sub)
  {
  }

  /** Every string contains the empty string. */
  lemma ContainsEmpty(s: string)
    ensures Contains(s, "")
  {
    assert OccursAt(s, "", 0);
  }

  /** A string contains a one-character string exactly when the character is in it. */
  lemma ContainsChar(s: string, c: char)
    ensures Contains(s, [c]) <==> c in s
  {
    if c in s {
      var i :| 0 <= i < |s| && s[i] == c;
      assert OccursAt(s, [c], i);
    }
    if Contains(s, [c]) {
      var i := IndexOf(s, [c]);
      assert s[i] == s[i..i + 1][0];
    }
  }

  /** Index of the first `c` at or after `from`, or `|s|` when there is none. */
  function FindChar(s: string, c: char, from: nat): (r: nat)
    requires from <= |s|
    ensures from <= r <= |s|
    ensures r < |s| ==> s[r] == c
    ensures forall i :: from <= i < r ==> s[i] != c
    decreases |s| - from
  {
    if from == |s| || s[from] == c then from else FindChar(s, c, from + 1)
  }

  /** Whatever the trimmed text contains, the text contains. */
  lemma ContainsTrimmed(s: string, sub: string)
    requires Contains(Trim(s), sub)
    ensures Contains(s, sub)
  {
    var a := TrimStart(s);
    var t := TrimEnd(a);
    var off := |s| - |a|;
    assert t == s[off..off + |t|] by {
      assert a == s[off..];
      assert t == a[..|t|];
    }
    InfixContains(s, off, t, sub);
  }

  /** Whatever an infix of `s` contains, `s` contains. */
  lemma InfixContains(s: string, off: nat, t: string, sub: string)
    requires off + |t| <= |s| && t == s[off..off + |t|]
    requires Contains(t, sub)
    ensures Contains(s, sub)
  {
    var i := IndexOf(t, sub);
    assert OccursAt(t, sub, i);
    assert forall q :: 0 <= q < |t| ==> t[q] == s[off + q];
    assert forall q :: 0 <= q < |sub| ==> s[off + i + q] == sub[q];
    assert s[off + i..off + i + |sub|] == sub;
    ContainsWitness(s, sub, off + i);
  }

  /** `FindChar` returns the first position holding `c`, or `|s|`. */
  lemma FindCharAt(s: string, c: char, from: nat, i: nat)
    requires from <= i <= |s|
    requires i < |s| ==> s[i] == c
    requires forall q :: from <= q < i ==> s[q] != c
    ensures FindChar(s, c, from) == i
    decreases i - from
  {
    if from < i {
      FindCharAt(s, c, from + 1, i);
    }
  }

  /** `toUpperCase` on ASCII: a-z become A-Z, everything else is kept. */
  function UpperChar(c: char): (u: char)
    ensures IsAsciiLower(c) ==> IsAsciiUpper(u) && u as int == c as int - 32
    ensures !IsAsciiLower(c) ==> u == c
  {
    if IsAsciiLower(c) then (c as int - 32) as char else c
  }

  /** Every character of `s` through `UpperChar`. */
  function Upper(s: string): (r: string)
    ensures |r| == |s|
  {
    if s == [] then [] else [UpperChar(s[0])] + Upper(s[1..])
  }

  /** The characters of `s` that satisfy `p`, in order. */
  function Filter(s: string, p: char -> bool): (r: string)
    ensures |r| <= |s|
    ensures forall i :: 0 <= i < |r| ==> p(r[i]) && r[i] in s
    ensures forall c :: c in s && p(c) ==> c in r
  {
    if s == [] then [] else (if p(s[0]) then [s[0]] else []) + Filter(s[1..], p)
  }

  lemma {:induction false} FilterAppend(a: string, b: string, p: char -> bool)
    ensures Filter(a + b, p) == Filter(a, p) + Filter(b, p)
  {
    if a == [] {
      assert a + b == b;
    } else {
      assert (a + b)[1..] == a[1..] + b;
      FilterAppend(a[1..], b, p);
    }
  }

  /** Filtering keeps everything when every character passes. */
  lemma {:induction false} FilterAll(s: string, p: char -> bool)
    requires forall i :: 0 <= i < |s| ==> p(s[i])
    ensures Filter(s, p) == s
  {
    if s != [] {
      FilterAll(s[1..], p);
    }
  }

  /** Filtering keeps nothing when no character passes. */
  lemma {:induction false} FilterNone(s: string, p: char -> bool)
    requires forall i :: 0 <= i < |s| ==> !p(s[i])
    ensures Filter(s, p) == []
  {
    if s != [] {
      FilterNone(s[1..], p);
    }
  }

  predicate NotSpace(c: char) { !IsSpace(c) }

  /** `replace(/\s+/g, '-')`: every maximal run of whitespace becomes one `-`. */
  function DashRuns(s: string): (r: string)
    ensures forall i :: 0 <= i < |r| ==> !IsSpace(r[i]) && (r[i] == '-' || r[i] in s)
    decreases |s|
  {
    if s == [] then []
    else if IsSpace(s[0]) then
      var rest := TrimStart(s);
      assert |rest| < |s| by {
        assert rest == [] || rest[0] == s[|s| - |rest|];
      }
      "-" + DashRuns(rest)
    else [s[0]] + DashRuns(s[1..])
  }

  /**
   * Turning whitespace runs into dashes keeps every character that is neither whitespace
   * nor a dash, in order.
   */
  lemma {:induction false} DashRunsKeeps(s: string, p: char -> bool)
    requires forall c :: p(c) ==> !IsSpace(c) && c != '-'
    ensures Filter(DashRuns(s), p) == Filter(s, p)
    decreases |s|
  {
    if s != [] {
      if IsSpace(s[0]) {
        DashRunsKeeps(TrimStart(s), p);
        DashRunsKeepsRun(s, p);
      } else {
        DashRunsKeeps(s[1..], p);
        DashRunsKeepsChar(s, p);
      }
    }
  }

  /** A whitespace run becomes a dash, and neither holds a kept character. */
  lemma DashRunsKeepsRun(s: string, p: char -> bool)
    requires forall c :: p(c) ==> !IsSpace(c) && c != '-'
    requires s != [] && IsSpace(s[0])
    requires Filter(DashRuns(TrimStart(s)), p) == Filter(TrimStart(s), p)
    ensures Filter(DashRuns(s), p) == Filter(s, p)
  {
    DashRunsOfSpace(s);
    FilterSkipsSpaces(s, p);
    FilterAppend("-", DashRuns(TrimStart(s)), p);
  }

  lemma DashRunsOfSpace(s: string)
    requires s != [] && IsSpace(s[0])
    ensures DashRuns(s) == "-" + DashRuns(TrimStart(s))
  {
  }

  /** Leading whitespace holds none of the characters a filter without whitespace keeps. */
  lemma FilterSkipsSpaces(s: string, p: char -> bool)
    requires forall c :: p(c) ==> !IsSpace(c)
    ensures Filter(s, p) == Filter(TrimStart(s), p)
  {
    var rest := TrimStart(s);
    var lead := s[..|s| - |rest|];
    assert s == lead + rest;
    FilterAppend(lead, rest, p);
    FilterNone(lead, p);
  }

  /** Any other character is kept as it is. */
  lemma DashRunsKeepsChar(s: string, p: char -> bool)
    requires s != [] && !IsSpace(s[0])
    requires Filter(DashRuns(s[1..]), p) == Filter(s[1..], p)
    ensures Filter(DashRuns(s), p) == Filter(s, p)
  {
    FilterAppend([s[0]], DashRuns(s[1..]), p);
    FilterAppend([s[0]], s[1..], p);
    assert s == [s[0]] + s[1..];
  }

  /** Text without whitespace has no runs to replace. */
  lemma {:induction false} DashRunsNoSpace(s: string)
    requires forall i :: 0 <= i < |s| ==> !IsSpace(s[i])
    ensures DashRuns(s) == s
  {
    if s != [] {
      DashRunsNoSpace(s[1..]);
      assert s == [s[0]] + s[1..];
    }
  }

  /** Filtering twice, the second time by a stricter predicate, is filtering once by it. */
  lemma {:induction false} FilterFilter(s: string, keep: char -> bool, p: char -> bool)
    requires forall c :: p(c) ==> keep(c)
    ensures Filter(Filter(s, keep), p) == Filter(s, p)
  {
    if s != [] {
      FilterFilter(s[1..], keep, p);
      var head := if keep(s[0]) then [s[0]] else [];
      FilterAppend(head, Filter(s[1..], keep), p);
    }
  }

  /** `s.split(sep)` for a one-character separator. */
  function Split(s: string, sep: char): (parts: seq<string>)
    ensures |parts| >= 1
    ensures forall i :: 0 <= i < |parts| ==> sep !in parts[i]
    decreases |s|
  {
    var i := FindChar(s, sep, 0);
    if i == |s| then [s] else [s[..i]] + Split(s[i + 1..], sep)
  }

  /** `parts.join(sep)`. */
  function Join(parts: seq<string>, sep: string): string {
    if |parts| == 0 then ""
    else if |parts| == 1 then parts[0]
    else parts[0] + sep + Join(parts[1..], sep)
  }

  /** Joining with one more part appends the separator and the part. */
  lemma {:induction false} JoinSnoc(parts: seq<string>, x: string, sep: string)
    requires parts != []
    ensures Join(parts + [x], sep) == Join(parts, sep) + sep + x
    decreases |parts|
  {
    if |parts| > 1 {
      assert (parts + [x])[1..] == parts[1..] + [x];
      JoinSnoc(parts[1..], x, sep);
    }
  }

  /** Joining the pieces of a split with the separator gives back the original text. */
  lemma {:induction false} JoinSplit(s: string, sep: char)
    ensures Join(Split(s, sep), [sep]) == s
    decreases |s|
  {
    var i := FindChar(s, sep, 0);
    if i < |s| {
      var rest := Split(s[i + 1..], sep);
      JoinSplit(s[i + 1..], sep);
      assert Split(s, sep) == [s[..i]] + rest;
      assert s == s[..i] + [sep] + s[i + 1..];
    }
  }

  /** Splitting at the first separator gives the text before it, then the rest's pieces. */
  lemma SplitCons(a: string, b: string, sep: char)
    requires sep !in a
    ensures Split(a + [sep] + b, sep) == [a] + Split(b, sep)
  {
    var s := a + [sep] + b;
    var i := FindChar(s, sep, 0);
    assert s[|a|] == sep;
    assert forall j :: 0 <= j < |a| ==> s[j] == a[j];
    assert s[..i] == a;
    assert s[i + 1..] == b;
  }

  /** Splitting text that does not contain the separator gives the text alone. */
  lemma SplitNoSep(s: string, sep: char)
    requires sep !in s
    ensures Split(s, sep) == [s]
  {
  }

  function DigitChar(d: nat): (c: char)
    requires d < 10
    ensures IsDigit(c)
  {
    ('0' as int + d) as char
  }

  function DigitValue(c: char): (d: nat)
    requires IsDigit(c)
    ensures d < 10
  {
    c as int - '0' as int
  }

  /** The decimal numeral of `n`, as `String(n)` prints a non-negative integer. */
  function NatToString(n: nat): (r: string)
    ensures |r| >= 1 && AllDigits(r)
    ensures n >= 10 <==> |r| >= 2
  {
    if n < 10 then [DigitChar(n)] else NatToString(n / 10) + [DigitChar(n % 10)]
  }

  /** The value of a string of decimal digits. */
  function DigitsValue(s: string): nat
    requires AllDigits(s)
  {
    if s == [] then 0 else DigitsValue(s[..|s| - 1]) * 10 + DigitValue(s[|s| - 1])
  }

  /** Reading back a printed numeral gives the number. */
  lemma {:induction false} NatToStringRoundTrip(n: nat)
    ensures DigitsValue(NatToString(n)) == n
  {
    if n >= 10 {
      NatToStringRoundTrip(n / 10);
      var r := NatToString(n);
      assert r[..|r| - 1] == NatToString(n / 10);
    }
  }

  /** Printed numerals never start with a redundant zero, so printing is injective. */
  lemma {:induction false} NatToStringInjective(m: nat, n: nat)
    requires NatToString(m) == NatToString(n)
    ensures m == n
  {
    NatToStringRoundTrip(m);
    NatToStringRoundTrip(n);
  }

  /** JavaScript `String(i)` for an integer. */
  function IntToString(i: int): (r: string)
    ensures |r| >= 1
  {
    if i < 0 then "-" + NatToString(-i) else NatToString(i)
  }

  /** JavaScript's `Math.round`: the nearest integer, halves rounded up. */
  function Round(x: real): (r: int)
    ensures r as real - 0.5 <= x < r as real + 0.5
  {
    (x + 0.5).Floor
  }

  /** Number of leading characters of `s` that satisfy `p`. */
  function PrefixLen(s: string, p: char -> bool): (n: nat)
    ensures n <= |s|
    ensures forall i :: 0 <= i < n ==> p(s[i])
    ensures n < |s| ==> !p(s[n])
  {
    if s == [] || !p(s[0]) then 0 else 1 + PrefixLen(s[1..], p)
  }

  /** `PrefixLen` is `n` when the first `n` characters pass and the next one, if any, fails. */
  lemma {:induction false} PrefixLenAt(s: string, p: char -> bool, n: nat)
    requires n <= |s| && (forall i :: 0 <= i < n ==> p(s[i])) && (n < |s| ==> !p(s[n]))
    ensures PrefixLen(s, p) == n
  {
    if n > 0 {
      PrefixLenAt(s[1..], p, n - 1);
    }
  }

  /** When the first `n` characters pass, the prefix is at least `n` long. */
  lemma {:induction false} PrefixLenAtLeast(s: string, p: char -> bool, n: nat)
    requires n <= |s| && forall i :: 0 <= i < n ==> p(s[i])
    ensures PrefixLen(s, p) >= n
  {
    if n > 0 {
      PrefixLenAtLeast(s[1..], p, n - 1);
    }
  }

  /** The end of the run of characters passing `p` that starts at index `i`. */
  function RunEnd(s: string, i: nat, p: char -> bool): (e: nat)
    requires i <= |s|
    ensures i <= e <= |s|
    ensures forall j :: i <= j < e ==> p(s[j])
    ensures e < |s| ==> !p(s[e])
    decreases |s| - i
  {
    if i == |s| || !p(s[i]) then i else RunEnd(s, i + 1, p)
  }

  /** `RunEnd` is `e` when the characters in `[i, e)` pass and the one at `e`, if any, fails. */
  lemma {:induction false} RunEndAt(s: string, i: nat, p: char -> bool, e: nat)
    requires i <= e <= |s| && (forall j :: i <= j < e ==> p(s[j])) && (e < |s| ==> !p(s[e]))
    ensures RunEnd(s, i, p) == e
    decreases e - i
  {
    if i < e {
      RunEndAt(s, i + 1, p, e);
    }
  }

  predicate IsHexDigit(c: char) {
    IsDigit(c) || ('a' <= c <= 'f') || ('A' <= c <= 'F')
  }

  function HexDigitValue(c: char): nat
    requires IsHexDigit(c)
  {
    if IsDigit(c) then DigitValue(c)
    else if 'a' <= c <= 'f' then c as int - 'a' as int + 10
    else c as int - 'A' as int + 10
  }

  function HexValue(s: string): nat
    requires forall i :: 0 <= i < |s| ==> IsHexDigit(s[i])
  {
    if s == [] then 0 else HexValue(s[..|s| - 1]) * 16 + HexDigitValue(s[|s| - 1])
  }

  /** The value of the longest run of hexadecimal digits at the start of `s`, if any. */
  function HexPrefixValue(s: string): Option<nat> {
    var n := PrefixLen(s, IsHexDigit);
    if n == 0 then None
    else
      assert forall i :: 0 <= i < n ==> IsHexDigit(s[..n][i]);
      Some(HexValue(s[..n]))
  }

  /** The value of the longest run of decimal digits at the start of `s`, if any. */
  function DigitPrefixValue(s: string): (r: Option<nat>)
    ensures r == None <==> (s == [] || !IsDigit(s[0]))
  {
    var n := PrefixLen(s, IsDigit);
    if n == 0 then None
    else
      assert AllDigits(s[..n]) by {
        forall i | 0 <= i < n ensures IsDigit(s[..n][i]) { assert s[..n][i] == s[i]; }
      }
      Some(DigitsValue(s[..n]))
  }

  /** The unsigned part of `parseInt`: a `0x`/`0X` prefix selects hexadecimal. */
  function ParseMagnitude(body: string): Option<nat> {
    if |body| >= 2 && body[0] == '0' && (body[1] == 'x' || body[1] == 'X') then
      HexPrefixValue(body[2..])
    else
      DigitPrefixValue(body)
  }

  /**
   * `parseInt(s)` with no radix: leading whitespace is skipped, an optional sign is read,
   * a `0x`/`0X` prefix selects hexadecimal, and the longest run of digits is converted.
   * `None` stands for `NaN` (no digit at all).
   */
  function ParseInt(s: string): Option<int> {
    var t := TrimStart(s);
    if |t| > 0 && t[0] == '-' then Signed(true, ParseMagnitude(t[1..]))
    else if |t| > 0 && t[0] == '+' then Signed(false, ParseMagnitude(t[1..]))
    else Signed(false, ParseMagnitude(t))
  }

  function Signed(negative: bool, magnitude: Option<nat>): Option<int> {
    match magnitude
    case None => None
    case Some(m) => Some(if negative then -(m as int) else m as int)
  }

  /** Text that starts with two digits (or is one digit) is read by `parseInt` as its leading run of digits. */
  lemma ParseIntOfDigitStart(s: string)
    requires |s| > 0 && IsDigit(s[0])
    requires |s| == 1 || IsDigit(s[1])
    ensures ParseInt(s) == DigitPrefixValue(s)
  {
    assert !IsSpace(s[0]);
    assert TrimStart(s) == s;
    assert s[0] != '-' && s[0] != '+';
    assert !(s[0] == '0' && |s| >= 2 && (s[1] == 'x' || s[1] == 'X'));
    assert ParseMagnitude(s) == DigitPrefixValue(s);
    assert ParseInt(s) == Signed(false, ParseMagnitude(s));
  }

  /** `parseInt` reads back every printed natural number. */
  lemma ParseIntOfNumeral(n: nat)
    ensures ParseInt(NatToString(n)) == Some(n)
  {
    var s := NatToString(n);
    assert |s| == 1 || IsDigit(s[1]);
    ParseIntOfDigitStart(s);
    DigitPrefixOfDigits(s);
    NatToStringRoundTrip(n);
  }

  /** A text made only of digits is read whole. */
  lemma DigitPrefixOfDigits(s: string)
    requires |s| > 0 && AllDigits(s)
    ensures DigitPrefixValue(s) == Some(DigitsValue(s))
  {
    PrefixLenAt(s, IsDigit, |s|);
    assert s[..|s|] == s;
  }

  /** `parseInt` yields NaN for text with no digit at all. */
  lemma ParseIntNoDigits(s: string)
    requires forall i :: 0 <= i < |s| ==> !IsDigit(s[i])
    ensures ParseInt(s) == None
  {
    var t := TrimStart(s);
    assert forall i :: 0 <= i < |t| ==> !IsDigit(t[i]) by {
      forall i | 0 <= i < |t| ensures !IsDigit(t[i]) {
        assert t[i] == s[|s| - |t| + i];
      }
    }
    if |t| > 1 {
      assert !IsDigit(t[1..][0]);
    }
    if |t| > 0 {
      assert !IsDigit(t[0]);
    }
  }

  /** `s.padStart(2, '0')`. */
  function PadStart2(s: string): (r: string)
    ensures |r| == if |s| >= 2 then |s| else 2
    ensures EndsWith(r, s)
    ensures AllDigits(s) ==> AllDigits(r)
  {
    if |s| >= 2 then s
    else
      var zeros := seq(2 - |s|, _ => '0');
      assert forall i :: 0 <= i < |zeros| ==> IsDigit(zeros[i]);
      zeros + s
  }
}
