/**
 * `getChapterNumberFromSlug`: the two-digit chapter number shown for a chapter slug such
 * as "part1/ch2". The slug's runs of decimal digits are collected (the global `[0-9]+`
 * match); the second run is the chapter number, a lone run is used as it is, and a slug
 * with no digits, an empty slug or a missing one gives "00".
 */
module ChapterNumber {
  import opened Wrappers
  import opened Text

  /** The maximal runs of decimal digits in `s`, in order. */
  function DigitRuns(s: string): (runs: seq<string>)
    ensures forall k :: 0 <= k < |runs| ==> |runs[k]| > 0 && AllDigits(runs[k])
    decreases |s|
  {
    if s == [] then []
    else if !IsDigit(s[0]) then DigitRuns(s[1..])
    else
      var n := PrefixLen(s, IsDigit);
      assert AllDigits(s[..n]) by {
        forall i | 0 <= i < n ensures IsDigit(s[..n][i]) { assert s[..n][i] == s[i]; }
      }
      [s[..n]] + DigitRuns(s[n..])
  }

  function Concat(parts: seq<string>): string {
    if parts == [] then "" else parts[0] + Concat(parts[1..])
  }

  /** The runs hold exactly the slug's digits, in order: joined up they are its digits. */
  lemma DigitRunsAreTheDigits(s: string)
    ensures Concat(DigitRuns(s)) == Filter(s, IsDigit)
    ensures DigitRuns(s) == [] <==> forall i :: 0 <= i < |s| ==> !IsDigit(s[i])
  {
    DigitRunsConcat(s);
    var runs := DigitRuns(s);
    if runs != [] {
      assert Concat(runs) == runs[0] + Concat(runs[1..]);
      var c := Filter(s, IsDigit)[0];
      var i :| 0 <= i < |s| && s[i] == c;
      assert IsDigit(s[i]);
    } else {
      forall i | 0 <= i < |s| ensures !IsDigit(s[i]) {
        assert s[i] in s;
      }
    }
  }

  lemma {:induction false} DigitRunsConcat(s: string)
    ensures Concat(DigitRuns(s)) == Filter(s, IsDigit)
    decreases |s|
  {
    if s != [] {
      if !IsDigit(s[0]) {
        DigitRunsConcat(s[1..]);
        assert Filter(s, IsDigit) == Filter(s[1..], IsDigit);
      } else {
        var n := DigitRunsHead(s);
        DigitRunsConcat(s[n..]);
        ConcatCons(s[..n], DigitRuns(s[n..]));
        FilterAppend(s[..n], s[n..], IsDigit);
        FilterAll(s[..n], IsDigit);
      }
    }
  }

  /** A text starting with a digit starts with the run of its leading digits. */
  lemma DigitRunsHead(s: string) returns (n: nat)
    requires s != [] && IsDigit(s[0])
    ensures 0 < n <= |s| && s == s[..n] + s[n..]
    ensures forall i :: 0 <= i < n ==> IsDigit(s[..n][i])
    ensures DigitRuns(s) == [s[..n]] + DigitRuns(s[n..])
  {
    n := PrefixLen(s, IsDigit);
    assert s == s[..n] + s[n..];
  }

  lemma ConcatCons(x: string, rest: seq<string>)
    ensures Concat([x] + rest) == x + Concat(rest)
  {
    assert ([x] + rest)[1..] == rest;
  }

  /** Characters other than digits in front of the text add no run. */
  lemma {:induction false} DigitRunsSkip(p: string, s: string)
    requires forall i :: 0 <= i < |p| ==> !IsDigit(p[i])
    ensures DigitRuns(p + s) == DigitRuns(s)
    decreases |p|
  {
    if p != [] {
      assert (p + s)[0] == p[0];
      assert (p + s)[1..] == p[1..] + s;
      assert !IsDigit((p + s)[0]);
      assert DigitRuns(p + s) == DigitRuns((p + s)[1..]);
      DigitRunsSkip(p[1..], s);
    } else {
      assert p + s == s;
    }
  }

  /** A run of digits ended by a non-digit (or by the end) is the next run. */
  lemma DigitRunsTake(d: string, s: string)
    requires |d| > 0 && AllDigits(d)
    requires s == [] || !IsDigit(s[0])
    ensures DigitRuns(d + s) == [d] + DigitRuns(s)
  {
    var t := d + s;
    assert forall i :: 0 <= i < |d| ==> IsDigit(t[i]);
    PrefixLenAt(t, IsDigit, |d|);
    assert t[..|d|] == d && t[|d|..] == s;
  }

  const Fallback := "00"

  /**
   * `getChapterNumberFromSlug`; `None` stands for a missing (null, undefined or non-string)
   * slug.
   */
  function GetChapterNumber(slug: Option<string>): (r: string)
    ensures |r| >= 2 && AllDigits(r)
    ensures slug.None? || slug == Some("") ==> r == Fallback
  {
    if slug.None? || slug.value == "" then Fallback
    else
      var runs := DigitRuns(slug.value);
      if |runs| == 0 then Fallback
      else
        var run := if |runs| >= 2 then runs[1] else runs[0];
        assert AllDigits(run);
        PadStart2(run)
  }

  /**
   * The result is the second run padded to two digits, the only run padded when there is
   * one, and "00" when the slug has no digit.
   */
  lemma ChapterNumberCases(slug: string)
    requires slug != ""
    ensures var runs := DigitRuns(slug);
      && (|runs| >= 2 ==> GetChapterNumber(Some(slug)) == PadStart2(runs[1]))
      && (|runs| == 1 ==> GetChapterNumber(Some(slug)) == PadStart2(runs[0]))
      && ((forall i :: 0 <= i < |slug| ==> !IsDigit(slug[i])) ==> GetChapterNumber(Some(slug)) == Fallback)
      && (AllDigits(GetChapterNumber(Some(slug))) && EndsWith(GetChapterNumber(Some(slug)), if |runs| >= 2 then runs[1] else if |runs| == 1 then runs[0] else ""))
  {
    DigitRunsAreTheDigits(slug);
  }

  /** For every slug "part<p>/ch<c>" the number is the chapter's, padded to two digits. */
  lemma PartChapterSlug(p: nat, c: nat)
    ensures GetChapterNumber(Some("part" + NatToString(p) + "/ch" + NatToString(c))) == PadStart2(NatToString(c))
    ensures c < 10 ==> GetChapterNumber(Some("part" + NatToString(p) + "/ch" + NatToString(c))) == ['0', DigitChar(c)]
  {
    PartChapterRuns(NatToString(p), NatToString(c));
  }

  /** The runs of "part<a>/ch<b>" for digit strings `a` and `b` are `a` and `b`. */
  lemma PartChapterRuns(a: string, b: string)
    requires |a| > 0 && AllDigits(a) && |b| > 0 && AllDigits(b)
    ensures DigitRuns("part" + a + "/ch" + b) == [a, b]
  {
    assert "part" + a + "/ch" + b == "part" + (a + ("/ch" + (b + "")));
    DigitRunsSkip("part", a + ("/ch" + (b + "")));
    DigitRunsTake(a, "/ch" + (b + ""));
    DigitRunsSkip("/ch", b + "");
    DigitRunsTake(b, "");
  }

  /** A slug with a single number, such as "ch1", gives that number padded. */
  lemma SingleNumberSlug(prefix: string, n: nat)
    requires forall i :: 0 <= i < |prefix| ==> !IsDigit(prefix[i])
    ensures GetChapterNumber(Some(prefix + NatToString(n))) == PadStart2(NatToString(n))
  {
    var b := NatToString(n);
    assert prefix + b == prefix + (b + "");
    DigitRunsSkip(prefix, b + "");
    DigitRunsTake(b, "");
  }
}
