/**
 * The server-side MDX processing of a chapter: heading ids, the table of contents, and
 * the split of a chapter into `##` sections, with `正文` ("main text") expanded into
 * one section per `###` heading.
 *
 * The regular expressions are modelled by what they match: `^` and `$` under the `m`
 * flag are line starts and line ends (line terminators \n, \r, U+2028, U+2029), `.`
 * is any character but a line terminator, and `\s` is `Text.IsSpace`.
 */
module MdxProcessor {
  import opened Wrappers
  import opened Text

  datatype Section = Section(title: string, content: string, component: string)

  datatype TocItem = TocItem(level: nat, text: string, id: string)

  // ----- generateId -----

  predicate IsIdChar(c: char) { IsAsciiLower(c) || IsDigit(c) }
  predicate IsIdOrSpace(c: char) { IsIdChar(c) || IsSpace(c) }
  predicate NotDash(c: char) { c != '-' }

  /** Dropping the dashes that replaced whitespace runs gives the text without its whitespace. */
  lemma {:induction false} DashRunsLetters(s: string)
    requires '-' !in s
    ensures Filter(DashRuns(s), NotDash) == Filter(s, NotSpace)
    decreases |s|
  {
    if s != [] {
      if IsSpace(s[0]) {
        var rest := TrimStart(s);
        var lead := s[..|s| - |rest|];
        assert s == lead + rest;
        assert '-' !in rest by {
          forall i | 0 <= i < |rest| ensures rest[i] != '-' { assert rest[i] == s[|s| - |rest| + i]; }
        }
        DashRunsLetters(rest);
        FilterAppend(lead, rest, NotSpace);
        FilterNone(lead, NotSpace);
        FilterAppend("-", DashRuns(rest), NotDash);
        assert "-" + DashRuns(rest) == DashRuns(s);
      } else {
        assert '-' !in s[1..];
        DashRunsLetters(s[1..]);
        FilterAppend([s[0]], DashRuns(s[1..]), NotDash);
        FilterAppend([s[0]], s[1..], NotSpace);
        assert s == [s[0]] + s[1..];
      }
    }
  }

  lemma {:induction false} KeptWithoutSpaces(s: string)
    ensures Filter(Filter(s, IsIdOrSpace), NotSpace) == Filter(s, IsIdChar)
  {
    if s != [] {
      KeptWithoutSpaces(s[1..]);
      var head := if IsIdOrSpace(s[0]) then [s[0]] else [];
      FilterAppend(head, Filter(s[1..], IsIdOrSpace), NotSpace);
    }
  }

  /**
   * `generateId`: the text lower-cased, stripped of everything but a-z, 0-9 and
   * whitespace, with each whitespace run turned into `-`.
   */
  function GenerateId(text: string): (r: string)
    ensures forall i :: 0 <= i < |r| ==> IsIdChar(r[i]) || r[i] == '-'
  {
    var d := DashRuns(Filter(Lower(text), IsIdOrSpace));
    TrimNoEdges(d);
    Trim(d)
  }

  /** Removing the dashes from an id leaves exactly the lower-cased text's letters and digits. */
  lemma GenerateIdLetters(text: string)
    ensures Filter(GenerateId(text), NotDash) == Filter(Lower(text), IsIdChar)
  {
    var kept := Filter(Lower(text), IsIdOrSpace);
    var dashed := DashRuns(kept);
    assert '-' !in kept;
    TrimNoEdges(dashed);
    DashRunsLetters(kept);
    KeptWithoutSpaces(Lower(text));
  }

  /** A title written only in CJK ideographs has an empty id. */
  lemma GenerateIdOfHan(text: string)
    requires forall i :: 0 <= i < |text| ==> '一' <= text[i] <= '鿿'
    ensures GenerateId(text) == ""
  {
    LowerOfFixed(text);
    FilterNone(text, IsIdOrSpace);
  }

  // ----- Lines -----

  /** `^` under the `m` flag. */
  predicate LineStart(s: string, p: nat) {
    p == 0 || (p <= |s| && IsLineTerminator(s[p - 1]))
  }

  /** The end of the line through `p`: the next line terminator, or the end of the text. */
  function LineEnd(s: string, p: nat): (e: nat)
    requires p <= |s|
    ensures p <= e <= |s|
    ensures e < |s| ==> IsLineTerminator(s[e])
    ensures forall i :: p <= i < e ==> !IsLineTerminator(s[i])
    decreases |s| - p
  {
    if p == |s| || IsLineTerminator(s[p]) then p else LineEnd(s, p + 1)
  }

  lemma {:induction false} LineEndAt(s: string, p: nat, e: nat)
    requires p <= e <= |s|
    requires e < |s| ==> IsLineTerminator(s[e])
    requires forall i :: p <= i < e ==> !IsLineTerminator(s[i])
    ensures LineEnd(s, p) == e
    decreases e - p
  {
    if p < e {
      LineEndAt(s, p + 1, e);
    }
  }

  predicate NoTerminator(s: string) { forall i :: 0 <= i < |s| ==> !IsLineTerminator(s[i]) }

  // ----- /(^P(.+)$)/gm for a fixed prefix P -----

  /** The pattern tried at `p`: the end of the matched line, or None. */
  function LineMatchAt(s: string, prefix: string, p: nat): (r: Option<nat>)
    ensures r.Some? ==> LineStart(s, p) && OccursAt(s, prefix, p) && p + |prefix| < r.value <= |s|
    ensures r.Some? ==> r.value == LineEnd(s, p + |prefix|)
  {
    if LineStart(s, p) && OccursAt(s, prefix, p) && p + |prefix| < |s| && !IsLineTerminator(s[p + |prefix|])
    then Some(LineEnd(s, p + |prefix|))
    else None
  }

  /** The leftmost match at or after `from`. */
  function FindLineMatch(s: string, prefix: string, from: nat): (r: Option<(nat, nat)>)
    ensures r.Some? ==> from <= r.value.0 && LineMatchAt(s, prefix, r.value.0) == Some(r.value.1)
    ensures r.Some? ==> forall q :: from <= q < r.value.0 ==> LineMatchAt(s, prefix, q).None?
    ensures r.None? ==> forall q :: from <= q ==> LineMatchAt(s, prefix, q).None?
    decreases |s| + 1 - from
  {
    if from > |s| then None
    else match LineMatchAt(s, prefix, from)
      case Some(e) => Some((from, e))
      case None => FindLineMatch(s, prefix, from + 1)
  }

  /** A matched line: where it starts and where its text ends. */
  datatype LineMatch = LineMatch(start: nat, stop: nat)

  /** Matches of a line pattern never overlap: after one ends, the next line starts. */
  predicate Ordered(s: string, prefix: string, ms: seq<LineMatch>) {
    && (forall i :: 0 <= i < |ms| ==> LineMatchAt(s, prefix, ms[i].start) == Some(ms[i].stop))
    && (forall i :: 0 <= i < |ms| - 1 ==> ms[i].stop < ms[i + 1].start)
  }

  /** Nothing inside a matched line is a line start. */
  lemma InsideMatch(s: string, prefix: string, p: nat, q: nat)
    requires NoTerminator(prefix)
    requires LineMatchAt(s, prefix, p).Some? && p < q <= LineMatchAt(s, prefix, p).value
    ensures !LineStart(s, q)
  {
    var e := LineMatchAt(s, prefix, p).value;
    if q - 1 < p + |prefix| {
      assert s[q - 1] == prefix[q - 1 - p];
    }
  }

  lemma NoMatchInside(s: string, prefix: string, p: nat)
    requires NoTerminator(prefix)
    requires LineMatchAt(s, prefix, p).Some?
    ensures forall q :: p < q <= LineMatchAt(s, prefix, p).value ==> LineMatchAt(s, prefix, q).None?
  {
    forall q | p < q <= LineMatchAt(s, prefix, p).value
      ensures LineMatchAt(s, prefix, q).None?
    {
      InsideMatch(s, prefix, p, q);
    }
  }

  /** The `exec` loop: every match from `from` on, in order. */
  function LineMatches(s: string, prefix: string, from: nat): (ms: seq<LineMatch>)
    requires NoTerminator(prefix)
    ensures Ordered(s, prefix, ms)
    ensures forall i :: 0 <= i < |ms| ==> from <= ms[i].start
    decreases |s| + 1 - from
  {
    match FindLineMatch(s, prefix, from)
    case None => []
    case Some((p, e)) =>
      var rest := LineMatches(s, prefix, e);
      ConsLine(s, prefix, from, LineMatch(p, e), rest);
      [LineMatch(p, e)] + rest
  }

  lemma ConsLine(s: string, prefix: string, from: nat, m: LineMatch, rest: seq<LineMatch>)
    requires NoTerminator(prefix)
    requires from <= m.start && LineMatchAt(s, prefix, m.start) == Some(m.stop)
    requires Ordered(s, prefix, rest) && forall i :: 0 <= i < |rest| ==> m.stop <= rest[i].start
    ensures Ordered(s, prefix, [m] + rest)
    ensures forall i :: 0 <= i < |[m] + rest| ==> from <= ([m] + rest)[i].start
  {
    var ms := [m] + rest;
    assert forall i :: 0 < i < |ms| ==> ms[i] == rest[i - 1];
    if rest != [] {
      NoMatchInside(s, prefix, m.start);
      assert LineMatchAt(s, prefix, rest[0].start).Some?;
    }
  }

  /** Every line that fits the pattern is matched: the `exec` loop skips none. */
  lemma {:induction false} LineMatchesComplete(s: string, prefix: string, from: nat, q: nat)
    requires NoTerminator(prefix)
    requires from <= q && LineMatchAt(s, prefix, q).Some?
    ensures exists i :: 0 <= i < |LineMatches(s, prefix, from)| && LineMatches(s, prefix, from)[i].start == q
    decreases |s| + 1 - from
  {
    var ms := LineMatches(s, prefix, from);
    var f := FindLineMatch(s, prefix, from);
    var (p, e) := f.value;
    assert ms[0].start == p;
    if p < q {
      if q <= e {
        InsideMatch(s, prefix, p, q);
      }
      LineMatchesComplete(s, prefix, e, q);
      var rest := LineMatches(s, prefix, e);
      var i :| 0 <= i < |rest| && rest[i].start == q;
      assert ms[i + 1] == rest[i];
    }
  }

  /** The trimmed text after the prefix on a matched line. */
  function MatchTitle(s: string, prefix: string, m: LineMatch): string
    requires m.start + |prefix| <= m.stop <= |s|
  {
    Trim(s[m.start + |prefix|..m.stop])
  }

  // ----- extractTocFromMDX: /^(#{1,6})\s+(.+)$/gm -----

  predicate IsHash(c: char) { c == '#' }

  /** The last index in `[lo, hi)` whose character is not a line terminator. */
  function LastNonTerminator(s: string, lo: nat, hi: nat): (r: Option<nat>)
    requires lo <= hi <= |s|
    ensures r.Some? ==> lo <= r.value < hi && !IsLineTerminator(s[r.value])
    ensures r.None? ==> forall i :: lo <= i < hi ==> IsLineTerminator(s[i])
    decreases hi - lo
  {
    if lo == hi then None
    else if !IsLineTerminator(s[hi - 1]) then Some(hi - 1)
    else LastNonTerminator(s, lo, hi - 1)
  }

  /** A heading match: its line start, level, and the span of the captured text. */
  datatype HeadingMatch = HeadingMatch(start: nat, level: nat, textStart: nat, textEnd: nat)

  /** Every character in `[lo, hi)` is whitespace. */
  predicate Spaces(s: string, lo: nat, hi: nat)
    requires lo <= hi <= |s|
  {
    forall i :: lo <= i < hi ==> IsSpace(s[i])
  }

  /**
   * The heading pattern tried at `p`. The level is the run of `#`, which must be 1 to 6
   * long and followed by whitespace. `\s+` is greedy and may cross line ends; only when
   * it reaches the end of the text does it give characters back, to the last one `.+`
   * can take.
   */
  function HeadingAt(s: string, p: nat): (r: Option<HeadingMatch>)
    ensures r.Some? ==> var m := r.value;
      && m.start == p && LineStart(s, p) && p <= |s|
      && 1 <= m.level <= 6 && m.level == RunEnd(s, p, IsHash) - p
      && p + m.level < m.textStart < m.textEnd <= |s|
      && m.textEnd == LineEnd(s, m.textStart)
      && Spaces(s, p + m.level, m.textStart)
  {
    if p > |s| || !LineStart(s, p) then None
    else
      var h := RunEnd(s, p, IsHash) - p;
      if h == 0 || h > 6 || p + h == |s| || !IsSpace(s[p + h]) then None
      else
        var q := RunEnd(s, p + h, IsSpace);
        if q < |s| then Some(HeadingMatch(p, h, q, LineEnd(s, q)))
        else
          match LastNonTerminator(s, p + h + 1, q)
          case Some(t) => Some(HeadingMatch(p, h, t, LineEnd(s, t)))
          case None => None
  }

  /** The leftmost heading match at or after `from`. */
  function FindHeading(s: string, from: nat): (r: Option<HeadingMatch>)
    ensures r.Some? ==> from <= r.value.start && HeadingAt(s, r.value.start) == r
    decreases |s| + 1 - from
  {
    if from > |s| then None
    else match HeadingAt(s, from)
      case Some(m) => Some(m)
      case None => FindHeading(s, from + 1)
  }

  /** The match found is the leftmost one, and none is found only when there is none. */
  lemma {:induction false} FindHeadingLeftmost(s: string, from: nat)
    ensures FindHeading(s, from).Some? ==>
      forall q :: from <= q < FindHeading(s, from).value.start ==> HeadingAt(s, q).None?
    ensures FindHeading(s, from).None? ==> forall q :: from <= q ==> HeadingAt(s, q).None?
    decreases |s| + 1 - from
  {
    var r := FindHeading(s, from);
    if from > |s| {
      forall q | from <= q ensures HeadingAt(s, q).None? {
        NoHeadingPastEnd(s, q);
      }
    } else if HeadingAt(s, from).None? {
      FindHeadingLeftmost(s, from + 1);
      assert r == FindHeading(s, from + 1);
      var end := if r.Some? then r.value.start else |s| + 1;
      forall q | from <= q < end ensures HeadingAt(s, q).None? {
        if q > from {
          assert from + 1 <= q;
        }
      }
      if r.None? {
        forall q | end <= q ensures HeadingAt(s, q).None? {
          NoHeadingPastEnd(s, q);
        }
      }
    } else {
      assert r.value.start == from;
    }
  }

  lemma NoHeadingPastEnd(s: string, p: nat)
    requires p > |s|
    ensures HeadingAt(s, p).None?
  {
  }

  /** Heading matches as the `exec` loop finds them: each at or after the previous text's end. */
  predicate HeadingsOrdered(s: string, from: nat, ms: seq<HeadingMatch>) {
    AreHeadings(s, ms) && StartFrom(from, ms) && Chained(ms)
  }

  predicate AreHeadings(s: string, ms: seq<HeadingMatch>) {
    forall i :: 0 <= i < |ms| ==> HeadingAt(s, ms[i].start) == Some(ms[i])
  }

  predicate StartFrom(from: nat, ms: seq<HeadingMatch>) {
    forall i :: 0 <= i < |ms| ==> from <= ms[i].start
  }

  predicate Chained(ms: seq<HeadingMatch>) {
    forall i :: 0 <= i < |ms| - 1 ==> ms[i].textEnd <= ms[i + 1].start
  }

  /** The `exec` loop of the heading pattern from `from`: the matches in order. */
  function HeadingMatches(s: string, from: nat): (ms: seq<HeadingMatch>)
    ensures HeadingsOrdered(s, from, ms)
    decreases |s| + 1 - from
  {
    match FindHeading(s, from)
    case None => []
    case Some(m) =>
      var rest := HeadingMatches(s, m.textEnd);
      ConsHeadings(s, m, rest);
      ConsOrdered(from, m, rest);
      [m] + rest
  }

  lemma ConsHeadings(s: string, m: HeadingMatch, rest: seq<HeadingMatch>)
    requires HeadingAt(s, m.start) == Some(m) && AreHeadings(s, rest)
    ensures AreHeadings(s, [m] + rest)
  {
    var ms := [m] + rest;
    forall i | 0 < i < |ms| ensures HeadingAt(s, ms[i].start) == Some(ms[i]) {
      assert ms[i] == rest[i - 1];
    }
  }

  lemma ConsOrdered(from: nat, m: HeadingMatch, rest: seq<HeadingMatch>)
    requires from <= m.start && StartFrom(m.textEnd, rest) && Chained(rest) && m.start <= m.textEnd
    ensures StartFrom(from, [m] + rest) && Chained([m] + rest)
  {
    var ms := [m] + rest;
    assert forall i :: 0 < i < |ms| ==> ms[i] == rest[i - 1];
  }

  /**
   * `extractTocFromMDX`: one entry per heading match, in source order; the level is the
   * number of `#` at the start of the matched line, the text has no surrounding
   * whitespace and the id is `generateId` of the text.
   */
  function ExtractToc(source: string): (toc: seq<TocItem>)
    ensures |toc| == |HeadingMatches(source, 0)|
    ensures forall i :: 0 <= i < |toc| ==> var m := HeadingMatches(source, 0)[i];
      && toc[i].level == RunEnd(source, m.start, IsHash) - m.start && 1 <= toc[i].level <= 6
      && toc[i].text == Trim(source[m.textStart..m.textEnd])
      && toc[i].id == GenerateId(toc[i].text)
  {
    var ms := HeadingMatches(source, 0);
    seq(|ms|, i requires 0 <= i < |ms| =>
      var t := Trim(source[ms[i].textStart..ms[i].textEnd]);
      TocItem(ms[i].level, t, GenerateId(t)))
  }

  /**
   * A heading line written as intended, 1 to 6 `#`, whitespace on the same line and then
   * text starting with a visible character, is matched with that level and the rest of
   * the line as its text.
   */
  lemma HeadingLineMatches(s: string, p: nat, h: nat, t: nat)
    requires LineStart(s, p) && 1 <= h <= 6 && p + h < t < |s|
    requires forall i :: p <= i < p + h ==> s[i] == '#'
    requires forall i :: p + h <= i < t ==> IsSpace(s[i]) && !IsLineTerminator(s[i])
    requires !IsSpace(s[t])
    ensures HeadingAt(s, p) == Some(HeadingMatch(p, h, t, LineEnd(s, t)))
  {
    RunEndAt(s, p, IsHash, p + h);
    RunEndAt(s, p + h, IsSpace, t);
  }

  /** A heading with no text on its line takes the next line as its text. */
  lemma EmptyHeadingTakesNextLine()
    ensures HeadingAt("#\nfoo", 0) == Some(HeadingMatch(0, 1, 2, 5))
  {
    var s := "#\nfoo";
    HeadingLineMatchesAcross(s);
  }

  lemma HeadingLineMatchesAcross(s: string)
    requires s == "#\nfoo"
    ensures HeadingAt(s, 0) == Some(HeadingMatch(0, 1, 2, 5))
  {
    RunEndAt(s, 0, IsHash, 1);
    RunEndAt(s, 1, IsSpace, 2);
    LineEndAt(s, 2, 5);
  }

  // ----- Section bodies -----

  /** Where the next match of the line pattern starts at or after `from`, or the end of the text. */
  function NextStart(s: string, prefix: string, from: nat): (r: nat)
    requires from <= |s|
    ensures from <= r <= |s|
  {
    match FindLineMatch(s, prefix, from)
    case Some((p, _)) => p
    case None => |s|
  }

  /**
   * The trimmed text from the end of match `i`'s line up to the start of match `i + 1`,
   * or to the end of the text for the last match.
   */
  function Body(s: string, prefix: string, ms: seq<LineMatch>, i: nat): string
    requires Ordered(s, prefix, ms) && i < |ms|
  {
    var end := if i + 1 < |ms| then ms[i + 1].start else |s|;
    Trim(s[ms[i].stop..end])
  }

  /** The next match in the list is the next match in the text. */
  lemma {:induction false} LineMatchesNext(s: string, prefix: string, from: nat, i: nat)
    requires NoTerminator(prefix) && i < |LineMatches(s, prefix, from)|
    ensures var ms := LineMatches(s, prefix, from);
      NextStart(s, prefix, ms[i].stop) == if i + 1 < |ms| then ms[i + 1].start else |s|
    decreases |s| + 1 - from
  {
    var (p, e) := FindLineMatch(s, prefix, from).value;
    var rest := LineMatches(s, prefix, e);
    if i > 0 {
      LineMatchesNext(s, prefix, e, i - 1);
    }
  }

  /**
   * The match of a pattern line at `q` is in the `exec` list, with its title the rest of
   * the line and its body the trimmed text up to the next match or the end.
   */
  lemma MatchIndex(s: string, prefix: string, q: nat) returns (i: nat)
    requires NoTerminator(prefix) && LineMatchAt(s, prefix, q).Some?
    ensures i < |LineMatches(s, prefix, 0)|
    ensures LineMatches(s, prefix, 0)[i] == LineMatch(q, LineMatchAt(s, prefix, q).value)
    ensures Body(s, prefix, LineMatches(s, prefix, 0), i)
         == Trim(s[LineMatchAt(s, prefix, q).value..NextStart(s, prefix, LineMatchAt(s, prefix, q).value)])
  {
    LineMatchesComplete(s, prefix, 0, q);
    var ms := LineMatches(s, prefix, 0);
    i :| 0 <= i < |ms| && ms[i].start == q;
    LineMatchesNext(s, prefix, 0, i);
  }

  // ----- processMainContent -----

  predicate IsAlnumOrSpace(c: char) { IsAsciiAlnum(c) || IsSpace(c) }

  /**
   * `s.split(/\s+/)`: the pieces between whitespace runs. A leading or trailing run gives
   * an empty piece at that end, and the empty string gives one empty piece.
   */
  function SplitWs(s: string): (ws: seq<string>)
    ensures |ws| >= 1
    decreases |s|
  {
    var i := RunEnd(s, 0, NotSpace);
    if i == |s| then [s]
    else
      var j := RunEnd(s, i, IsSpace);
      [s[..i]] + SplitWs(s[j..])
  }

  /** `word.charAt(0).toUpperCase() + word.slice(1)`. */
  function Capitalize(w: string): string {
    if w == [] then [] else [UpperChar(w[0])] + w[1..]
  }

  /** `.map(capitalize).join('')`. */
  function JoinCapitalized(ws: seq<string>): string {
    if ws == [] then [] else Capitalize(ws[0]) + JoinCapitalized(ws[1..])
  }

  /**
   * Camel case in one pass: whitespace is dropped, and the character after a whitespace
   * run (or the first one, when `cap` holds) is upper-cased.
   */
  function CamelFrom(s: string, cap: bool): string {
    if s == [] then []
    else if IsSpace(s[0]) then CamelFrom(s[1..], true)
    else [if cap then UpperChar(s[0]) else s[0]] + CamelFrom(s[1..], false)
  }

  lemma {:induction false} CamelWord(w: string, rest: string, cap: bool)
    requires forall i :: 0 <= i < |w| ==> !IsSpace(w[i])
    ensures CamelFrom(w + rest, cap)
      == if w == [] then CamelFrom(rest, cap)
         else (if cap then Capitalize(w) else w) + CamelFrom(rest, false)
  {
    if w == [] {
      assert w + rest == rest;
    } else {
      var t := CamelFrom(rest, false);
      CamelHead(w + rest, cap);
      assert (w + rest)[0] == w[0] && (w + rest)[1..] == w[1..] + rest;
      CamelWord(w[1..], rest, false);
      assert CamelFrom(w[1..] + rest, false) == w[1..] + t;
      WordHead(w, cap, t);
    }
  }

  lemma CamelHead(s: string, cap: bool)
    requires s != [] && !IsSpace(s[0])
    ensures CamelFrom(s, cap) == [if cap then UpperChar(s[0]) else s[0]] + CamelFrom(s[1..], false)
  {
  }

  lemma WordHead(w: string, cap: bool, t: string)
    requires w != []
    ensures [if cap then UpperChar(w[0]) else w[0]] + (w[1..] + t) == (if cap then Capitalize(w) else w) + t
  {
    assert w == [w[0]] + w[1..];
  }

  lemma {:induction false} CamelSpaces(sp: string, rest: string, cap: bool)
    requires sp != [] && forall i :: 0 <= i < |sp| ==> IsSpace(sp[i])
    ensures CamelFrom(sp + rest, cap) == CamelFrom(rest, true)
  {
    assert (sp + rest)[1..] == sp[1..] + rest;
    if |sp| > 1 {
      CamelSpaces(sp[1..], rest, true);
    } else {
      assert sp[1..] + rest == rest;
    }
  }

  /** Splitting on whitespace runs and joining the capitalised pieces is the one-pass camel case. */
  lemma {:induction false} JoinCapitalizedSplit(s: string)
    ensures JoinCapitalized(SplitWs(s)) == CamelFrom(s, true)
    decreases |s|
  {
    var i := RunEnd(s, 0, NotSpace);
    if i == |s| {
      assert s + [] == s;
      CamelWord(s, [], true);
    } else {
      var j := RunEnd(s, i, IsSpace);
      assert SplitWs(s) == [s[..i]] + SplitWs(s[j..]);
      JoinCapitalizedSplit(s[j..]);
      WordRunParts(s, i, j);
      CamelWordSpaces(s[..i], s[i..j], s[j..]);
    }
  }

  /** A word, the whitespace run after it and the rest of `s`. */
  lemma WordRunParts(s: string, i: nat, j: nat)
    requires i < j <= |s|
    requires forall k :: 0 <= k < i ==> !IsSpace(s[k])
    requires forall k :: i <= k < j ==> IsSpace(s[k])
    ensures forall k :: 0 <= k < |s[..i]| ==> !IsSpace(s[..i][k])
    ensures s[i..j] != [] && forall k :: 0 <= k < |s[i..j]| ==> IsSpace(s[i..j][k])
    ensures s == s[..i] + (s[i..j] + s[j..])
  {
    assert forall k :: 0 <= k < |s[i..j]| ==> s[i..j][k] == s[i + k];
  }

  /** Camel case of a word, a whitespace run and the rest: the capitalised word, then the rest capitalised. */
  lemma CamelWordSpaces(w: string, sp: string, rest: string)
    requires forall k :: 0 <= k < |w| ==> !IsSpace(w[k])
    requires sp != [] && forall k :: 0 <= k < |sp| ==> IsSpace(sp[k])
    ensures CamelFrom(w + (sp + rest), true) == Capitalize(w) + CamelFrom(rest, true)
  {
    if w == [] {
      assert w + (sp + rest) == sp + rest;
      CamelSpaces(sp, rest, true);
    } else {
      CamelWord(w, sp + rest, true);
      CamelSpaces(sp, rest, false);
    }
  }

  lemma {:induction false} UpperCharIdempotent(c: char)
    ensures UpperChar(UpperChar(c)) == UpperChar(c)
  {
  }

  /** Camel case drops the whitespace and changes nothing else but letter case. */
  lemma {:induction false} CamelFromLetters(s: string, cap: bool)
    ensures Upper(CamelFrom(s, cap)) == Upper(Filter(s, NotSpace))
  {
    if s != [] {
      if IsSpace(s[0]) {
        CamelFromLetters(s[1..], true);
        assert CamelFrom(s, cap) == CamelFrom(s[1..], true);
        assert !NotSpace(s[0]);
        assert Filter(s, NotSpace) == [] + Filter(s[1..], NotSpace);
        assert [] + Filter(s[1..], NotSpace) == Filter(s[1..], NotSpace);
      } else {
        CamelFromLetters(s[1..], false);
        CamelLetterStep(s, cap);
      }
    }
  }

  /** One visible character: camel case and the filter agree on it up to letter case. */
  lemma CamelLetterStep(s: string, cap: bool)
    requires s != [] && !IsSpace(s[0])
    requires Upper(CamelFrom(s[1..], false)) == Upper(Filter(s[1..], NotSpace))
    ensures Upper(CamelFrom(s, cap)) == Upper(Filter(s, NotSpace))
  {
    var c := if cap then UpperChar(s[0]) else s[0];
    UpperCharIdempotent(s[0]);
    var t := CamelFrom(s[1..], false);
    assert CamelFrom(s, cap) == [c] + t;
    UpperCons(c, t);
    var f := Filter(s[1..], NotSpace);
    assert Filter(s, NotSpace) == [s[0]] + f;
    UpperCons(s[0], f);
  }

  lemma UpperCons(c: char, t: string)
    ensures Upper([c] + t) == [UpperChar(c)] + Upper(t)
  {
    assert ([c] + t)[1..] == t;
  }

  lemma {:induction false} KeptAlnumWithoutSpaces(s: string)
    ensures Filter(Filter(s, IsAlnumOrSpace), NotSpace) == Filter(s, IsAsciiAlnum)
  {
    if s != [] {
      KeptAlnumWithoutSpaces(s[1..]);
      var head := if IsAlnumOrSpace(s[0]) then [s[0]] else [];
      FilterAppend(head, Filter(s[1..], IsAlnumOrSpace), NotSpace);
    }
  }

  /**
   * The component name of a `###` title: the title kept to ASCII letters, digits and
   * whitespace, split on whitespace runs, each piece capitalised and joined; `MainContent`
   * when that leaves nothing.
   */
  function ComponentName(title: string): (name: string)
    ensures name != []
  {
    var camel := JoinCapitalized(SplitWs(Filter(title, IsAlnumOrSpace)));
    if camel == [] then "MainContent" else camel
  }

  /**
   * A title without ASCII letters or digits gets `MainContent`; otherwise the name is
   * those letters and digits in order, differing only in case, with the start of each
   * word upper-cased.
   */
  lemma ComponentNameMeaning(title: string)
    ensures var letters := Filter(title, IsAsciiAlnum);
      && (letters == [] ==> ComponentName(title) == "MainContent")
      && (letters != [] ==> ComponentName(title) == CamelFrom(Filter(title, IsAlnumOrSpace), true)
                            && Upper(ComponentName(title)) == Upper(letters))
  {
    var kept := Filter(title, IsAlnumOrSpace);
    JoinCapitalizedSplit(kept);
    CamelFromLetters(kept, true);
    KeptAlnumWithoutSpaces(title);
  }

  /** Headings in CJK ideographs (as the chapters write them) all get `MainContent`. */
  lemma ComponentNameOfHan(title: string)
    requires forall i :: 0 <= i < |title| ==> '一' <= title[i] <= '鿿'
    ensures ComponentName(title) == "MainContent"
  {
    FilterNone(title, IsAsciiAlnum);
    ComponentNameMeaning(title);
  }

  lemma ThreeHashesNoTerminator()
    ensures NoTerminator("### ")
  {
  }

  /** One `###` subsection: its title, its body up to the next `###` line, its component. */
  function Subsection(content: string, ms: seq<LineMatch>, i: nat): Section
    requires Ordered(content, "### ", ms) && i < |ms|
  {
    var title := MatchTitle(content, "### ", ms[i]);
    Section(title, Body(content, "### ", ms, i), ComponentName(title))
  }

  /** `processMainContent`: one section per `### ` line, in order; none when there is no such line. */
  function ProcessMainContent(content: string): (r: seq<Section>)
    ensures |r| == |LineMatches(content, "### ", 0)|
  {
    ThreeHashesNoTerminator();
    var ms := LineMatches(content, "### ", 0);
    if |ms| == 0 then []
    else seq(|ms|, i requires 0 <= i < |ms| => Subsection(content, ms, i))
  }

  /** The main text splits into subsections exactly when it has a `### ` line. */
  lemma ProcessMainContentEmptyIff(content: string)
    ensures ProcessMainContent(content) == [] <==> forall q :: LineMatchAt(content, "### ", q).None?
  {
    ThreeHashesNoTerminator();
    if q :| LineMatchAt(content, "### ", q).Some? {
      LineMatchesComplete(content, "### ", 0, q);
    }
  }

  /**
   * Every `### ` line of the main text gives a subsection titled with the rest of the
   * line, holding the text up to the next `### ` line, named by `ComponentName`.
   */
  lemma SubsectionPerHeading(content: string, q: nat)
    requires LineMatchAt(content, "### ", q).Some?
    ensures var e := LineMatchAt(content, "### ", q).value;
      var title := MatchTitle(content, "### ", LineMatch(q, e));
      Section(title, Trim(content[e..NextStart(content, "### ", e)]), ComponentName(title))
        in ProcessMainContent(content)
  {
    ThreeHashesNoTerminator();
    var i := MatchIndex(content, "### ", q);
    var ms := LineMatches(content, "### ", 0);
    assert ProcessMainContent(content)[i] == Subsection(content, ms, i);
  }

  // ----- splitMDXContent -----

  const MainText := "正文"

  /** The component of each fixed `##` title; `正文` is expanded instead. */
  const SectionComponents: map<string, string> := map[
    "章节目标" := "ChapterObjectives",
    "本章逻辑位" := "LogicalPosition",
    "核心内容" := "CoreContent",
    "关键词" := "Keywords",
    "先修提示" := "PrerequisitePrompt",
    "开篇语" := "OpeningLine",
    "前置认知提示" := "PrerequisitePrompt",
    "起手式" := "OpeningLine",
    "本章小结" := "ChapterSummary",
    "章节逻辑链" := "LogicalChain",
    "章节逻辑链：" := "LogicalChain",
    "欲知后事如何，且听下回分解。" := "NextChapterPreview",
    "欲知后事如何且听下回分解" := "NextChapterPreview",
    "宗门心法" := "SectMentality"
  ]

  /** The `switch` on a `##` title: a listed title's component, otherwise `default`. */
  function TitleComponent(title: string): string {
    if title in SectionComponents then SectionComponents[title] else "default"
  }

  lemma TwoHashesNoTerminator()
    ensures NoTerminator("## ")
  {
  }

  /**
   * The sections one `##` heading contributes: `正文` gives its subsections, or one
   * `MainContent` section when it has none; any other title gives one section.
   */
  function SectionOutput(title: string, content: string): (out: seq<Section>)
    ensures out != []
  {
    if title == MainText then
      var subs := ProcessMainContent(content);
      if subs != [] then subs else [Section(title, content, "MainContent")]
    else [Section(title, content, TitleComponent(title))]
  }

  /**
   * A `##` title other than `正文` gives one section with the body as its content; its
   * component is `default` exactly when the title is not one of the listed ones. `正文`
   * gives its subsections, or one `MainContent` section when the body has no `### ` line.
   */
  lemma SectionComponentOf(title: string, content: string)
    ensures title != MainText ==>
      && |SectionOutput(title, content)| == 1
      && SectionOutput(title, content)[0].title == title
      && SectionOutput(title, content)[0].content == content
      && (SectionOutput(title, content)[0].component == "default" <==> title !in SectionComponents)
    ensures title in SectionComponents ==> SectionOutput(title, content)[0].component == SectionComponents[title]
    ensures title == MainText && (forall q :: LineMatchAt(content, "### ", q).None?) ==>
      SectionOutput(title, content) == [Section(title, content, "MainContent")]
    ensures title == MainText && (exists q :: LineMatchAt(content, "### ", q).Some?) ==>
      SectionOutput(title, content) == ProcessMainContent(content)
  {
    assert MainText !in SectionComponents;
    assert forall t :: t in SectionComponents ==> SectionComponents[t] != "default";
    if title == MainText {
      ProcessMainContentEmptyIff(content);
    }
  }

  function Flatten(xss: seq<seq<Section>>): seq<Section> {
    if xss == [] then [] else xss[0] + Flatten(xss[1..])
  }

  /** The first `# ` line as a title section with no content. */
  function ChapterTitle(s: string): Option<Section> {
    match FindLineMatch(s, "# ", 0)
    case None => None
    case Some((p, e)) => Some(Section(MatchTitle(s, "# ", LineMatch(p, e)), "", "ChapterTitle"))
  }

  /** The sections of each `##` match, in order. */
  function Outputs(s: string, ms: seq<LineMatch>): (xss: seq<seq<Section>>)
    requires Ordered(s, "## ", ms)
    ensures |xss| == |ms|
    ensures forall i :: 0 <= i < |ms| ==>
      xss[i] == SectionOutput(MatchTitle(s, "## ", ms[i]), Body(s, "## ", ms, i))
  {
    seq(|ms|, i requires 0 <= i < |ms| => SectionOutput(MatchTitle(s, "## ", ms[i]), Body(s, "## ", ms, i)))
  }

  /** `splitMDXContent`: the chapter title, then the sections of each `## ` line in order. */
  function SplitMDXContent(s: string): seq<Section> {
    TwoHashesNoTerminator();
    var head := match ChapterTitle(s) case Some(t) => [t] case None => [];
    head + Flatten(Outputs(s, LineMatches(s, "## ", 0)))
  }

  lemma SplitIsHeadAndFlatten(s: string)
    ensures NoTerminator("## ")
    ensures SplitMDXContent(s)
      == (match ChapterTitle(s) case Some(t) => [t] case None => [])
         + Flatten(Outputs(s, LineMatches(s, "## ", 0)))
  {
    TwoHashesNoTerminator();
  }

  /** `ys` occurs in `xs` as the contiguous run starting at `k`. */
  predicate RunAt(xs: seq<Section>, k: int, ys: seq<Section>) {
    0 <= k <= |xs| - |ys| && xs[k..k + |ys|] == ys
  }

  /** Each element of the list appears, as a contiguous run, in the flattened list. */
  lemma {:induction false} FlattenHas(xss: seq<seq<Section>>, i: nat)
    requires i < |xss|
    ensures exists k :: RunAt(Flatten(xss), k, xss[i])
  {
    var f := Flatten(xss);
    if i == 0 {
      assert RunAt(f, 0, xss[0]);
    } else {
      FlattenHas(xss[1..], i - 1);
      var g := Flatten(xss[1..]);
      var k :| RunAt(g, k, xss[1..][i - 1]);
      assert f == xss[0] + g;
      assert f[|xss[0]| + k..|xss[0]| + k + |xss[i]|] == g[k..k + |xss[i]|];
      assert RunAt(f, |xss[0]| + k, xss[i]);
    }
  }

  lemma {:induction false} FlattenSingletons(xss: seq<seq<Section>>)
    requires forall i :: 0 <= i < |xss| ==> |xss[i]| == 1
    ensures |Flatten(xss)| == |xss|
  {
    if xss != [] {
      FlattenSingletons(xss[1..]);
    }
  }

  /** The chapter title comes first when the text has a `# ` line, and exists only then. */
  lemma ChapterTitleFirst(s: string)
    ensures ChapterTitle(s).Some? <==> exists q :: LineMatchAt(s, "# ", q).Some?
    ensures ChapterTitle(s).Some? ==>
      && SplitMDXContent(s) != [] && SplitMDXContent(s)[0] == ChapterTitle(s).value
      && SplitMDXContent(s)[0].content == "" && SplitMDXContent(s)[0].component == "ChapterTitle"
  {
  }

  /**
   * Every `## ` line contributes its sections, as one run of the result: the title is the
   * rest of the line, the body the text up to the next `## ` line.
   */
  lemma SectionPerHeading(s: string, q: nat)
    requires LineMatchAt(s, "## ", q).Some?
    ensures var e := LineMatchAt(s, "## ", q).value;
      var out := SectionOutput(MatchTitle(s, "## ", LineMatch(q, e)), Trim(s[e..NextStart(s, "## ", e)]));
      exists k :: RunAt(SplitMDXContent(s), k, out)
  {
    TwoHashesNoTerminator();
    var i := MatchIndex(s, "## ", q);
    var ms := LineMatches(s, "## ", 0);
    var xss := Outputs(s, ms);
    FlattenHas(xss, i);
    var head := match ChapterTitle(s) case Some(t) => [t] case None => [];
    var f := Flatten(xss);
    var k :| RunAt(f, k, xss[i]);
    SplitIsHeadAndFlatten(s);
    RunAfter(head, f, k, xss[i]);
  }

  lemma RunAfter(head: seq<Section>, f: seq<Section>, k: int, ys: seq<Section>)
    requires RunAt(f, k, ys)
    ensures RunAt(head + f, |head| + k, ys)
  {
    assert (head + f)[|head| + k..|head| + k + |ys|] == f[k..k + |ys|];
  }

  /**
   * When no `##` title is `正文`, there is exactly one section per `## ` line, plus the
   * chapter title when there is one.
   */
  lemma SectionCount(s: string)
    requires NoTerminator("## ")
    requires forall i :: 0 <= i < |LineMatches(s, "## ", 0)| ==>
      MatchTitle(s, "## ", LineMatches(s, "## ", 0)[i]) != MainText
    ensures |SplitMDXContent(s)| == |LineMatches(s, "## ", 0)| + if ChapterTitle(s).Some? then 1 else 0
  {
    var ms := LineMatches(s, "## ", 0);
    FlattenSingletons(Outputs(s, ms));
  }
}
