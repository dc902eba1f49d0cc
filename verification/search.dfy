/**
 * The search box's `performSearch`: every chapter is scored by where the lower-cased query
 * occurs (title 2, content 1, some tag 1.5), chapters scoring zero are dropped, each hit
 * carries a snippet of up to 50 characters around the first match in its content, and the
 * hits are sorted by non-increasing score with a stable sort. The query is only trimmed to
 * decide whether it is blank; the search itself uses it untrimmed.
 */
module Search {
  import opened Text
  import opened Numbers
  import Sorting

  datatype Chapter = Chapter(slug: string, title: string, content: string, part: string, chapter: string, tags: seq<string>)

  datatype SearchResult = SearchResult(slug: string, title: string, content: string, score: real, part: string, chapter: string)

  /** The chapters the page searches. */
  const MockChapters: seq<Chapter> := [
    Chapter("part0/ch0", "硅基文明的基石与演进", "半导体技术的发展历程与摩尔定律...", "part0", "ch0", ["半导体", "摩尔定律", "发展历程"]),
    Chapter("part1/ch1", "半导体材料与晶体结构", "半导体材料与晶体结构：原子如何搭建 \"电子舞台\"...", "part1", "ch1", ["半导体材料", "晶体结构", "原子排列"]),
    Chapter("part1/ch2", "量子力学基础与固体能带", "量子力学基础与固体能带理论...", "part1", "ch2", ["量子力学", "能带理论", "固体物理"]),
    Chapter("part1/ch3", "载流子统计与热平衡", "载流子统计与热平衡状态...", "part1", "ch3", ["载流子", "统计物理", "热平衡"]),
    Chapter("part3/ch4", "载流子输运", "载流子输运：漂移与扩散...", "part3", "ch4", ["载流子", "输运现象", "漂移扩散"])
  ]

  /** Some tag contains the (lower-cased) query, ignoring case. */
  predicate TagMatches(tags: seq<string>, lowerQuery: string) {
    exists t :: t in tags && Contains(Lower(t), lowerQuery)
  }

  const TitleWeight: real := 2.0
  const ContentWeight: real := 1.0
  const TagWeight: real := 1.5

  function Score(c: Chapter, lowerQuery: string): real {
    (if Contains(Lower(c.title), lowerQuery) then TitleWeight else 0.0)
    + (if Contains(Lower(c.content), lowerQuery) then ContentWeight else 0.0)
    + (if TagMatches(c.tags, lowerQuery) then TagWeight else 0.0)
  }

  /** A chapter scores exactly when the query occurs in its title, content or a tag. */
  lemma ScorePositiveIff(c: Chapter, lowerQuery: string)
    ensures Score(c, lowerQuery) > 0.0 <==>
      Contains(Lower(c.title), lowerQuery) || Contains(Lower(c.content), lowerQuery) || TagMatches(c.tags, lowerQuery)
    ensures Score(c, lowerQuery) >= 0.0
  {
  }

  /**
   * A title hit scores at least 2 and a chapter without one that is not hit in both its
   * content and its tags at most 1.5, so a title hit always outranks a hit in the content
   * alone or the tags alone.
   */
  lemma ScoreRanks(c: Chapter, d: Chapter, lowerQuery: string)
    requires Contains(Lower(c.title), lowerQuery)
    requires !Contains(Lower(d.title), lowerQuery)
    requires !(Contains(Lower(d.content), lowerQuery) && TagMatches(d.tags, lowerQuery))
    ensures Score(c, lowerQuery) > Score(d, lowerQuery)
    ensures Score(c, lowerQuery) <= 4.5 && Score(d, lowerQuery) <= TagWeight
  {
  }


  /** `String.prototype.slice` on non-negative bounds: clamped to the string, empty when crossed. */
  function Slice(s: string, start: nat, end: nat): (r: string)
    ensures |r| <= |s|
    ensures start <= end <= |s| ==> r == s[start..end]
    ensures start >= end ==> r == ""
  {
    var e := Min(end, |s|);
    if start >= e then "" else s[start..e]
  }

  const SnippetRadius: nat := 50

  /**
   * Up to 50 characters either side of the first match of the query in the lower-cased
   * content (or of its start, without a match), cut from the original content.
   */
  function Snippet(content: string, lowerQuery: string): string {
    var idx := IndexOf(Lower(content), lowerQuery);
    Window(content, if idx == -1 then 0 else idx, |lowerQuery|)
  }

  /** The content from 50 characters before a match to 50 characters after it. */
  function Window(content: string, matchIndex: nat, matchLength: nat): string {
    Slice(content, Max(0, matchIndex - SnippetRadius), Min(|content|, matchIndex + matchLength + SnippetRadius))
  }

  /**
   * On content lower-casing leaves as it is, a matching snippet is a window of the content
   * around the first match: it contains the query and is at most 100 characters longer.
   */
  lemma SnippetWindow(content: string, lowerQuery: string)
    requires forall i :: 0 <= i < |content| ==> LowerFixed(content[i])
    requires Contains(content, lowerQuery)
    ensures var idx := IndexOf(content, lowerQuery);
      Snippet(content, lowerQuery) == content[Max(0, idx - 50)..Min(|content|, idx + |lowerQuery| + 50)]
    ensures Contains(Snippet(content, lowerQuery), lowerQuery)
    ensures |Snippet(content, lowerQuery)| <= |lowerQuery| + 2 * SnippetRadius
  {
    LowerOfFixed(content);
    var idx := IndexOf(content, lowerQuery);
    assert OccursAt(content, lowerQuery, idx);
    assert Snippet(content, lowerQuery) == Window(content, idx, |lowerQuery|);
    WindowAround(content, idx, lowerQuery);
  }

  /** The window around an occurrence is a slice of the content that contains it. */
  lemma WindowAround(content: string, idx: nat, sub: string)
    requires OccursAt(content, sub, idx)
    ensures var start := Max(0, idx - 50);
      var end := Min(|content|, idx + |sub| + 50);
      Window(content, idx, |sub|) == content[start..end]
    ensures Contains(Window(content, idx, |sub|), sub)
    ensures |Window(content, idx, |sub|)| <= |sub| + 2 * SnippetRadius
  {
    var start := Max(0, idx - 50);
    var end := Min(|content|, idx + |sub| + 50);
    var s := Window(content, idx, |sub|);
    assert s == content[start..end];
    SliceOfSlice(content, start, end, idx - start, idx - start + |sub|);
    ContainsWitness(s, sub, idx - start);
  }

  /**
   * Without a match in the content the snippet is the window at its start, which
   * `WindowAtStart` shows to be its first |query| + 50 characters.
   */
  lemma SnippetWithoutMatch(content: string, lowerQuery: string)
    requires !Contains(Lower(content), lowerQuery)
    ensures Snippet(content, lowerQuery) == Window(content, 0, |lowerQuery|)
  {
    SnippetIsWindow(content, lowerQuery, 0);
  }

  /** The snippet is the window at the first match, or at the start without one. */
  lemma SnippetIsWindow(content: string, lowerQuery: string, matchIndex: nat)
    requires matchIndex == if Contains(Lower(content), lowerQuery) then IndexOf(Lower(content), lowerQuery) else 0
    ensures Snippet(content, lowerQuery) == Window(content, matchIndex, |lowerQuery|)
  {
  }

  /** The window at the start of the content is its first `matchLength + 50` characters. */
  lemma WindowAtStart(content: string, matchLength: nat)
    ensures Window(content, 0, matchLength) == content[..Min(|content|, matchLength + 50)]
  {
  }

  function ResultOf(c: Chapter, lowerQuery: string): SearchResult {
    SearchResult(c.slug, c.title, Snippet(c.content, lowerQuery), Score(c, lowerQuery), c.part, c.chapter)
  }

  /** The scoring chapters' results, in chapter order. */
  function Hits(chapters: seq<Chapter>, lowerQuery: string): (r: seq<SearchResult>)
    ensures |r| <= |chapters|
    ensures forall x :: x in r ==> x.score > 0.0
  {
    if chapters == [] then []
    else
      var rest := Hits(chapters[1..], lowerQuery);
      if Score(chapters[0], lowerQuery) > 0.0 then [ResultOf(chapters[0], lowerQuery)] + rest else rest
  }

  /** A hit is exactly the result of a chapter that scores. */
  lemma HitsMeaning(chapters: seq<Chapter>, lowerQuery: string, x: SearchResult)
    ensures x in Hits(chapters, lowerQuery) <==>
      exists i :: 0 <= i < |chapters| && Score(chapters[i], lowerQuery) > 0.0 && x == ResultOf(chapters[i], lowerQuery)
  {
    if x in Hits(chapters, lowerQuery) {
      var i := HitSource(chapters, lowerQuery, x);
    }
    if exists i :: 0 <= i < |chapters| && Score(chapters[i], lowerQuery) > 0.0 && x == ResultOf(chapters[i], lowerQuery) {
      var i :| 0 <= i < |chapters| && Score(chapters[i], lowerQuery) > 0.0 && x == ResultOf(chapters[i], lowerQuery);
      HitOf(chapters, lowerQuery, i);
    }
  }

  /** Every hit comes from a chapter that scores. */
  lemma {:induction false} HitSource(chapters: seq<Chapter>, lowerQuery: string, x: SearchResult) returns (i: nat)
    requires x in Hits(chapters, lowerQuery)
    ensures i < |chapters| && Score(chapters[i], lowerQuery) > 0.0 && x == ResultOf(chapters[i], lowerQuery)
  {
    var rest := Hits(chapters[1..], lowerQuery);
    if Score(chapters[0], lowerQuery) > 0.0 && x == ResultOf(chapters[0], lowerQuery) {
      i := 0;
    } else {
      assert x in rest;
      var k := HitSource(chapters[1..], lowerQuery, x);
      i := k + 1;
      assert chapters[i] == chapters[1..][k];
    }
  }

  /** Every chapter that scores gives a hit. */
  lemma {:induction false} HitOf(chapters: seq<Chapter>, lowerQuery: string, i: nat)
    requires i < |chapters| && Score(chapters[i], lowerQuery) > 0.0
    ensures ResultOf(chapters[i], lowerQuery) in Hits(chapters, lowerQuery)
  {
    var head := if Score(chapters[0], lowerQuery) > 0.0 then [ResultOf(chapters[0], lowerQuery)] else [];
    HitsCons(chapters, lowerQuery);
    if i > 0 {
      HitOf(chapters[1..], lowerQuery, i - 1);
      assert chapters[1..][i - 1] == chapters[i];
      assert ResultOf(chapters[i], lowerQuery) in head + Hits(chapters[1..], lowerQuery);
    } else {
      assert head == [ResultOf(chapters[0], lowerQuery)];
    }
  }

  lemma HitsCons(chapters: seq<Chapter>, lowerQuery: string)
    requires chapters != []
    ensures Hits(chapters, lowerQuery)
      == (if Score(chapters[0], lowerQuery) > 0.0 then [ResultOf(chapters[0], lowerQuery)] else []) + Hits(chapters[1..], lowerQuery)
  {
  }

  /** `b.score - a.score` as an ordering: `a` may come first when it scores at least as much. */
  function ByScore(a: SearchResult, b: SearchResult): bool { a.score >= b.score }

  lemma ByScoreTotal()
    ensures Sorting.TotalPreorder(ByScore)
  {
  }

  /** `performSearch`: nothing for a blank query, otherwise the hits best first. */
  function PerformSearch(chapters: seq<Chapter>, query: string): (r: seq<SearchResult>)
    ensures Trim(query) == "" ==> r == []
    ensures |r| <= |chapters|
    ensures forall x :: x in r ==> x.score > 0.0
  {
    if Trim(query) == "" then []
    else
      var hits := Hits(chapters, Lower(query));
      var r := Sorting.Sort(hits, ByScore);
      assert forall x :: x in r ==> x in multiset(hits);
      r
  }

  /**
   * A non-blank query returns exactly the results of the chapters that score, each once
   * per scoring chapter, ordered by non-increasing score.
   */
  lemma SearchMeaning(chapters: seq<Chapter>, query: string, x: SearchResult)
    requires Trim(query) != ""
    ensures multiset(PerformSearch(chapters, query)) == multiset(Hits(chapters, Lower(query)))
    ensures x in PerformSearch(chapters, query) <==>
      exists i :: 0 <= i < |chapters| && Score(chapters[i], Lower(query)) > 0.0 && x == ResultOf(chapters[i], Lower(query))
    ensures forall i, j :: 0 <= i < j < |PerformSearch(chapters, query)| ==>
      PerformSearch(chapters, query)[i].score >= PerformSearch(chapters, query)[j].score
  {
    var hits := Hits(chapters, Lower(query));
    HitsMeaning(chapters, Lower(query), x);
    assert x in PerformSearch(chapters, query) <==> x in multiset(hits);
    ByScoreTotal();
    Sorting.SortSorted(hits, ByScore);
  }
}
