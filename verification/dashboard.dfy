/**
 * The learning dashboard's helpers: the overall progress percentage, the study-time
 * label, the next chapter to study and the "recently studied" list. A chapter's last
 * access is a timestamp in milliseconds, or absent when the chapter was never opened.
 */
module Dashboard {
  import opened Wrappers
  import opened Text
  import Sorting

  datatype ChapterProgress = ChapterProgress(
    id: string,
    number: string,
    title: string,
    part: string,
    completed: bool,
    timeSpent: nat,
    lastAccessed: Option<int>,
    score: Option<int>)

  // ----- progressPercentage -----

  /**
   * `Math.round(completed / total * 100)`; with no chapters at all the quotient is not a
   * finite number, which is reported as `None`.
   */
  function ProgressPercentage(completed: nat, total: nat): (r: Option<int>)
    ensures r.None? <==> total == 0
  {
    if total == 0 then None else Some(Round(Percent(completed, total)))
  }

  /** The exact share of completed chapters, in percent, before rounding. */
  function Percent(completed: nat, total: nat): real
    requires total > 0
  {
    completed as real / total as real * 100.0
  }

  /**
   * The percentage is the nearest whole percent: between 0 and 100 while no more chapters
   * are completed than exist, 0 for none and 100 for all, and never lower for more
   * completed chapters.
   */
  lemma ProgressPercentageBounds(completed: nat, more: nat, total: nat)
    requires total > 0 && completed <= more
    ensures var p := ProgressPercentage(completed, total).value;
      && (p as real - 0.5 <= completed as real * 100.0 / total as real < p as real + 0.5)
      && (completed <= total ==> 0 <= p <= 100)
      && (completed == 0 ==> p == 0)
      && (completed == total ==> p == 100)
      && p <= ProgressPercentage(more, total).value
  {
    PercentIsQuotient(completed, total);
    PercentRange(completed, total);
    PercentMonotone(completed, more, total);
    RoundMonotone(Percent(completed, total), Percent(more, total));
  }

  lemma PercentIsQuotient(completed: nat, total: nat)
    requires total > 0
    ensures Percent(completed, total) == completed as real * 100.0 / total as real
  {
  }

  lemma PercentRange(completed: nat, total: nat)
    requires total > 0
    ensures 0.0 <= Percent(completed, total)
    ensures completed <= total ==> Percent(completed, total) <= 100.0
    ensures completed == 0 ==> Percent(completed, total) == 0.0
    ensures completed == total ==> Percent(completed, total) == 100.0
  {
    var a, t := completed as real, total as real;
    assert t / t == 1.0;
    DivMonotone(0.0, a, t);
    if completed <= total {
      DivMonotone(a, t, t);
    }
  }

  lemma PercentMonotone(completed: nat, more: nat, total: nat)
    requires total > 0 && completed <= more
    ensures Percent(completed, total) <= Percent(more, total)
  {
    DivMonotone(completed as real, more as real, total as real);
  }

  lemma DivMonotone(a: real, b: real, t: real)
    requires 0.0 <= a <= b && t > 0.0
    ensures a / t <= b / t
  {
  }

  lemma RoundMonotone(x: real, y: real)
    requires x <= y
    ensures Round(x) <= Round(y)
  {
  }

  /** For the dashboard's twenty chapters each completed chapter is five percent. */
  lemma ProgressOfTwenty(completed: nat)
    ensures ProgressPercentage(completed, 20) == Some(5 * completed)
  {
    assert completed as real / 20.0 * 100.0 == (5 * completed) as real;
  }

  // ----- formatTime -----

  const HoursUnit := "小时"
  const MinutesUnit := "分钟"

  /** `formatTime`: whole hours and the remaining minutes, the hours only when there are some. */
  function FormatTime(minutes: nat): (r: string)
    ensures EndsWith(r, MinutesUnit)
  {
    var hours := minutes / 60;
    var mins := minutes % 60;
    if hours > 0 then NatToString(hours) + HoursUnit + NatToString(mins) + MinutesUnit
    else NatToString(mins) + MinutesUnit
  }

  /** A digit string followed by a non-digit is the text's run of leading digits. */
  lemma LeadingDigits(a: string, c: char, b: string)
    requires AllDigits(a) && !IsDigit(c)
    ensures PrefixLen(a + [c] + b, IsDigit) == |a|
  {
    var s := a + [c] + b;
    assert forall i :: 0 <= i < |a| ==> s[i] == a[i];
    PrefixLenAt(s, IsDigit, |a|);
  }

  /** Two digit strings each followed by the same non-digit split the same way. */
  lemma SplitAtMarker(a1: string, b1: string, a2: string, b2: string, c: char)
    requires AllDigits(a1) && AllDigits(a2) && !IsDigit(c)
    requires a1 + [c] + b1 == a2 + [c] + b2
    ensures a1 == a2 && b1 == b2
  {
    var s := a1 + [c] + b1;
    LeadingDigits(a1, c, b1);
    LeadingDigits(a2, c, b2);
    assert a1 == s[..|a1|] == a2;
    assert b1 == s[|a1| + 1..] == b2;
  }

  /** Two digit strings before the minute unit are the same. */
  lemma MinutesSplit(a1: string, a2: string)
    requires AllDigits(a1) && AllDigits(a2)
    requires a1 + MinutesUnit == a2 + MinutesUnit
    ensures a1 == a2
  {
    assert a1 + MinutesUnit == a1 + ['分'] + "钟";
    assert a2 + MinutesUnit == a2 + ['分'] + "钟";
    SplitAtMarker(a1, "钟", a2, "钟", '分');
  }

  /** Two digit strings around the hour unit, before the minute unit, are the same. */
  lemma HoursSplit(a1: string, b1: string, a2: string, b2: string)
    requires AllDigits(a1) && AllDigits(b1) && AllDigits(a2) && AllDigits(b2)
    requires a1 + HoursUnit + b1 + MinutesUnit == a2 + HoursUnit + b2 + MinutesUnit
    ensures a1 == a2 && b1 == b2
  {
    var t1 := "时" + b1 + MinutesUnit;
    var t2 := "时" + b2 + MinutesUnit;
    assert a1 + HoursUnit + b1 + MinutesUnit == a1 + ['小'] + t1;
    assert a2 + HoursUnit + b2 + MinutesUnit == a2 + ['小'] + t2;
    SplitAtMarker(a1, t1, a2, t2, '小');
    assert t1[1..] == b1 + MinutesUnit;
    assert t2[1..] == b2 + MinutesUnit;
    MinutesSplit(b1, b2);
  }

  /** The character after the label's leading digits is '小', the hour unit, exactly from 60 minutes on. */
  lemma HourUnitIff(minutes: nat)
    ensures var r := FormatTime(minutes);
      PrefixLen(r, IsDigit) < |r| && (r[PrefixLen(r, IsDigit)] == '小' <==> minutes >= 60)
  {
    var r := FormatTime(minutes);
    if minutes >= 60 {
      var a := NatToString(minutes / 60);
      assert r == a + ['小'] + ("时" + NatToString(minutes % 60) + MinutesUnit);
      LeadingDigits(a, '小', "时" + NatToString(minutes % 60) + MinutesUnit);
    } else {
      var a := NatToString(minutes % 60);
      assert r == a + ['分'] + "钟";
      LeadingDigits(a, '分', "钟");
    }
  }

  /** Different durations never get the same label: the hours and minutes can be read back from it. */
  lemma FormatTimeInjective(m1: nat, m2: nat)
    requires FormatTime(m1) == FormatTime(m2)
    ensures m1 == m2
  {
    HourUnitIff(m1);
    HourUnitIff(m2);
    if m1 >= 60 {
      HoursSplit(NatToString(m1 / 60), NatToString(m1 % 60), NatToString(m2 / 60), NatToString(m2 % 60));
      NatToStringInjective(m1 / 60, m2 / 60);
    } else {
      MinutesSplit(NatToString(m1 % 60), NatToString(m2 % 60));
    }
    NatToStringInjective(m1 % 60, m2 % 60);
  }

  // ----- getNextChapter -----

  function IsIncomplete(ch: ChapterProgress): bool { !ch.completed }

  /** `getNextChapter`: the first chapter not yet completed, if any. */
  function GetNextChapter(chapters: seq<ChapterProgress>): (r: Option<ChapterProgress>)
    ensures r.None? <==> forall i :: 0 <= i < |chapters| ==> chapters[i].completed
    ensures r.Some? ==> exists i :: 0 <= i < |chapters| && chapters[i] == r.value && !r.value.completed
                                    && forall j :: 0 <= j < i ==> chapters[j].completed
  {
    Sorting.FindFirst(chapters, IsIncomplete)
  }

  // ----- the recently studied list -----

  const RecentCount: nat := 3

  function WasAccessed(ch: ChapterProgress): bool { ch.lastAccessed.Some? }

  /** The access time as the sort reads it. */
  function AccessTime(ch: ChapterProgress): int {
    if ch.lastAccessed.Some? then ch.lastAccessed.value else 0
  }

  /** `(b.lastAccessed - a.lastAccessed)` as an ordering: the more recent may come first. */
  function NewerFirst(a: ChapterProgress, b: ChapterProgress): bool {
    AccessTime(a) >= AccessTime(b)
  }

  function Accessed(chapters: seq<ChapterProgress>): (r: seq<ChapterProgress>)
    ensures forall x :: x in r <==> x in chapters && WasAccessed(x)
  {
    if chapters == [] then []
    else (if WasAccessed(chapters[0]) then [chapters[0]] else []) + Accessed(chapters[1..])
  }

  /** The opened chapters, most recent first, at most three of them. */
  function RecentChapters(chapters: seq<ChapterProgress>): (r: seq<ChapterProgress>)
    ensures |r| <= RecentCount
    ensures forall x :: x in r ==> x in chapters && WasAccessed(x)
  {
    var sorted := Sorting.Sort(Accessed(chapters), NewerFirst);
    assert forall x :: x in sorted ==> x in multiset(Accessed(chapters));
    if |sorted| <= RecentCount then sorted else sorted[..RecentCount]
  }

  lemma NewerFirstTotal()
    ensures Sorting.TotalPreorder(NewerFirst)
  {
  }

  /**
   * The list is ordered newest first, and it is the top three: every opened chapter left
   * out of it is no more recent than each chapter in it, which then holds three.
   */
  lemma RecentChaptersMeaning(chapters: seq<ChapterProgress>, x: ChapterProgress)
    requires x in chapters && WasAccessed(x)
    ensures var r := RecentChapters(chapters);
      && (forall i, j :: 0 <= i < j < |r| ==> AccessTime(r[i]) >= AccessTime(r[j]))
      && (x !in r ==> |r| == RecentCount && forall i :: 0 <= i < |r| ==> AccessTime(r[i]) >= AccessTime(x))
  {
    var accessed := Accessed(chapters);
    var sorted := SortNewestFirst(accessed);
    assert x in multiset(accessed);
    assert x in multiset(sorted);
    var k :| 0 <= k < |sorted| && sorted[k] == x;
    TopOfNewestFirst(sorted, RecentCount, k);
  }

  /** The first `n` of a list ordered newest first are ordered too, and no later entry is newer. */
  lemma TopOfNewestFirst(s: seq<ChapterProgress>, n: nat, k: nat)
    requires forall i, j :: 0 <= i < j < |s| ==> AccessTime(s[i]) >= AccessTime(s[j])
    requires k < |s|
    ensures var r := if |s| <= n then s else s[..n];
      && (forall i, j :: 0 <= i < j < |r| ==> AccessTime(r[i]) >= AccessTime(r[j]))
      && (s[k] !in r ==> |r| == n && forall i :: 0 <= i < |r| ==> AccessTime(r[i]) >= AccessTime(s[k]))
  {
    var r := if |s| <= n then s else s[..n];
    assert forall i :: 0 <= i < |r| ==> r[i] == s[i];
    if s[k] !in r {
      assert k >= |r|;
    }
  }

  /** Sorting by access time puts the most recent first. */
  lemma SortNewestFirst(xs: seq<ChapterProgress>) returns (s: seq<ChapterProgress>)
    ensures s == Sorting.Sort(xs, NewerFirst)
    ensures forall i, j :: 0 <= i < j < |s| ==> AccessTime(s[i]) >= AccessTime(s[j])
  {
    NewerFirstTotal();
    Sorting.SortSorted(xs, NewerFirst);
    s := Sorting.Sort(xs, NewerFirst);
    forall i, j | 0 <= i < j < |s| ensures AccessTime(s[i]) >= AccessTime(s[j]) {
      assert NewerFirst(s[i], s[j]);
    }
  }
}
