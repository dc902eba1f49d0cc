/**
 * The rule-based learning assistant of the static site: the canned answer picked by
 * keyword, the progress percentage, the chapter-completion list, and the two
 * recommendations for a learning level.
 */
module AiAssistant {
  import opened Text

  // ----- generateAIResponse -----

  /** The keyword groups, tried in this order on the lower-cased message. */
  const KeywordGroups: seq<seq<string>> := [
    ["什么是半导体", "半导体是什么"],
    ["mosfet", "场效应管"],
    ["工艺", "制造"],
    ["学习", "怎么学"]
  ]

  /** The answer for each keyword group, in the same order. */
  const GroupAnswers: seq<string> := [
    "半导体是导电性介于导体和绝缘体之间的材料。常见的半导体材料有硅(Si)、锗(Ge)、砷化镓(GaAs)等。半导体器件是现代电子技术的基础，如二极管、晶体管、集成电路等都是由半导体材料制成的。",
    "MOSFET（金属-氧化物-半导体场效应晶体管）是一种重要的半导体器件。它通过栅极电压控制沟道导电性，实现开关和放大功能。MOSFET有N沟道和P沟道两种类型，是现代集成电路的基本构建单元。",
    "半导体制造工艺主要包括晶圆制备、氧化、光刻、刻蚀、离子注入、薄膜沉积、化学机械抛光等步骤。这些工艺步骤的精确控制对半导体器件的性能至关重要。",
    "建议按照以下路径学习半导体知识：\n1. 半导体材料与物理基础\n2. PN结与二极管原理\n3. 双极晶体管(BJT)工作原理\n4. MOSFET结构与特性\n5. 集成电路基础\n6. 半导体制造工艺\n\n每个阶段都需要理论学习与实践相结合，多做实验和仿真有助于加深理解。"
  ]

  /** The answer when no group matches. */
  const DefaultAnswer := "这是一个很好的问题！半导体器件与工艺是一个复杂而有趣的领域。你可以尝试查看相关章节内容，或者提出更具体的问题，我会尽力为你解答。你也可以使用学习路径功能获取个性化推荐。"

  /** Some keyword of the group occurs in the text. */
  predicate GroupMatches(text: string, group: seq<string>) {
    exists w :: w in group && Contains(text, w)
  }

  /** The first group at or after `from` that matches, or `|groups|` when none does. */
  function FirstGroup(text: string, groups: seq<seq<string>>, from: nat): (g: nat)
    requires from <= |groups|
    ensures from <= g <= |groups|
    ensures g < |groups| ==> GroupMatches(text, groups[g])
    ensures forall j :: from <= j < g ==> !GroupMatches(text, groups[j])
    decreases |groups| - from
  {
    if from == |groups| then from
    else if exists w :: w in groups[from] && Contains(text, w) then from
    else FirstGroup(text, groups, from + 1)
  }

  /** `generateAIResponse`: the answer of the first group the lower-cased message matches. */
  function GenerateResponse(message: string): (r: string)
    ensures r == DefaultAnswer || r in GroupAnswers
  {
    var g := FirstGroup(Lower(message), KeywordGroups, 0);
    if g < |GroupAnswers| then GroupAnswers[g] else DefaultAnswer
  }

  /**
   * The answer is that of group `g` exactly when the lower-cased message matches group
   * `g` and none before it; with no group matching, it is the default answer.
   */
  lemma ResponseByFirstGroup(message: string, g: nat)
    requires g < |KeywordGroups|
    requires GroupMatches(Lower(message), KeywordGroups[g])
    requires forall j :: 0 <= j < g ==> !GroupMatches(Lower(message), KeywordGroups[j])
    ensures GenerateResponse(message) == GroupAnswers[g]
  {
    var f := FirstGroup(Lower(message), KeywordGroups, 0);
    assert f == g;
  }

  lemma ResponseDefault(message: string)
    requires forall j :: 0 <= j < |KeywordGroups| ==> !GroupMatches(Lower(message), KeywordGroups[j])
    ensures GenerateResponse(message) == DefaultAnswer
  {
  }

  // ----- calculateProgress -----

  const TotalChapters := 20

  /** `calculateProgress`: the completed share of the twenty chapters, in percent. */
  function CalculateProgress(completedCount: nat): int {
    Round(completedCount as real / TotalChapters as real * 100.0)
  }

  /** Each completed chapter is worth exactly five percent; past twenty the figure exceeds 100. */
  lemma ProgressIsFivePerChapter(completedCount: nat)
    ensures CalculateProgress(completedCount) == 5 * completedCount
    ensures completedCount <= TotalChapters <==> CalculateProgress(completedCount) <= 100
  {
    var x := completedCount as real / 20.0 * 100.0;
    assert x == (5 * completedCount) as real;
  }

  // ----- markChapterCompleted -----

  /** `markChapterCompleted`: appends the chapter unless it is already listed. */
  function MarkChapterCompleted(completed: seq<string>, chapterId: string): (r: seq<string>)
    ensures chapterId in r
    ensures chapterId in completed ==> r == completed
    ensures chapterId !in completed ==> r == completed + [chapterId]
  {
    if chapterId in completed then completed else completed + [chapterId]
  }

  predicate NoDuplicates(s: seq<string>) {
    forall i, j :: 0 <= i < j < |s| ==> s[i] != s[j]
  }

  /** Marking keeps the list free of duplicates, and marking twice is marking once. */
  lemma MarkKeepsNoDuplicates(completed: seq<string>, chapterId: string)
    requires NoDuplicates(completed)
    ensures NoDuplicates(MarkChapterCompleted(completed, chapterId))
    ensures MarkChapterCompleted(MarkChapterCompleted(completed, chapterId), chapterId) == MarkChapterCompleted(completed, chapterId)
  {
  }

  function MarkAll(completed: seq<string>, ids: seq<string>): seq<string>
    decreases |ids|
  {
    if ids == [] then completed else MarkAll(MarkChapterCompleted(completed, ids[0]), ids[1..])
  }

  /**
   * Marking any sequence of chapters lists every one of them exactly once, keeps the
   * earlier entries in front, and so the progress counts distinct chapters.
   */
  lemma {:induction false} MarkAllMeaning(completed: seq<string>, ids: seq<string>)
    requires NoDuplicates(completed)
    ensures NoDuplicates(MarkAll(completed, ids))
    ensures completed <= MarkAll(completed, ids)
    ensures forall x :: x in MarkAll(completed, ids) <==> x in completed || x in ids
    decreases |ids|
  {
    if ids != [] {
      var next := MarkChapterCompleted(completed, ids[0]);
      MarkKeepsNoDuplicates(completed, ids[0]);
      MarkAllMeaning(next, ids[1..]);
      assert forall x :: x in ids <==> x == ids[0] || x in ids[1..] by {
        assert ids == [ids[0]] + ids[1..];
      }
    }
  }

  // ----- generateRecommendations -----

  datatype Recommendation = Recommendation(title: string, description: string, icon: string, link: string)

  /** `generateRecommendations`: two entries per level; any other level counts as advanced. */
  function GenerateRecommendations(level: string): (r: seq<Recommendation>)
    ensures |r| == 2
  {
    if level == "beginner" then [
      Recommendation("半导体材料基础", "了解半导体材料的基本特性和分类", "fas fa-atom", "chapters/chapter2.html"),
      Recommendation("PN结原理", "学习PN结的形成机理和基本特性", "fas fa-link", "chapters/chapter3.html")]
    else if level == "intermediate" then [
      Recommendation("MOSFET工作原理", "深入理解MOSFET的结构和工作机制", "fas fa-microchip", "chapters/chapter4.html"),
      Recommendation("器件制造工艺", "了解半导体器件制造的关键工艺步骤", "fas fa-industry", "chapters/chapter9.html")]
    else [
      Recommendation("纳米尺度器件", "探索纳米尺度半导体器件的挑战与解决方案", "fas fa-nanos", "chapters/chapter12.html"),
      Recommendation("宽禁带半导体", "了解宽禁带半导体器件的特性与应用", "fas fa-bolt", "chapters/chapter13.html")]
  }

  /** An unknown level gets the advanced recommendations. */
  lemma UnknownLevelIsAdvanced(level: string)
    requires level != "beginner" && level != "intermediate"
    ensures GenerateRecommendations(level) == GenerateRecommendations("advanced")
  {
  }
}
