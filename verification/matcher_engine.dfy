/**
 * The rule-matching engine that assigns a presentation component to a content block:
 * AND/OR/NOT combinators over base rules, a priority-ordered search for the first
 * matching mapping, a match score, and the best-scoring result per block.
 *
 * A regular expression is not modelled: `test(pattern, content)` stands for
 * `pattern.test(content)` and is a parameter of every member that needs it.
 */
module MatcherEngine {
  import opened Wrappers
  import opened Text
  import opened Sorting
  import opened ContentAnalyzer

  /** The base rule types; any other `type` (`paragraph`, `list`, ...) is `Unhandled`. */
  datatype RuleType = HeadingRule | KeywordsRule | ContentTypeRule | RegexRule | DefaultRule | Unhandled

  /**
   * A match rule. `all` and `any` are the `AND` and `OR` lists, where an absent list
   * behaves like an empty one, and so does an absent `values` list; `negated` is the
   * `NOT` sub-rule and `pattern` the source of a regular expression.
   */
  datatype Rule = Rule(kind: RuleType, text: Option<string>, values: seq<string>,
                       value: Option<string>, pattern: Option<string>,
                       all: seq<Rule>, any: seq<Rule>, negated: Option<Rule>)

  /** A component mapping: the rule, the component it selects, and an optional priority. */
  datatype Mapping = Mapping(rule: Rule, component: string, priority: Option<int>)

  datatype MatchResult = MatchResult(mapping: Mapping, block: Block, score: int)

  /** The `type` string a content block carries. */
  function KindName(k: BlockKind): string {
    match k
    case Paragraph => "paragraph"
    case Heading => "heading"
    case List => "list"
    case Blockquote => "blockquote"
    case Code => "code"
    case Formula => "formula"
    case Component => "component"
  }

  /** JavaScript truthiness of an optional string: present and not empty. */
  predicate Truthy(o: Option<string>) { o.Some? && o.value != [] }

  /** A rule without combinators, decided by its own type. */
  predicate IsBase(rule: Rule) { rule.all == [] && rule.any == [] && rule.negated.None? }

  /** `values.filter(k => content.includes(k))`. */
  function KeywordsIn(values: seq<string>, content: string): (r: seq<string>)
    ensures |r| <= |values|
    ensures forall k :: k in r <==> k in values && Contains(content, k)
  {
    if values == [] then []
    else (if Contains(content, values[0]) then [values[0]] else []) + KeywordsIn(values[1..], content)
  }

  /**
   * The filter keeps repeats: each contained keyword occurs in the result as often as in
   * the rule's list, and a keyword the content lacks not at all. The keyword score counts
   * these occurrences.
   */
  lemma {:induction false} KeywordsInCounts(values: seq<string>, content: string)
    ensures forall k :: multiset(KeywordsIn(values, content))[k] == if Contains(content, k) then multiset(values)[k] else 0
  {
    if values != [] {
      KeywordsInCounts(values[1..], content);
      assert values == [values[0]] + values[1..];
      assert multiset(values) == multiset([values[0]]) + multiset(values[1..]);
    }
  }

  /** The base match of `matchesRule` for the rule's own type. */
  predicate BaseMatches(b: Block, rule: Rule, test: (string, string) -> bool) {
    match rule.kind
    case HeadingRule =>
      b.kind == Heading && Truthy(rule.text)
      && (b.content == rule.text.value || Contains(b.content, rule.text.value))
    case KeywordsRule => rule.values != [] && |KeywordsIn(rule.values, b.content)| > 0
    case ContentTypeRule => rule.value == Some(KindName(b.kind))
    case RegexRule => rule.pattern.Some? && test(rule.pattern.value, b.content)
    case DefaultRule => true
    case Unhandled => false
  }

  /** `matchesRule`: a non-empty AND list first, then a non-empty OR list, then NOT, then the base rule. */
  predicate Matches(b: Block, rule: Rule, test: (string, string) -> bool)
    decreases rule
  {
    if rule.all != [] then forall i :: 0 <= i < |rule.all| ==> Matches(b, rule.all[i], test)
    else if rule.any != [] then exists i :: 0 <= i < |rule.any| && Matches(b, rule.any[i], test)
    else if rule.negated.Some? then !Matches(b, rule.negated.value, test)
    else BaseMatches(b, rule, test)
  }

  // ----- Combinators -----

  /** A non-empty AND list decides alone: the rule's type, OR list and NOT rule are ignored. */
  lemma AndDecides(b: Block, rule: Rule, test: (string, string) -> bool,
                   k: RuleType, any: seq<Rule>, negated: Option<Rule>)
    requires rule.all != []
    ensures Matches(b, rule, test) <==> forall i :: 0 <= i < |rule.all| ==> Matches(b, rule.all[i], test)
    ensures Matches(b, rule.(kind := k, any := any, negated := negated), test) == Matches(b, rule, test)
  {
    var other := rule.(kind := k, any := any, negated := negated);
    assert other.all == rule.all;
  }

  /** Without an AND list, a non-empty OR list decides: some sub-rule matches. */
  lemma OrDecides(b: Block, rule: Rule, test: (string, string) -> bool, k: RuleType, negated: Option<Rule>)
    requires rule.all == [] && rule.any != []
    ensures Matches(b, rule, test) <==> exists i :: 0 <= i < |rule.any| && Matches(b, rule.any[i], test)
    ensures Matches(b, rule.(kind := k, negated := negated), test) == Matches(b, rule, test)
  {
    var other := rule.(kind := k, negated := negated);
    assert other.any == rule.any;
  }

  /** Without AND and OR lists, NOT negates its sub-rule whatever the rule's type. */
  lemma NotNegates(b: Block, rule: Rule, test: (string, string) -> bool, k: RuleType)
    requires rule.all == [] && rule.any == [] && rule.negated.Some?
    ensures Matches(b, rule, test) == !Matches(b, rule.negated.value, test)
    ensures Matches(b, rule.(kind := k), test) == Matches(b, rule, test)
  {
    var other := rule.(kind := k);
    assert other.negated == rule.negated;
  }

  /** Pure combinator rules, as a configuration writes them. */
  function And(rs: seq<Rule>): Rule { Rule(DefaultRule, None, [], None, None, rs, [], None) }
  function Or(rs: seq<Rule>): Rule { Rule(DefaultRule, None, [], None, None, [], rs, None) }
  function Not(r: Rule): Rule { Rule(DefaultRule, None, [], None, None, [], [], Some(r)) }

  function NotEach(rs: seq<Rule>): (r: seq<Rule>)
    ensures |r| == |rs| && forall i :: 0 <= i < |rs| ==> r[i] == Not(rs[i])
  {
    seq(|rs|, i requires 0 <= i < |rs| => Not(rs[i]))
  }

  /** Double negation cancels. */
  lemma NotNot(b: Block, r: Rule, test: (string, string) -> bool)
    ensures Matches(b, Not(Not(r)), test) == Matches(b, r, test)
  {
    NotNegates(b, Not(Not(r)), test, DefaultRule);
    NotNegates(b, Not(r), test, DefaultRule);
  }

  /** De Morgan: NOT of a non-empty AND matches exactly when the OR of the negations does. */
  lemma DeMorgan(b: Block, rs: seq<Rule>, test: (string, string) -> bool)
    requires rs != []
    ensures Matches(b, Not(And(rs)), test) == Matches(b, Or(NotEach(rs)), test)
  {
    var ns := NotEach(rs);
    NotNegates(b, Not(And(rs)), test, DefaultRule);
    AndDecides(b, And(rs), test, DefaultRule, [], None);
    OrDecides(b, Or(ns), test, DefaultRule, None);
    forall i | 0 <= i < |rs|
      ensures Matches(b, ns[i], test) == !Matches(b, rs[i], test)
    {
      NotNegates(b, ns[i], test, DefaultRule);
    }
    if Matches(b, Or(ns), test) {
      var i :| 0 <= i < |ns| && Matches(b, ns[i], test);
      assert !Matches(b, rs[i], test);
    }
  }

  // ----- Base rules -----

  lemma SelfContains(s: string)
    ensures Contains(s, s)
  {
    assert s[0..|s|] == s;
    ContainsWitness(s, s, 0);
  }

  /**
   * What each base rule type means: a heading rule matches exactly the heading blocks
   * containing its non-empty text, a keywords rule exactly the blocks containing one of
   * its keywords (so never with no keywords), a content-type rule the blocks of that
   * type, a default rule every block and any other type no block.
   */
  lemma BaseRuleMeaning(b: Block, rule: Rule, test: (string, string) -> bool)
    requires IsBase(rule)
    ensures rule.kind == HeadingRule ==>
      (Matches(b, rule, test) <==> b.kind == Heading && Truthy(rule.text) && Contains(b.content, rule.text.value))
    ensures rule.kind == KeywordsRule ==>
      (Matches(b, rule, test) <==> exists i :: 0 <= i < |rule.values| && Contains(b.content, rule.values[i]))
    ensures rule.kind == ContentTypeRule ==> (Matches(b, rule, test) <==> rule.value == Some(KindName(b.kind)))
    ensures rule.kind == RegexRule ==> (Matches(b, rule, test) <==> rule.pattern.Some? && test(rule.pattern.value, b.content))
    ensures rule.kind == DefaultRule ==> Matches(b, rule, test)
    ensures rule.kind == Unhandled ==> !Matches(b, rule, test)
  {
    if rule.kind == HeadingRule && rule.text.Some? {
      SelfContains(b.content);
    }
    if rule.kind == KeywordsRule {
      var hits := KeywordsIn(rule.values, b.content);
      if |hits| > 0 {
        assert hits[0] in hits;
        var i :| 0 <= i < |rule.values| && rule.values[i] == hits[0];
      }
      if exists i :: 0 <= i < |rule.values| && Contains(b.content, rule.values[i]) {
        var i :| 0 <= i < |rule.values| && Contains(b.content, rule.values[i]);
        assert rule.values[i] in hits;
      }
    }
  }

  // ----- matchContentBlock -----

  /** `mapping.priority || 0`. */
  function Priority(m: Mapping): int {
    if m.priority.Some? then m.priority.value else 0
  }

  /** The sort order of `matchContentBlock`: higher priority first. */
  predicate PriorityFirst(a: Mapping, b: Mapping) { Priority(a) >= Priority(b) }

  lemma PriorityFirstTotal()
    ensures TotalPreorder(PriorityFirst)
  {
  }

  /** The loop of `matchContentBlock`: the first mapping of `sorted` whose rule matches. */
  function FirstMatching(sorted: seq<Mapping>, b: Block, test: (string, string) -> bool): (r: Option<Mapping>)
    ensures r.Some? ==> r.value in sorted && Matches(b, r.value.rule, test)
  {
    if sorted == [] then None
    else if Matches(b, sorted[0].rule, test) then Some(sorted[0])
    else FirstMatching(sorted[1..], b, test)
  }

  lemma {:induction false} FirstMatchingIsFindFirst(sorted: seq<Mapping>, b: Block, test: (string, string) -> bool)
    ensures FirstMatching(sorted, b, test) == FindFirst(sorted, (m: Mapping) => Matches(b, m.rule, test))
  {
    if sorted != [] {
      FirstMatchingIsFindFirst(sorted[1..], b, test);
    }
  }

  /** `matchContentBlock`: the first matching mapping once the mappings are stably sorted by descending priority. */
  function MatchContentBlock(b: Block, mappings: seq<Mapping>, test: (string, string) -> bool): (r: Option<Mapping>)
    ensures r.Some? ==> r.value in mappings && Matches(b, r.value.rule, test)
  {
    var sorted := Sort(mappings, PriorityFirst);
    var r := FirstMatching(sorted, b, test);
    assert r.Some? ==> r.value in multiset(sorted);
    r
  }

  /**
   * The mapping `matchContentBlock` picks is None exactly when no mapping matches;
   * otherwise it is a matching mapping of the highest priority among the matching ones,
   * and every matching mapping listed before it has a strictly lower priority.
   */
  lemma MatchContentBlockPicksBest(b: Block, mappings: seq<Mapping>, test: (string, string) -> bool)
    ensures var r := MatchContentBlock(b, mappings, test);
      && (r.None? <==> forall i :: 0 <= i < |mappings| ==> !Matches(b, mappings[i].rule, test))
      && (r.Some? ==> Matches(b, r.value.rule, test))
      && (r.Some? ==> exists i :: (0 <= i < |mappings| && mappings[i] == r.value
        && (forall j :: 0 <= j < |mappings| && Matches(b, mappings[j].rule, test) ==> Priority(mappings[j]) <= Priority(r.value))
        && (forall j :: 0 <= j < i && Matches(b, mappings[j].rule, test) ==> Priority(mappings[j]) < Priority(r.value))))
  {
    PickNoneIff(b, mappings, test);
    var i := PickBest(b, mappings, test);
  }

  lemma PickNoneIff(b: Block, mappings: seq<Mapping>, test: (string, string) -> bool)
    ensures MatchContentBlock(b, mappings, test).None? <==> forall i :: 0 <= i < |mappings| ==> !Matches(b, mappings[i].rule, test)
  {
    var p := (m: Mapping) => Matches(b, m.rule, test);
    var _ := FindFirstByKey(mappings, p, PriorityFirst, Priority);
    FirstMatchingIsFindFirst(Sort(mappings, PriorityFirst), b, test);
    SameTest(b, mappings, test, p);
  }

  /** The index in `mappings` of the mapping picked, with what makes it best. */
  lemma PickBest(b: Block, mappings: seq<Mapping>, test: (string, string) -> bool) returns (i: nat)
    ensures var r := MatchContentBlock(b, mappings, test);
      r.Some? ==> (i < |mappings| && mappings[i] == r.value && Matches(b, r.value.rule, test)
        && (forall j :: 0 <= j < |mappings| && Matches(b, mappings[j].rule, test) ==> Priority(mappings[j]) <= Priority(r.value))
        && (forall j :: 0 <= j < i && Matches(b, mappings[j].rule, test) ==> Priority(mappings[j]) < Priority(r.value)))
  {
    var p := (m: Mapping) => Matches(b, m.rule, test);
    var r := MatchContentBlock(b, mappings, test);
    i := FindFirstByKey(mappings, p, PriorityFirst, Priority);
    FirstMatchingIsFindFirst(Sort(mappings, PriorityFirst), b, test);
    assert r == FindFirst(Sort(mappings, PriorityFirst), p);
    if r.Some? {
      BestByMatches(b, mappings, test, p, i, r.value);
    }
  }

  /** A mapping best for `p` is best for its rule's match against `b`, when `p` is that match. */
  lemma BestByMatches(b: Block, mappings: seq<Mapping>, test: (string, string) -> bool, p: Mapping -> bool,
                      i: nat, x: Mapping)
    requires forall m :: p(m) == Matches(b, m.rule, test)
    requires i < |mappings| && mappings[i] == x && p(x)
    requires forall j :: 0 <= j < |mappings| && p(mappings[j]) ==> Priority(mappings[j]) <= Priority(mappings[i])
    requires forall j :: 0 <= j < i && p(mappings[j]) ==> Priority(mappings[j]) < Priority(mappings[i])
    ensures Matches(b, x.rule, test)
    ensures forall j :: 0 <= j < |mappings| && Matches(b, mappings[j].rule, test) ==> Priority(mappings[j]) <= Priority(x)
    ensures forall j :: 0 <= j < i && Matches(b, mappings[j].rule, test) ==> Priority(mappings[j]) < Priority(x)
  {
    SameTest(b, mappings, test, p);
  }

  /** `p` is the test of each mapping's rule against `b`. */
  lemma SameTest(b: Block, mappings: seq<Mapping>, test: (string, string) -> bool, p: Mapping -> bool)
    requires forall m :: p(m) == Matches(b, m.rule, test)
    ensures forall j :: 0 <= j < |mappings| ==> (p(mappings[j]) <==> Matches(b, mappings[j].rule, test))
  {
  }

  /**
   * `generateBlockComponentMap`: block id to the mapping chosen for the block. A later
   * block with the same id and a match overwrites an earlier one; `BlockMapEntry` and
   * `BlockMapKeys` state what an entry holds.
   */
  function GenerateBlockComponentMap(blocks: seq<Block>, mappings: seq<Mapping>, test: (string, string) -> bool)
    : map<string, Mapping>
  {
    BuildMap(blocks, Choices(blocks, mappings, test))
  }

  /** Each block's chosen mapping, in block order. */
  function Choices(blocks: seq<Block>, mappings: seq<Mapping>, test: (string, string) -> bool)
    : (choices: seq<Option<Mapping>>)
    ensures |choices| == |blocks|
    ensures forall i :: 0 <= i < |blocks| ==> choices[i] == MatchContentBlock(blocks[i], mappings, test)
  {
    seq(|blocks|, i requires 0 <= i < |blocks| => MatchContentBlock(blocks[i], mappings, test))
  }

  /** The choice of the last block with id `id` that has one: what the `blockMap` loop leaves for `id`. */
  function LastChoice(blocks: seq<Block>, choices: seq<Option<Mapping>>, id: string): Option<Mapping>
    requires |choices| == |blocks|
  {
    if blocks == [] then None
    else
      var n := |blocks| - 1;
      if blocks[n].id == id && choices[n].Some? then choices[n] else LastChoice(blocks[..n], choices[..n], id)
  }

  /**
   * The `blockMap` loop once each block's choice is known (`choices[i]` for `blocks[i]`):
   * each id's entry is its last choice.
   */
  function BuildMap(blocks: seq<Block>, choices: seq<Option<Mapping>>): (r: map<string, Mapping>)
    requires |choices| == |blocks|
    ensures forall id :: id in r <==> LastChoice(blocks, choices, id).Some?
    ensures forall id :: id in r ==> Some(r[id]) == LastChoice(blocks, choices, id)
  {
    if blocks == [] then map[]
    else
      var n := |blocks| - 1;
      var acc := BuildMap(blocks[..n], choices[..n]);
      if choices[n].Some? then acc[blocks[n].id := choices[n].value] else acc
  }

  /**
   * An id's last choice is absent exactly when no block with the id has a choice; otherwise
   * it is the choice of a block with the id after which no block with the id has one.
   */
  lemma {:induction false} LastChoiceMeaning(blocks: seq<Block>, choices: seq<Option<Mapping>>, id: string)
    requires |choices| == |blocks|
    ensures LastChoice(blocks, choices, id).None? <==>
      forall i :: 0 <= i < |blocks| && blocks[i].id == id ==> choices[i].None?
    ensures forall i :: ((0 <= i < |blocks| && blocks[i].id == id && choices[i].Some?
        && (forall j :: i < j < |blocks| && blocks[j].id == id ==> choices[j].None?))
      ==> LastChoice(blocks, choices, id) == choices[i])
  {
    if blocks != [] {
      var n := |blocks| - 1;
      LastChoiceMeaning(blocks[..n], choices[..n], id);
      assert forall i :: 0 <= i < n ==> blocks[..n][i] == blocks[i] && choices[..n][i] == choices[i];
    }
  }

  /**
   * An id has an entry exactly when some block with the id has a chosen mapping, and the
   * entry is the choice of the last such block.
   */
  lemma BlockMapEntry(blocks: seq<Block>, mappings: seq<Mapping>, test: (string, string) -> bool, id: string)
    ensures id in GenerateBlockComponentMap(blocks, mappings, test) <==>
      exists i :: 0 <= i < |blocks| && blocks[i].id == id && MatchContentBlock(blocks[i], mappings, test).Some?
    ensures forall i :: ((0 <= i < |blocks| && blocks[i].id == id && MatchContentBlock(blocks[i], mappings, test).Some?
        && (forall j :: i < j < |blocks| && blocks[j].id == id ==> MatchContentBlock(blocks[j], mappings, test).None?))
      ==> GenerateBlockComponentMap(blocks, mappings, test)[id] == MatchContentBlock(blocks[i], mappings, test).value)
  {
    var choices := Choices(blocks, mappings, test);
    LastChoiceMeaning(blocks, choices, id);
  }

  /** A block gets an entry exactly when some mapping matches a block with its id. */
  lemma BlockMapKeys(blocks: seq<Block>, mappings: seq<Mapping>, test: (string, string) -> bool, id: string)
    ensures id in GenerateBlockComponentMap(blocks, mappings, test) <==>
      exists i, j :: 0 <= i < |blocks| && 0 <= j < |mappings| && blocks[i].id == id && Matches(blocks[i], mappings[j].rule, test)
  {
    BlockMapEntry(blocks, mappings, test, id);
    if id in GenerateBlockComponentMap(blocks, mappings, test) {
      var i :| 0 <= i < |blocks| && blocks[i].id == id && MatchContentBlock(blocks[i], mappings, test).Some?;
      PickNoneIff(blocks[i], mappings, test);
    }
    if exists i, j :: 0 <= i < |blocks| && 0 <= j < |mappings| && blocks[i].id == id && Matches(blocks[i], mappings[j].rule, test) {
      var i, j :| 0 <= i < |blocks| && 0 <= j < |mappings| && blocks[i].id == id && Matches(blocks[i], mappings[j].rule, test);
      PickNoneIff(blocks[i], mappings, test);
    }
  }

  // ----- calculateMatchScore -----

  /** The part of the score the rule's own type adds; combinators are not looked at. */
  function TypeBonus(b: Block, rule: Rule, test: (string, string) -> bool): int {
    match rule.kind
    case HeadingRule =>
      if b.kind == Heading && Truthy(rule.text) then
        (if b.content == rule.text.value then 100 else if Contains(b.content, rule.text.value) then 80 else 0)
      else 0
    case KeywordsRule => 10 * |KeywordsIn(rule.values, b.content)|
    case ContentTypeRule => if rule.value == Some(KindName(b.kind)) then 50 else 0
    case RegexRule => if rule.pattern.Some? && test(rule.pattern.value, b.content) then 80 else 0
    case DefaultRule => 0
    case Unhandled => 0
  }

  /** `calculateMatchScore`: the priority plus the type's bonus. */
  function CalculateMatchScore(b: Block, m: Mapping, test: (string, string) -> bool): (score: int)
    ensures Priority(m) <= score <= Priority(m) + 100 || m.rule.kind == KeywordsRule
    ensures score - Priority(m) in {0, 50, 80, 100} || (m.rule.kind == KeywordsRule && (score - Priority(m)) % 10 == 0)
  {
    Priority(m) + TypeBonus(b, m.rule, test)
  }

  /**
   * For a base rule of a type that scores, the score exceeds the priority exactly when
   * the rule matches; an exact heading scores 100 over the priority, and keywords
   * score 10 for each keyword the content contains.
   */
  lemma ScoreRewardsMatch(b: Block, m: Mapping, test: (string, string) -> bool)
    requires IsBase(m.rule) && m.rule.kind != DefaultRule && m.rule.kind != Unhandled
    ensures CalculateMatchScore(b, m, test) > Priority(m) <==> Matches(b, m.rule, test)
    ensures m.rule.kind == HeadingRule && Matches(b, m.rule, test) && b.content == m.rule.text.value ==>
      CalculateMatchScore(b, m, test) == Priority(m) + 100
    ensures m.rule.kind == KeywordsRule ==>
      CalculateMatchScore(b, m, test) == Priority(m) + 10 * |KeywordsIn(m.rule.values, b.content)|
  {
    BaseRuleMeaning(b, m.rule, test);
    if m.rule.kind == HeadingRule && b.kind == Heading && Truthy(m.rule.text) && b.content == m.rule.text.value {
      SelfContains(b.content);
    }
  }

  // ----- getAllMatchResults and getBestMatchResults -----

  /** The results for one block, in mapping order. */
  function ResultsFor(b: Block, mappings: seq<Mapping>, test: (string, string) -> bool): (r: seq<MatchResult>)
    ensures forall k :: 0 <= k < |r| ==> (r[k].block == b && r[k].mapping in mappings
      && Matches(b, r[k].mapping.rule, test) && r[k].score == CalculateMatchScore(b, r[k].mapping, test))
    ensures forall j :: 0 <= j < |mappings| && Matches(b, mappings[j].rule, test) ==>
      MatchResult(mappings[j], b, CalculateMatchScore(b, mappings[j], test)) in r
  {
    if mappings == [] then []
    else
      var m := mappings[0];
      var rest := ResultsFor(b, mappings[1..], test);
      assert forall j :: 1 <= j < |mappings| ==> mappings[j] == mappings[1..][j - 1];
      (if Matches(b, m.rule, test) then [MatchResult(m, b, CalculateMatchScore(b, m, test))] else []) + rest
  }

  /** `x` is the result for a matching pair of one of `blocks` and one of `mappings`. */
  predicate IsPair(x: MatchResult, blocks: seq<Block>, mappings: seq<Mapping>, test: (string, string) -> bool) {
    && x.block in blocks && x.mapping in mappings
    && Matches(x.block, x.mapping.rule, test) && x.score == CalculateMatchScore(x.block, x.mapping, test)
  }

  lemma SameMembers<T>(a: seq<T>, b: seq<T>)
    requires multiset(a) == multiset(b)
    ensures forall x :: x in a <==> x in b
  {
    forall x ensures x in a <==> x in b {
      assert x in a <==> x in multiset(a);
      assert x in b <==> x in multiset(b);
    }
  }

  /** Every matching (block, mapping) pair, blocks outer and mappings inner. */
  function AllPairs(blocks: seq<Block>, mappings: seq<Mapping>, test: (string, string) -> bool): (r: seq<MatchResult>)
    ensures forall k :: 0 <= k < |r| ==> IsPair(r[k], blocks, mappings, test)
    ensures forall i, j :: 0 <= i < |blocks| && 0 <= j < |mappings| && Matches(blocks[i], mappings[j].rule, test) ==>
      MatchResult(mappings[j], blocks[i], CalculateMatchScore(blocks[i], mappings[j], test)) in r
  {
    if blocks == [] then []
    else
      var head := ResultsFor(blocks[0], mappings, test);
      var rest := AllPairs(blocks[1..], mappings, test);
      assert forall i :: 1 <= i < |blocks| ==> blocks[i] == blocks[1..][i - 1];
      assert forall x :: IsPair(x, blocks[1..], mappings, test) ==> IsPair(x, blocks, mappings, test);
      head + rest
  }

  /** The sort order of `getAllMatchResults`: higher score first. */
  predicate ScoreFirst(a: MatchResult, b: MatchResult) { a.score >= b.score }

  /** `getAllMatchResults`: the matching pairs, stably sorted by descending score. */
  function GetAllMatchResults(blocks: seq<Block>, mappings: seq<Mapping>, test: (string, string) -> bool)
    : (r: seq<MatchResult>)
    ensures multiset(r) == multiset(AllPairs(blocks, mappings, test))
    ensures forall i, j :: 0 <= i < j < |r| ==> r[i].score >= r[j].score
  {
    SortSorted(AllPairs(blocks, mappings, test), ScoreFirst);
    Sort(AllPairs(blocks, mappings, test), ScoreFirst)
  }

  /** Index of the first result for block id `id`, or `|acc|`. */
  function IdIndex(acc: seq<MatchResult>, id: string): (k: nat)
    ensures k <= |acc|
    ensures k < |acc| ==> acc[k].block.id == id
    ensures forall q :: 0 <= q < k ==> acc[q].block.id != id
  {
    if acc == [] then 0
    else if acc[0].block.id == id then 0
    else 1 + IdIndex(acc[1..], id)
  }

  /**
   * One step of the `blockMap` loop: a result for a new id is added; one for a known id
   * replaces the kept result only when it scores strictly more, in the kept result's place.
   */
  function KeepBest(acc: seq<MatchResult>, x: MatchResult): seq<MatchResult> {
    var k := IdIndex(acc, x.block.id);
    if k == |acc| then acc + [x]
    else if x.score > acc[k].score then acc[k := x]
    else acc
  }

  predicate DistinctIds(rs: seq<MatchResult>) {
    forall i, j :: 0 <= i < j < |rs| ==> rs[i].block.id != rs[j].block.id
  }

  /** Some result in `r` is for block id `id` and scores at least `score`. */
  predicate Covers(r: seq<MatchResult>, id: string, score: int) {
    exists k :: 0 <= k < |r| && r[k].block.id == id && r[k].score >= score
  }

  /** One step keeps ids distinct, takes results only from its inputs, and loses no coverage. */
  lemma KeepBestStep(acc: seq<MatchResult>, x: MatchResult)
    requires DistinctIds(acc)
    ensures var r := KeepBest(acc, x);
      && DistinctIds(r)
      && (forall k :: 0 <= k < |r| ==> r[k] in acc || r[k] == x)
      && Covers(r, x.block.id, x.score)
      && (forall id, score :: Covers(acc, id, score) ==> Covers(r, id, score))
  {
    var r := KeepBest(acc, x);
    var k := IdIndex(acc, x.block.id);
    if k == |acc| {
      assert r[|acc|] == x;
      forall id, score | Covers(acc, id, score) ensures Covers(r, id, score) {
        var q :| 0 <= q < |acc| && acc[q].block.id == id && acc[q].score >= score;
        assert r[q] == acc[q];
      }
    } else {
      assert r[k].block.id == x.block.id && r[k].score >= x.score;
      forall id, score | Covers(acc, id, score) ensures Covers(r, id, score) {
        var q :| 0 <= q < |acc| && acc[q].block.id == id && acc[q].score >= score;
        if q == k {
          assert r[k].block.id == id && r[k].score >= score;
        } else {
          assert r[q] == acc[q];
        }
      }
    }
  }

  /**
   * The `blockMap` loop over `rs`, in key-insertion order: one result per block id, each
   * taken from `rs` and scoring at least as much as every result in `rs` for its block.
   */
  function BestPerBlock(rs: seq<MatchResult>): (r: seq<MatchResult>)
    ensures DistinctIds(r)
    ensures forall k :: 0 <= k < |r| ==> r[k] in rs
    ensures forall i :: 0 <= i < |rs| ==> Covers(r, rs[i].block.id, rs[i].score)
  {
    if rs == [] then []
    else
      var n := |rs| - 1;
      var acc := BestPerBlock(rs[..n]);
      assert forall x :: x in rs[..n] ==> x in rs;
      KeepBestStep(acc, rs[n]);
      var r := KeepBest(acc, rs[n]);
      CoversSnoc(rs, rs[..n], acc, r);
      r
  }

  /** Coverage of a prefix carries over to the step that adds the last result. */
  lemma CoversSnoc(rs: seq<MatchResult>, pre: seq<MatchResult>, acc: seq<MatchResult>, r: seq<MatchResult>)
    requires rs != [] && pre == rs[..|rs| - 1]
    requires forall i :: 0 <= i < |pre| ==> Covers(acc, pre[i].block.id, pre[i].score)
    requires forall id, score :: Covers(acc, id, score) ==> Covers(r, id, score)
    requires Covers(r, rs[|rs| - 1].block.id, rs[|rs| - 1].score)
    ensures forall i :: 0 <= i < |rs| ==> Covers(r, rs[i].block.id, rs[i].score)
  {
    forall i | 0 <= i < |rs| ensures Covers(r, rs[i].block.id, rs[i].score) {
      if i < |rs| - 1 {
        assert pre[i] == rs[i];
        assert Covers(acc, rs[i].block.id, rs[i].score);
      }
    }
  }

  /**
   * `getBestMatchResults`: at most one result per block id; each is a matching pair
   * with the maximum score among the block's matching pairs, and every block with a
   * matching mapping has one.
   */
  function GetBestMatchResults(blocks: seq<Block>, mappings: seq<Mapping>, test: (string, string) -> bool)
    : (r: seq<MatchResult>)
    ensures DistinctIds(r)
    ensures forall k :: 0 <= k < |r| ==> IsPair(r[k], blocks, mappings, test)
    ensures forall i, j :: 0 <= i < |blocks| && 0 <= j < |mappings| && Matches(blocks[i], mappings[j].rule, test) ==>
      Covers(r, blocks[i].id, CalculateMatchScore(blocks[i], mappings[j], test))
  {
    var all := GetAllMatchResults(blocks, mappings, test);
    var r := BestPerBlock(all);
    AllResultsArePairs(blocks, mappings, test);
    BestCovers(blocks, mappings, test, all, r);
    r
  }

  /** The sorted results are exactly the matching pairs. */
  lemma AllResultsArePairs(blocks: seq<Block>, mappings: seq<Mapping>, test: (string, string) -> bool)
    ensures var all := GetAllMatchResults(blocks, mappings, test);
      && (forall x :: x in all ==> IsPair(x, blocks, mappings, test))
      && (forall i, j :: 0 <= i < |blocks| && 0 <= j < |mappings| && Matches(blocks[i], mappings[j].rule, test) ==>
            MatchResult(mappings[j], blocks[i], CalculateMatchScore(blocks[i], mappings[j], test)) in all)
  {
    var all := GetAllMatchResults(blocks, mappings, test);
    var pairs := AllPairs(blocks, mappings, test);
    SameMembers(all, pairs);
    forall x | x in all ensures IsPair(x, blocks, mappings, test) {
      var q :| 0 <= q < |pairs| && pairs[q] == x;
    }
  }

  /** A list covering every result covers every matching pair that is among them. */
  lemma BestCovers(blocks: seq<Block>, mappings: seq<Mapping>, test: (string, string) -> bool, all: seq<MatchResult>, r: seq<MatchResult>)
    requires forall i, j :: 0 <= i < |blocks| && 0 <= j < |mappings| && Matches(blocks[i], mappings[j].rule, test) ==>
      MatchResult(mappings[j], blocks[i], CalculateMatchScore(blocks[i], mappings[j], test)) in all
    requires forall i :: 0 <= i < |all| ==> Covers(r, all[i].block.id, all[i].score)
    ensures forall i, j :: 0 <= i < |blocks| && 0 <= j < |mappings| && Matches(blocks[i], mappings[j].rule, test) ==>
      Covers(r, blocks[i].id, CalculateMatchScore(blocks[i], mappings[j], test))
  {
    forall i, j | 0 <= i < |blocks| && 0 <= j < |mappings| && Matches(blocks[i], mappings[j].rule, test)
      ensures Covers(r, blocks[i].id, CalculateMatchScore(blocks[i], mappings[j], test))
    {
      var x := MatchResult(mappings[j], blocks[i], CalculateMatchScore(blocks[i], mappings[j], test));
      var q :| 0 <= q < |all| && all[q] == x;
    }
  }
}
