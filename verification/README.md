# A verified model of the semiconductor course site's logic

The repository is a teaching website about semiconductors: a Next.js front end, a plain
JavaScript page script, and a small FastAPI back end serving material and device data. This
project models in Dafny the parts of it that are sequential logic rather than rendering, and
proves properties of that model:

- the content pipeline: the Markdown block splitter with inline `[component:Name](k:v)`
  insertions, deduplication and merging (`ContentAnalyzer`); the rule engine that maps
  blocks to components (`MatcherEngine`); the MDX heading/section processor and id generator
  (`MdxProcessor`); the chapter-config deep merge and cache (`ConfigLoader`); chapter ordering
  and previous/next navigation (`ChapterContent`); CJK/Latin spacing (`TextSpacing`);
- the back end's catalog lookups and formulas (`Catalog`, `Devices`, `Materials`);
- the user-interface state machines: the sync highlight provider (`SyncSystem`), keyboard
  navigation and heading ids (`Accessibility`), the page script's MOSFET demo, zoom and
  sidebar states (`SiteScript`), the AI assistant (`AiAssistant`), the search box
  (`Search`), the dashboard helpers (`Dashboard`), the chapter-number helper
  (`ChapterNumber`), the chapter manager (`ChapterManager`), the bento grid (`BentoGrid`),
  the font-size control (`FontSize`) and the theme toggle (`Theme`).

Shared helpers live in `Wrappers` (`Option`, `Result`), `Text` (JavaScript whitespace,
trimming, lower-casing, substring search, splitting, decimal printing, `parseInt`,
`Math.round`), `Numbers` (`Math.min`/`Math.max`), `JsObject` (the member names every plain
JavaScript object inherits from `Object.prototype`, which lookups by slug and prop
assignments run into) and `Sorting` (a stable insertion sort, which is what
`Array.prototype.sort` promises, and a first-match search).

Strings are sequences of code points; numbers are Dafny `int` or `real`, with JavaScript's
remainder, rounding and truncation written out where the code uses them. Identifiers made
from the clock or from `Math.random`, the `exp` function, regular-expression tests taken from
configuration files, the file system and storage are parameters of the operations that use
them.

## Model

| member | source | states |
|---|---|---|
| ContentAnalyzer.MatchComponentAt | src/lib/contentAnalyzer.ts:96-97 | the insertion pattern matches at an index only where the tag `[component:` starts, with the name running to the first `]` and the props to the first `)` |
| ContentAnalyzer.FindComponentLeftmost | src/lib/contentAnalyzer.ts:96-99 | the search finds the leftmost index where the pattern matches, and reports no match (null) only when it matches nowhere |
| ContentAnalyzer.MatchAt | src/lib/contentAnalyzer.ts:96 | conversely, the pattern matches wherever the tag, a name free of `]`, `](`, props free of `)` and `)` follow each other |
| ContentAnalyzer.MatchRenderedAt | src/lib/contentAnalyzer.ts:96 | the pattern matches the insertion syntax inside any text, ending at the name's `]` and at the final `)` |
| ContentAnalyzer.MatchRenderedIn | src/lib/contentAnalyzer.ts:96 | wherever a text holds the insertion syntax, the pattern matches there, ending at the name's `]` and at the final `)` |
| ContentAnalyzer.InsertionInRendered | src/lib/contentAnalyzer.ts:96-102 | an insertion yields its name and props text, each trimmed |
| ContentAnalyzer.ParseTrimmedLine | src/lib/contentAnalyzer.ts:93 | trimming a line with no whitespace at either end changes nothing |
| ContentAnalyzer.ParseRenderedInsertion | src/lib/contentAnalyzer.ts:91-133 | a well-formed insertion line parses back to its name and its parsed props |
| ContentAnalyzer.InsertionNeedsTag | src/lib/contentAnalyzer.ts:96-156 | an insertion is only ever found in a line containing `[component:`, so the splitter's pre-test loses nothing |
| ContentAnalyzer.PairEntryShape | src/lib/contentAnalyzer.ts:112-113 | a pair yields an entry only when it holds a `:` and both key and value are non-empty, the key trimmed |
| ContentAnalyzer.PairEntryRendered | src/lib/contentAnalyzer.ts:109-128 | a pair written `key:value` reads back as that key with the converted value |
| ContentAnalyzer.AddEntries | src/lib/contentAnalyzer.ts:111-129 | the props object has exactly the keys of the accepted pairs, except `__proto__`, whose accessor ignores the primitive assigned to it |
| ContentAnalyzer.AddEntriesLastWins | src/lib/contentAnalyzer.ts:127 | a later pair with the same key overwrites an earlier one; a `__proto__` pair changes nothing |
| ContentAnalyzer.ProtoPropDropped | src/lib/contentAnalyzer.ts:105-127 | whatever the props text, the parsed props never hold a `__proto__` key |
| ContentAnalyzer.Entries | src/lib/contentAnalyzer.ts:109 | the props text is split at every comma and each pair trimmed before it is read |
| ContentAnalyzer.NotNumberString | src/lib/contentAnalyzer.ts:116 | text that cannot start a numeral is not taken for a number |
| ContentAnalyzer.ConvertQuoted | src/lib/contentAnalyzer.ts:122-126 | a value in double or single quotes becomes the text between them |
| ContentAnalyzer.LowerToLetter | src/lib/contentAnalyzer.ts:118-121 | only `t`/`T` and `f`/`F` lower-case to the first letter of true/false |
| ContentAnalyzer.ConvertBoolean | src/lib/contentAnalyzer.ts:118-121 | `true` and `false` in any letter case become booleans |
| ContentAnalyzer.HeadingLevel | src/lib/contentAnalyzer.ts:177-184 | a heading line has 1 to 6 leading `#` followed by whitespace, and its level is that count |
| ContentAnalyzer.HeadingRendered | src/lib/contentAnalyzer.ts:177-185 | 1 to 6 hashes and a whitespace character give that level, and the title is what follows |
| ContentAnalyzer.TooManyHashes | src/lib/contentAnalyzer.ts:177 | seven or more leading hashes are not a heading |
| ContentAnalyzer.Classify | src/lib/contentAnalyzer.ts:152-289 | every classified heading line carries a level in 1..6 |
| ContentAnalyzer.HeadingLineBlock | src/lib/contentAnalyzer.ts:177-193 | a heading line closes the open block and adds a heading block of its level holding the text after the prefix |
| ContentAnalyzer.SplitContentIntoBlocks | src/lib/contentAnalyzer.ts:136-298 | every block is well formed: headings, and only they, carry a level; components, and only they, an insertion |
| ContentAnalyzer.StepAsKeepsInvariant | src/lib/contentAnalyzer.ts:142-290 | one line of any class keeps the splitter's invariant |
| ContentAnalyzer.StepKeepsInvariant | src/lib/contentAnalyzer.ts:142-290 | one line keeps the splitter's invariant |
| ContentAnalyzer.RunKeepsInvariant | src/lib/contentAnalyzer.ts:142-295 | any run of lines keeps the splitter's invariant |
| ContentAnalyzer.CodeAbsorbs | src/lib/contentAnalyzer.ts:145-149 | once a fence opens a code block every later line, the closing fence included, is appended to it and no other block is started |
| ContentAnalyzer.BlankLineClass | src/lib/contentAnalyzer.ts:267 | a whitespace-only line is a blank line and nothing else |
| ContentAnalyzer.BlankLineCloses | src/lib/contentAnalyzer.ts:267-272 | a blank line finishes the open block unless it is code |
| ContentAnalyzer.StepAsContinues | src/lib/contentAnalyzer.ts:234-277 | a paragraph, list or quote line extends an open block of its kind |
| ContentAnalyzer.StepAsOpens | src/lib/contentAnalyzer.ts:237-288 | otherwise it finishes the open block and starts a block of its kind |
| ContentAnalyzer.ContinueBlock | src/lib/contentAnalyzer.ts:233-289 | lines of one class keep extending an open block of their kind |
| ContentAnalyzer.ConsecutiveLinesJoin | src/lib/contentAnalyzer.ts:233-289 | consecutive paragraph, list or quote lines form one block whose content is the lines joined by line feeds |
| ContentAnalyzer.MergeAdjacentBlocks | src/lib/contentAnalyzer.ts:301-319 | merging never lengthens the list, returns lists of at most one block unchanged, and leaves no two neighbours of one mergeable kind |
| ContentAnalyzer.MergeKeepsUnmergeables | src/lib/contentAnalyzer.ts:311 | merging never touches heading or component blocks nor their order |
| ContentAnalyzer.MergeKeepsAllText | src/lib/contentAnalyzer.ts:311-312 | merged contents are joined with a blank line, so all the text is kept in order |
| ContentAnalyzer.MergeUnchanged | src/lib/contentAnalyzer.ts:306-316 | blocks with no mergeable neighbours are left as they are |
| ContentAnalyzer.MergeIdempotent | src/lib/contentAnalyzer.ts:301-319 | merging twice is merging once |
| ContentAnalyzer.DedupeNames | src/lib/contentAnalyzer.ts:331-345 | deduplication keeps every component name of the input, adds none, and keeps each name once |
| ContentAnalyzer.InNameList | src/lib/contentAnalyzer.ts:335 | a name is in the name list exactly when a named component block carries it |
| ContentAnalyzer.KeptAtIff | src/lib/contentAnalyzer.ts:337-340 | a named block survives exactly when no earlier block has its name |
| ContentAnalyzer.DedupeKeepsFirst | src/lib/contentAnalyzer.ts:334-345 | deduplication keeps exactly the first block of each name and every other block, in order |
| ContentAnalyzer.DedupeKeepsUnnamed | src/lib/contentAnalyzer.ts:341-344 | a block that is not a named component is still there after deduplication |
| ContentAnalyzer.BacktickedAt | src/lib/contentAnalyzer.ts:325 | the backtick pattern matches only between two backticks |
| ContentAnalyzer.Unquote | src/lib/contentAnalyzer.ts:325 | unquoting removes backticks and nothing else |
| ContentAnalyzer.UnquoteNoBackticks | src/lib/contentAnalyzer.ts:325 | text without backticks is left unchanged |
| ContentAnalyzer.UnquoteRendered | src/lib/contentAnalyzer.ts:325 | a backticked insertion loses exactly its two backticks |
| ContentAnalyzer.UnquotePlainStretch | src/lib/contentAnalyzer.ts:325 | a stretch where no backticked insertion starts is copied unchanged, backticks included |
| ContentAnalyzer.UnquoteKeepsOtherText | src/lib/contentAnalyzer.ts:325 | text with no backticked insertion is left exactly as it is |
| ContentAnalyzer.UnquoteInlineCode | src/lib/contentAnalyzer.ts:325 | ordinary inline code such as `` `x` `` keeps its backticks |
| ContentAnalyzer.AnalyzeContent | src/lib/contentAnalyzer.ts:322-365 | the analysis yields well-formed blocks, each component name at most once, and no two neighbours of one mergeable kind |
| ContentAnalyzer.DedupeWellFormed | src/lib/contentAnalyzer.ts:331-345 | deduplication keeps blocks well formed |
| ContentAnalyzer.MergeWellFormed | src/lib/contentAnalyzer.ts:348-362 | merging keeps blocks well formed |
| ContentAnalyzer.AnalyzeKeepsNames | src/lib/contentAnalyzer.ts:328-362 | the analysis keeps the first occurrence of each component name of the split blocks, in order |
| MatcherEngine.KeywordsIn | src/lib/contentMapping/matcherEngine.ts:54 | the filtered keywords are exactly the rule's keywords the content contains |
| MatcherEngine.KeywordsInCounts | src/lib/contentMapping/matcherEngine.ts:116-117 | the filter keeps repeats: each contained keyword appears as often as in the rule's list, which is what the keyword score counts |
| MatcherEngine.AndDecides | src/lib/contentMapping/matcherEngine.ts:26-28 | a non-empty AND list matches exactly when every sub-rule matches, whatever the rule's type, OR list or NOT rule |
| MatcherEngine.OrDecides | src/lib/contentMapping/matcherEngine.ts:31-33 | without an AND list, a non-empty OR list matches exactly when some sub-rule matches |
| MatcherEngine.NotNegates | src/lib/contentMapping/matcherEngine.ts:36-38 | without AND and OR lists, NOT negates its sub-rule whatever the rule's type |
| MatcherEngine.NotNot | src/lib/contentMapping/matcherEngine.ts:36-38 | a doubly negated rule matches exactly when the rule does |
| MatcherEngine.DeMorgan | src/lib/contentMapping/matcherEngine.ts:26-38 | NOT of an AND matches exactly when the OR of the negated sub-rules does |
| MatcherEngine.BaseRuleMeaning | src/lib/contentMapping/matcherEngine.ts:41-75 | a heading rule matches heading blocks containing its non-empty text; a keywords rule needs some keyword (never with none); a content-type rule the block's type; a regex rule its pattern; a default rule every block; an unknown type no block |
| MatcherEngine.FirstMatching | src/lib/contentMapping/matcherEngine.ts:14-20 | the loop returns a mapping of the list whose rule matches |
| MatcherEngine.FirstMatchingIsFindFirst | src/lib/contentMapping/matcherEngine.ts:14-20 | the loop returns the first matching mapping, or null when none matches |
| MatcherEngine.MatchContentBlock | src/lib/contentMapping/matcherEngine.ts:7-21 | the chosen mapping is one of the mappings and its rule matches |
| MatcherEngine.MatchContentBlockPicksBest | src/lib/contentMapping/matcherEngine.ts:7-21 | null exactly when no mapping matches; otherwise a matching mapping of the highest priority (missing counts as 0), the earliest listed among equals |
| MatcherEngine.BuildMap | src/lib/contentMapping/matcherEngine.ts:83-90 | after the loop, an id has an entry exactly when it has a last choice, and the entry is that choice |
| MatcherEngine.LastChoiceMeaning | src/lib/contentMapping/matcherEngine.ts:85-90 | an id's last choice is absent exactly when no block with the id has a choice, and otherwise belongs to the block with the id after which none has one |
| MatcherEngine.BlockMapEntry | src/lib/contentMapping/matcherEngine.ts:79-93 | an id has an entry exactly when some block with the id has a chosen mapping, and a later block's choice overwrites an earlier one |
| MatcherEngine.BlockMapKeys | src/lib/contentMapping/matcherEngine.ts:85-90 | a block id has an entry exactly when some mapping matches a block with that id |
| MatcherEngine.CalculateMatchScore | src/lib/contentMapping/matcherEngine.ts:96-139 | the score is the priority plus a bonus of 0, 50, 80 or 100, or ten per contained keyword for a keywords rule |
| MatcherEngine.ScoreRewardsMatch | src/lib/contentMapping/matcherEngine.ts:100-131 | for a scoring base rule the score exceeds the priority exactly when the rule matches; an exact heading earns 100 and each contained keyword 10 |
| MatcherEngine.ResultsFor | src/lib/contentMapping/matcherEngine.ts:149-157 | one block's results are exactly its matching mappings, in mapping order, with their scores |
| MatcherEngine.AllPairs | src/lib/contentMapping/matcherEngine.ts:148-158 | the results are exactly the matching block and mapping pairs |
| MatcherEngine.GetAllMatchResults | src/lib/contentMapping/matcherEngine.ts:142-162 | the sorted results are a permutation of the matching pairs, by non-increasing score |
| MatcherEngine.IdIndex | src/lib/contentMapping/matcherEngine.ts:173-174 | the lookup finds the kept result for a block id, if any |
| MatcherEngine.KeepBestStep | src/lib/contentMapping/matcherEngine.ts:172-177 | one step keeps one result per id, takes results only from its input and loses no coverage |
| MatcherEngine.BestPerBlock | src/lib/contentMapping/matcherEngine.ts:169-179 | the map holds one result per block id, each from the input and scoring at least as much as every input result for its block |
| MatcherEngine.GetBestMatchResults | src/lib/contentMapping/matcherEngine.ts:165-180 | at most one result per block id, each a matching pair with the block's maximum score, and every block with a matching mapping has one |
| MdxProcessor.GenerateId | src/lib/mdxProcessorServer.ts:18-23 | an id holds only a-z, 0-9 and `-` |
| MdxProcessor.DashRunsLetters | src/lib/mdxProcessorServer.ts:21 | turning whitespace runs into `-` loses no other character |
| MdxProcessor.GenerateIdLetters | src/lib/mdxProcessorServer.ts:18-23 | without its dashes an id is exactly the lower-cased text's ASCII letters and digits, in order |
| MdxProcessor.GenerateIdOfHan | src/lib/mdxProcessorServer.ts:18-23 | a title written only in CJK ideographs gets the empty id |
| MdxProcessor.LineEnd | src/lib/mdxProcessorServer.ts:52-56 | `$` with the `m` flag: the end of a line is the next line terminator or the end of the text |
| MdxProcessor.LineEndAt | src/lib/mdxProcessorServer.ts:52-56 | the line end is the unique such position |
| MdxProcessor.LineMatchAt | src/lib/mdxProcessorServer.ts:52-56 | a `^prefix(.+)$` match starts at a line start with the prefix and a non-empty rest of the line |
| MdxProcessor.FindLineMatch | src/lib/mdxProcessorServer.ts:52-53 | `exec` finds the leftmost match, and none only when the pattern matches nowhere |
| MdxProcessor.InsideMatch | src/lib/mdxProcessorServer.ts:56 | no position inside a matched line is a line start |
| MdxProcessor.NoMatchInside | src/lib/mdxProcessorServer.ts:60 | matches cannot overlap, so the global `exec` loop loses nothing by resuming after a match |
| MdxProcessor.LineMatches | src/lib/mdxProcessorServer.ts:56-67 | the `exec` loop yields matches in increasing order of position |
| MdxProcessor.LineMatchesComplete | src/lib/mdxProcessorServer.ts:56-67 | every line the pattern fits is among the matches |
| MdxProcessor.LineMatchesNext | src/lib/mdxProcessorServer.ts:81-88 | the next match in the list is the next match in the text |
| MdxProcessor.MatchIndex | src/lib/mdxProcessorServer.ts:81-88 | each matching line is in the list, its title the rest of the line and its body the trimmed text up to the next match |
| MdxProcessor.LastNonTerminator | src/lib/mdxProcessorServer.ts:30 | the backtracking point of `.+` is the last character that is not a line terminator |
| MdxProcessor.HeadingAt | src/lib/mdxProcessorServer.ts:30 | a heading match starts at a line start with 1 to 6 `#` and whitespace, and its text is a non-empty run without line terminators |
| MdxProcessor.FindHeadingLeftmost | src/lib/mdxProcessorServer.ts:30-33 | `exec` finds the leftmost heading match, and none only when there is none |
| MdxProcessor.HeadingMatches | src/lib/mdxProcessorServer.ts:33-43 | the heading matches come in source order |
| MdxProcessor.ExtractToc | src/lib/mdxProcessorServer.ts:26-46 | one entry per heading match, in order, with level the count of `#` in 1..6, the trimmed text, and `generateId` of the text as id |
| MdxProcessor.HeadingLineMatches | src/lib/mdxProcessorServer.ts:30-36 | a heading line written as intended is matched with its level and the rest of the line as its text |
| MdxProcessor.EmptyHeadingTakesNextLine | src/lib/mdxProcessorServer.ts:30 | a heading with no text on its line takes the next line, since `\s+` can cross a line break |
| MdxProcessor.SplitWs | src/lib/mdxProcessorServer.ts:201 | splitting on whitespace runs always gives at least one piece |
| MdxProcessor.JoinCapitalizedSplit | src/lib/mdxProcessorServer.ts:201-203 | splitting on whitespace and joining the capitalised pieces is the one-pass camel case |
| MdxProcessor.CamelFromLetters | src/lib/mdxProcessorServer.ts:201-203 | camel case drops the whitespace and changes nothing else but letter case |
| MdxProcessor.ComponentName | src/lib/mdxProcessorServer.ts:199-208 | a subsection always has a non-empty component name |
| MdxProcessor.ComponentNameMeaning | src/lib/mdxProcessorServer.ts:199-208 | a title without ASCII letters or digits gets `MainContent`; otherwise the name is those letters and digits in order, each word capitalised |
| MdxProcessor.ComponentNameOfHan | src/lib/mdxProcessorServer.ts:199-208 | titles in CJK ideographs all get `MainContent` |
| MdxProcessor.ProcessMainContent | src/lib/mdxProcessorServer.ts:166-213 | one subsection per `### ` line, in order |
| MdxProcessor.ProcessMainContentEmptyIff | src/lib/mdxProcessorServer.ts:183-186 | there are no subsections exactly when the text has no `### ` line |
| MdxProcessor.SubsectionPerHeading | src/lib/mdxProcessorServer.ts:189-210 | every `### ` line gives a subsection titled with the rest of its line, holding the trimmed text up to the next `### ` line |
| MdxProcessor.SectionOutput | src/lib/mdxProcessorServer.ts:117-159 | every `##` heading contributes at least one section |
| MdxProcessor.SectionComponentOf | src/lib/mdxProcessorServer.ts:91-159 | a title other than `正文` gives one section whose component is `default` exactly when the title is not listed, and the listed one otherwise; `正文` expands into its subsections, or one `MainContent` section without any |
| MdxProcessor.Outputs | src/lib/mdxProcessorServer.ts:81-160 | each `##` match contributes its sections, in order |
| MdxProcessor.SplitIsHeadAndFlatten | src/lib/mdxProcessorServer.ts:49-163 | the result is the chapter title section, if any, followed by the sections of each `##` match |
| MdxProcessor.ChapterTitleFirst | src/lib/mdxProcessorServer.ts:52-78 | a chapter title section with empty content comes first exactly when the text has a `# ` line |
| MdxProcessor.SectionPerHeading | src/lib/mdxProcessorServer.ts:81-160 | every `## ` line contributes its sections as one run of the result, with the body being the trimmed text up to the next `## ` line |
| MdxProcessor.SectionCount | src/lib/mdxProcessorServer.ts:49-163 | without a `正文` title there is exactly one section per `## ` line, plus the chapter title when there is one |
| ConfigLoader.DeepMerge | src/lib/contentMapping/configLoader.ts:48-79 | the merged object has the target's keys plus the source's keys with a defined value |
| ConfigLoader.MergeKeepsTargetOnly | src/lib/contentMapping/configLoader.ts:49-52 | a key only the target has keeps its value |
| ConfigLoader.MergeNestedObjects | src/lib/contentMapping/configLoader.ts:57-60 | two plain objects under one key are merged recursively |
| ConfigLoader.MergeArrays | src/lib/contentMapping/configLoader.ts:63-69 | two arrays under one key are concatenated target-first, except `componentMappings`, which goes source-first |
| ConfigLoader.MergeReplaces | src/lib/contentMapping/configLoader.ts:71-73 | any other defined source value replaces the target's; an undefined one leaves the target's value (or the key absent) |
| ConfigLoader.MergeEmptySource | src/lib/contentMapping/configLoader.ts:48-79 | merging an empty source changes nothing |
| ConfigLoader.Defined | src/lib/contentMapping/configLoader.ts:72 | dropping the undefined values keeps every other key and value |
| ConfigLoader.MergeIntoEmpty | src/lib/contentMapping/configLoader.ts:48-79 | merging into an empty object copies the source without its undefined values |
| ConfigLoader.IndexKeys | src/lib/contentMapping/configLoader.ts:51-52 | `for…in` with `hasOwnProperty` over an array or a string visits exactly the indices "0", "1", …, each with its element |
| ConfigLoader.ChapterSourceEmpty | src/lib/contentMapping/configLoader.ts:88 | once a falsy default export is replaced by `{}`, the merge sees no key exactly when the export is a falsy value, `true`, a number, `""`, `[]` or `{}` |
| ConfigLoader.LoadFallsBackToDefault | src/lib/contentMapping/configLoader.ts:82-97 | a failed import, or a default export with no keys of its own, gives the default configuration |
| ConfigLoader.MergeByIndex | src/lib/contentMapping/configLoader.ts:48-79 | merging values by index into a configuration without index keys keeps all its keys and adds each defined value under its index |
| ConfigLoader.LoadIndexedExport | src/lib/contentMapping/configLoader.ts:82-97 | an array default export keeps every default key and adds each defined element under its index |
| ConfigLoader.LoadStringExport | src/lib/contentMapping/configLoader.ts:82-97 | a string default export such as "ab" keeps every default key and adds its characters under "0", "1", … |
| ConfigLoader.LoadedMappingsFirst | src/lib/contentMapping/configLoader.ts:65-91 | a chapter's own component mappings come ahead of the default ones |
| ConfigLoader.LoadKeepsUnmentionedDefaults | src/lib/contentMapping/configLoader.ts:49-91 | a default key the chapter does not mention keeps its default value |
| ConfigLoader.GetChapterConfig | src/lib/contentMapping/configLoader.ts:103-116 | a slug naming an `Object.prototype` member is answered with that member and nothing is stored; any other slug's configuration is stored under it; no other cache entry changes, and the cache never gains an inherited name |
| ConfigLoader.GetChapterConfigCached | src/lib/contentMapping/configLoader.ts:103-116 | a first request for an ordinary slug loads the configuration, one for an inherited member name returns it with the cache unchanged, and asking again for the same slug returns the same answer and cache |
| ConfigLoader.ConstructorIsInherited | src/lib/contentMapping/configLoader.ts:100-107 | the slug "constructor" is answered by the inherited `Object` without loading or caching |
| ChapterContent.Keys | src/lib/content.ts:119 | the keys of the slug map, in insertion order |
| ChapterContent.Lookup | src/lib/content.ts:19 | a lookup finds the value stored under the key, and nothing exactly when the key is not in the map |
| ChapterContent.MappedSlugMeaning | src/lib/content.ts:8-19 | a known slug becomes its file slug; an unknown slug is used as it is unless it names an `Object.prototype` member, which is exactly when the lookup gives no string |
| ChapterContent.InheritedSlugHasNoFile | src/lib/content.ts:16-64 | for a slug naming an inherited member, `includes` on the non-string throws inside the `try`, so no file is found whatever is readable |
| ChapterContent.CandidatePaths | src/lib/content.ts:22-36 | four paths are always tried, with two more for slugs containing `/` |
| ChapterContent.FirstReadable | src/lib/content.ts:39-47 | the file read is the first readable candidate, and none is found only when no candidate can be read |
| ChapterContent.FirstReadableAt | src/lib/content.ts:39-47 | the first readable candidate is the one found |
| ChapterContent.ChapterFileBasicCandidates | src/lib/content.ts:22-47 | whenever the mapped slug is a string, the two extra paths repeat the first two, so the outcome depends only on the four basic candidates |
| ChapterContent.CandidatesBasic | src/lib/content.ts:22-47 | for any mapped slug the two repeated paths never change which candidate is found first |
| ChapterContent.RemoveFirst | src/lib/content.ts:123-124 | replacing a string pattern with nothing removes its first occurrence only, and changes nothing without one |
| ChapterContent.RemoveFirstAtStart | src/lib/content.ts:123-124 | a leading `part` or `ch` is removed |
| ChapterContent.ParseSlugOf | src/lib/content.ts:121-126 | `part<p>/ch<c>` parses to the part and chapter numbers |
| ChapterContent.SlugLeTotalPreorder | src/lib/content.ts:119-135 | the comparator by part, then chapter, is a total preorder, so the sort is well defined |
| ChapterContent.ChapterOrderMeaning | src/lib/content.ts:118-136 | the order is a permutation of the slug map's keys, sorted by part number and then chapter number |
| ChapterContent.NoDupsPermutation | src/lib/content.ts:118-136 | a rearrangement of a list without repeats has none |
| ChapterContent.ChapterOrderNoDups | src/lib/content.ts:118-136 | the chapter order lists no slug twice |
| ChapterContent.IndexIn | src/lib/content.ts:141 | `indexOf` gives the first position of the slug, and -1 exactly when it is absent |
| ChapterContent.NavigationUnknown | src/lib/content.ts:143-145 | an unknown slug has neither a previous nor a next chapter |
| ChapterContent.NavigationNeighbours | src/lib/content.ts:147-150 | a chapter's neighbours are the adjacent entries of the order; there is no previous chapter exactly for the first and no next one exactly for the last |
| ChapterContent.NavigationRoundTrip | src/lib/content.ts:147-150 | going to the next chapter and then back returns to the start |
| ChapterContent.ChapterNavigationNeighbours | src/lib/content.ts:139-151 | navigation in the site's chapter order has those neighbour properties |
| TextSpacing.EnglishIsAsciiAlnum | src/utils/textSpacing.ts:31-38 | `isEnglishChar` holds exactly for ASCII letters and digits |
| TextSpacing.ClassesDisjoint | src/utils/textSpacing.ts:11-38 | no character is both Chinese and English, and the space is neither |
| TextSpacing.ChineseUnitRanges | src/utils/textSpacing.ts:11-24 | on a UTF-16 code unit only the basic, Extension A, CJK punctuation and full-width ranges can hold |
| TextSpacing.AddSpacing | src/utils/textSpacing.ts:45-81 | the loop builds exactly the spaced text: each character, followed by a space where it and the next one form a CJK/Latin boundary |
| TextSpacing.BoundariesMonotone | src/utils/textSpacing.ts:61-73 | the count of boundaries before a position never decreases |
| TextSpacing.SpacedLength | src/utils/textSpacing.ts:45-81 | the output's length is the input's plus the number of boundaries |
| TextSpacing.SpacedKeeps | src/utils/textSpacing.ts:57 | every input character keeps its order, at its position shifted by the spaces before it |
| TextSpacing.SpacedInserts | src/utils/textSpacing.ts:61-73 | a space follows each character that ends a CJK-to-Latin or Latin-to-CJK boundary |
| TextSpacing.SpacedLayout | src/utils/textSpacing.ts:45-81 | deleting the inserted spaces gives back the input, and spaces are inserted at the boundaries and nowhere else |
| TextSpacing.SpacedNoBoundary | src/utils/textSpacing.ts:61-73 | the output has no boundary left |
| TextSpacing.SpacedNoBoundaryUnchanged | src/utils/textSpacing.ts:45-81 | a text with no boundary comes out unchanged |
| TextSpacing.SpacedIdempotent | src/utils/textSpacing.ts:11-73 | spacing twice is spacing once, since the inserted space is in neither class |
| TextSpacing.AddSpacingBetweenZhEnMeaning | src/utils/textSpacing.ts:45-81 | on the code units the function reads: empty gives empty, the layout above, no boundary left, and idempotence |
| TextSpacing.ExtensionBNotSpaced | src/utils/textSpacing.ts:12-49 | as written, an Extension B ideograph followed by `a` gets no space, because it is split into two surrogates |
| TextSpacing.AddSpacingCodePointsMeaning | src/utils/textSpacing.ts:11-81 | on whole code points the spacing has the same layout, leaves no boundary and is idempotent |
| TextSpacing.ExtensionBSpaced | src/utils/textSpacing.ts:16 | on whole code points, an Extension B ideograph followed by `a` gets its space |
| Catalog.FirstMatch | backend/app/routers/devices.py:71-73 | the scan finds the first record whose lower-cased name contains the lower-cased query, and none only when no record does |
| Catalog.Find | backend/app/routers/devices.py:71-75 | a miss returns the error message instead of a record |
| Catalog.FindFirst | backend/app/routers/materials.py:76-78 | the lookup returns record `i` when it is the first whose name contains the query |
| Catalog.FindMeaning | backend/app/routers/materials.py:76-80 | a found record contains the query and every earlier one does not; a miss means no record contains it |
| Catalog.FindEmptyQuery | backend/app/routers/devices.py:72 | every name contains the empty query, so it finds the first record |
| Devices.GetDevice | backend/app/routers/devices.py:66-75 | a found device is in the list and contains the query ignoring case; "Device not found" exactly when none does |
| Devices.GetDeviceEmptyQuery | backend/app/routers/devices.py:66-73 | the empty query returns the first device |
| Devices.GetDeviceFirst | backend/app/routers/devices.py:71-73 | the query returns the first device whose name contains it |
| Devices.Linspace | backend/app/routers/devices.py:114-141 | `linspace` gives the requested number of points |
| Devices.LinspaceEnds | backend/app/routers/devices.py:114-141 | the first and last points are the two bounds |
| Devices.BjtCurveAt | backend/app/routers/devices.py:118-124 | a BJT curve has one collector current per voltage |
| Devices.MosfetCurveAt | backend/app/routers/devices.py:144-157 | a MOSFET curve has one drain current per voltage |
| Devices.TransistorCharacteristics | backend/app/routers/devices.py:101-164 | the reported device type is the requested one, MOSFET by default |
| Devices.TransistorBranch | backend/app/routers/devices.py:104-131 | only the exact type "BJT" takes the BJT branch; a missing or any other type takes the MOSFET branch |
| Devices.BjtFamily | backend/app/routers/devices.py:106-130 | five curves over the same hundred voltages, at the evenly spaced base currents, with the collector current at Vce = 0 equal to beta times the base current |
| Devices.BjtEarlyLine | backend/app/routers/devices.py:119 | along a curve the collector current is the straight line beta Ib (1 + Vce/100) |
| Devices.MosfetFamily | backend/app/routers/devices.py:131-164 | five curves at evenly spaced gate voltages over the same hundred drain voltages, reporting the threshold and k used |
| Devices.MosfetOff | backend/app/routers/devices.py:145-151 | at or below the threshold a curve is all zeros |
| Devices.MosfetCapped | backend/app/routers/devices.py:146-149 | above the threshold no point exceeds the saturation current k (Vgs - Vth)^2 / 2 |
| Devices.MosfetCapInactive | backend/app/routers/devices.py:146-149 | for k >= 0 the triode parabola never exceeds its peak, the saturation current, so the cap changes no point |
| Devices.MosfetNegativeBeyond | backend/app/routers/devices.py:146-149 | there is no lower clamp: past Vds = 2 (Vgs - Vth) the current is negative |
| Materials.GetMaterial | backend/app/routers/materials.py:71-80 | a found material is in the list and contains the query ignoring case; "Material not found" exactly when none does |
| Materials.GetMaterialSilicon | backend/app/routers/materials.py:21-77 | the query "si" finds silicon, the first record |
| Materials.GetMaterialEmptyQuery | backend/app/routers/materials.py:76-78 | the empty query returns the first material |
| Materials.CalculateProperties | backend/app/routers/materials.py:82-125 | a computed result reports the requested type and temperature (semiconductor and 300 K by default), and its conductivity and resistivity are reciprocal |
| Materials.UnknownTypeIsInsulator | backend/app/routers/materials.py:89-125 | any type other than semiconductor or metal is computed as an insulator |
| Materials.MetalBranch | backend/app/routers/materials.py:102-113 | metal resistivity is r300 (1 + alpha (T - 300)), equal to r300 at 300 K, with conductivity its reciprocal, and the division fails where the line reaches zero |
| Materials.MetalLinear | backend/app/routers/materials.py:106 | two temperatures differ in resistivity by r300 alpha (T2 - T1) |
| Materials.MetalDefaultsFailAt50K | backend/app/routers/materials.py:104-112 | with the default coefficients a metal at 50 K divides by zero |
| Materials.SemiconductorBranch | backend/app/routers/materials.py:89-101 | semiconductor conductivity uses the fixed mobility sum 1400 + 450, silicon's, whatever the band gap, and resistivity is its reciprocal |
| Materials.ZeroDivisionOnlyAtZero | backend/app/routers/materials.py:93-118 | the semiconductor and insulator branches raise ZeroDivisionError only at zero kelvin |
| SyncSystem.Register | src/components/templates/SyncSystem.tsx:67-69 | registering stores the item under its id, replacing any earlier one; other items and the highlight state are unchanged |
| SyncSystem.Unregister | src/components/templates/SyncSystem.tsx:72-90 | unregistering removes the id; the state is cleared exactly when the id was active or hovered, and kept otherwise |
| SyncSystem.SetActive | src/components/templates/SyncSystem.tsx:93-111 | a null or empty id clears the state; an unregistered id changes nothing; a registered one becomes active, with no hover and its related ids |
| SyncSystem.SetHovered | src/components/templates/SyncSystem.tsx:114-134 | the active id never changes; leaving restores the active item's related ids, or none; hovering a registered item shows its related ids; an unregistered id changes nothing |
| SyncSystem.Clear | src/components/templates/SyncSystem.tsx:137-143 | clearing empties the highlight state and keeps the items |
| SyncSystem.Registered | src/components/templates/SyncSystem.tsx:159-161 | the looked-up related items are registered items named by the ids |
| SyncSystem.GetRelatedItems | src/components/templates/SyncSystem.tsx:155-162 | an unknown id has no related items; a known one gives at most as many as it names, and every registered related id's item is among them |
| SyncSystem.RegisteredComplete | src/components/templates/SyncSystem.tsx:159-161 | every registered id in the list contributes its item |
| SyncSystem.RegisteredAppend | src/components/templates/SyncSystem.tsx:159-161 | the lookup goes id by id: a concatenation gives its parts' items in order, and one id gives its item when registered and nothing otherwise, which fixes the result, order included, for any mix of ids |
| SyncSystem.RegisteredAll | src/components/templates/SyncSystem.tsx:159-161 | when every related id is registered, all are returned, in order |
| SyncSystem.RegisteredSkips | src/components/templates/SyncSystem.tsx:161 | unregistered related ids are skipped |
| SyncSystem.RegisterUnregister | src/components/templates/SyncSystem.tsx:67-90 | registering a new item and unregistering it again restores the provider |
| SyncSystem.HoverThenLeave | src/components/templates/SyncSystem.tsx:105-122 | hovering anything and leaving again restores the state that activation set up |
| SyncSystem.ActivateHighlights | src/components/templates/SyncSystem.tsx:105-152 | after activation exactly the active item and its related ids are highlighted; after clearing, nothing is |
| SyncSystem.HoverKeepsActive | src/components/templates/SyncSystem.tsx:126-152 | while hovering, the active item stays highlighted alongside the hovered one |
| SyncSystem.ApplyConsistent | src/components/templates/SyncSystem.tsx:67-143 | each callback keeps the active and hovered ids registered |
| SyncSystem.RunConsistent | src/components/templates/SyncSystem.tsx:57-143 | any sequence of callbacks from the initial provider keeps the active and hovered ids registered |
| SyncSystem.InitialConsistent | src/components/templates/SyncSystem.tsx:58-64 | the initial provider is consistent |
| Accessibility.JsRem | src/utils/accessibility.tsx:123 | JavaScript's `%` with a positive divisor: the remainder has the sign of the dividend |
| Accessibility.KeyKeepsInRange | src/utils/accessibility.tsx:112-157 | on a non-empty list an index inside it stays inside it after any key |
| Accessibility.NextPreviousValues | src/utils/accessibility.tsx:123-132 | next is (i + 1) mod n; previous is n - 1 at 0 and i - 1 otherwise |
| Accessibility.NextPreviousInverse | src/utils/accessibility.tsx:123-132 | next then previous, or previous then next, returns to the same item |
| Accessibility.HomeEnd | src/utils/accessibility.tsx:135-143 | Home goes to the first item and End to the last |
| Accessibility.CrossArrowsIgnored | src/utils/accessibility.tsx:119-129 | in a vertical list Left and Right do nothing; in a horizontal one Up and Down do nothing |
| Accessibility.SelectKeys | src/utils/accessibility.tsx:145-154 | Enter and Space keep the index and select the current item's id when there is a handler and an item; other keys do nothing |
| Accessibility.EmptyListIndex | src/utils/accessibility.tsx:123-142 | on an empty list Down makes the index NaN, Up gives -1 from 0 and i - 1 from any other index (NaN stays NaN), and End gives -1 |
| Accessibility.NextFromNegative | src/utils/accessibility.tsx:123 | from an index i below -1, "next" gives a number in (-n, 0], since `%` keeps the dividend's sign; it re-enters the list, at the first item, exactly when n divides i + 1 |
| Accessibility.GenerateHeadingId | src/utils/accessibility.tsx:269-275 | a heading id holds only CJK ideographs, a-z, 0-9 and `-` |
| Accessibility.GenerateHeadingIdWords | src/utils/accessibility.tsx:269-275 | the id keeps exactly the lower-cased text's CJK ideographs, letters and digits, in order |
| Accessibility.GenerateHeadingIdNoSpace | src/utils/accessibility.tsx:273-274 | an id has no whitespace left, so the final trim changes nothing |
| Accessibility.GenerateHeadingIdOfWord | src/utils/accessibility.tsx:269-275 | a title made only of those characters is its own id |
| SiteScript.MosfetState | js/main.js:460-490 | the region is off exactly when vg < 1, with zero current; linear exactly when vg >= 1 and vd < vg - 1; saturation otherwise |
| SiteScript.RegionsMeet | js/main.js:472-482 | the reading is continuous at vd = vg - 1: the page shows the saturation value there, which equals the linear formula at that point, and a linear reading falls short of it by k (vg - 1 - vd)^2 / 2 |
| SiteScript.LinearBelowSaturation | js/main.js:472-482 | in the linear region the current stays at or below the saturation value and never falls as vd grows |
| SiteScript.AgreesWithBackend | js/main.js:468-482 | up to vd = vg - 1 the page's current is the back end's square law with k = 0.5 and threshold 1; beyond it the page holds the saturation value |
| SiteScript.Click | js/main.js:924-973 | a rotation button leaves the zoom alone |
| SiteScript.ClickKeepsZoom | js/main.js:952-972 | every click keeps the zoom within [0.5, 3], and reset restores rotation 0, 0 and zoom 1 |
| SiteScript.ClicksKeepZoom | js/main.js:904-972 | from the initial view any sequence of clicks keeps the zoom within [0.5, 3] |
| SiteScript.ZoomInOut | js/main.js:952-964 | zooming in and back out returns to the same zoom below the upper bound |
| SiteScript.SetSidebarState | js/main.js:1102-1128 | after setting, at most one of collapsed or auto-hidden is set, each with its paired class |
| SiteScript.SetThenGet | js/main.js:1095-1128 | reading back a state that was set gives that state, and an unknown name reads back as normal |
| SiteScript.CycleOrder | js/main.js:1154-1175 | the cycle goes normal, collapsed, auto-hidden, normal |
| SiteScript.ThreeCyclesIdentity | js/main.js:1154-1175 | on a layout the script set, three cycles change nothing |
| AiAssistant.FirstGroup | js/ai-assistant.js:211-234 | the search returns the first keyword group the text matches, or none |
| AiAssistant.GenerateResponse | js/ai-assistant.js:207-235 | the answer is one of the fixed answers or the default |
| AiAssistant.ResponseByFirstGroup | js/ai-assistant.js:211-234 | the answer is that of the first group whose keyword the lower-cased message contains |
| AiAssistant.ResponseDefault | js/ai-assistant.js:233-234 | with no group matching, the default answer is given |
| AiAssistant.ProgressIsFivePerChapter | js/ai-assistant.js:237-242 | the progress is round(count / 20 * 100) = 5 count, at most 100 exactly for at most twenty chapters |
| AiAssistant.MarkChapterCompleted | js/ai-assistant.js:440-443 | afterwards the chapter is listed; a new one is appended and a listed one changes nothing |
| AiAssistant.MarkKeepsNoDuplicates | js/ai-assistant.js:440-443 | marking never creates a duplicate, and marking twice is marking once |
| AiAssistant.MarkAllMeaning | js/ai-assistant.js:440-443 | marking any chapters lists each of them once, after the earlier entries, and nothing else |
| AiAssistant.GenerateRecommendations | js/ai-assistant.js:269-319 | every level gets exactly two recommendations |
| AiAssistant.UnknownLevelIsAdvanced | js/ai-assistant.js:273-318 | an unknown level gets the advanced recommendations |
| Search.ScorePositiveIff | src/components/ui/Search.tsx:87-111 | a chapter scores exactly when the query occurs, ignoring case, in its title, content or a tag |
| Search.ScoreRanks | src/components/ui/Search.tsx:90-109 | the weights are 2 for the title, 1 for the content and 1.5 for the tags, so a title hit outranks a hit in the content alone or the tags alone |
| Search.Slice | src/components/ui/Search.tsx:117-118 | `slice` with non-negative bounds is clamped to the string and empty when the bounds cross |
| Search.SnippetWindow | src/components/ui/Search.tsx:113-119 | the snippet is the content from 50 characters before the first match to 50 after it, contains the query, and is at most 100 characters longer than it |
| Search.SnippetWithoutMatch | src/components/ui/Search.tsx:113-119 | without a match the snippet is the window at index 0 |
| Search.SnippetIsWindow | src/components/ui/Search.tsx:113-119 | the snippet is the window at the match index, or at 0 without one |
| Search.WindowAtStart | src/components/ui/Search.tsx:117-118 | the window at index 0 is the first query length + 50 characters |
| Search.Hits | src/components/ui/Search.tsx:87-111 | only chapters scoring above zero are kept |
| Search.HitsMeaning | src/components/ui/Search.tsx:87-111 | a hit is exactly the result of a chapter that scores |
| Search.PerformSearch | src/components/ui/Search.tsx:30-143 | a blank query gives no results; every result scores above zero |
| Search.SearchMeaning | src/components/ui/Search.tsx:87-133 | a non-blank query returns the scoring chapters' results, each once per chapter, by non-increasing score |
| Dashboard.ProgressPercentage | src/components/Dashboard.tsx:95 | there is no percentage only when there are no chapters |
| Dashboard.ProgressPercentageBounds | src/components/Dashboard.tsx:95 | the percentage is the nearest whole percent, 0 to 100, 0 for none and 100 for all, and never lower for more completed chapters |
| Dashboard.ProgressOfTwenty | src/components/Dashboard.tsx:95 | for twenty chapters each completed chapter is five percent |
| Dashboard.FormatTime | src/components/Dashboard.tsx:98-102 | every label ends with the minute unit |
| Dashboard.HourUnitIff | src/components/Dashboard.tsx:98-102 | the label shows hours exactly from 60 minutes on |
| Dashboard.FormatTimeInjective | src/components/Dashboard.tsx:98-102 | different durations get different labels, so hours (m div 60) and minutes (m mod 60) can be read back |
| Dashboard.GetNextChapter | src/components/Dashboard.tsx:118-120 | the next chapter is the first incomplete one, and there is none exactly when all are completed |
| Dashboard.Accessed | src/components/Dashboard.tsx:264-265 | only chapters with a last access are kept |
| Dashboard.RecentChapters | src/components/Dashboard.tsx:264-267 | at most three chapters, each opened and from the list |
| Dashboard.NewerFirstTotal | src/components/Dashboard.tsx:266 | the comparator on access times is a total preorder |
| Dashboard.RecentChaptersMeaning | src/components/Dashboard.tsx:264-267 | the list is newest first, and an opened chapter left out is no more recent than each of the three listed |
| ChapterNumber.DigitRuns | test-chapter-number-simple.js:10 | the runs are non-empty strings of digits |
| ChapterNumber.DigitRunsAreTheDigits | test-chapter-number-simple.js:10 | joined up, the runs are exactly the slug's digits, and there are none exactly when it has no digit |
| ChapterNumber.DigitRunsSkip | test-chapter-number-simple.js:10 | non-digits in front add no run |
| ChapterNumber.DigitRunsTake | test-chapter-number-simple.js:10 | a run of digits ended by a non-digit is the next run |
| ChapterNumber.GetChapterNumber | test-chapter-number-simple.js:4-21 | the result has at least two characters, all digits, and a missing or empty slug gives "00" |
| ChapterNumber.ChapterNumberCases | test-chapter-number-simple.js:10-20 | with two or more runs the second is padded, a lone run is padded, and no digits give "00" |
| ChapterNumber.PartChapterSlug | test-chapter-number-simple.js:10-15 | a slug `part<p>/ch<c>` gives c padded to two digits, so "part1/ch2" gives "02" |
| ChapterNumber.SingleNumberSlug | test-chapter-number-simple.js:17 | a slug with one number, such as "ch1", gives it padded |
| ChapterManager.Init | src/components/templates/ChapterManager.tsx:18-24 | the first render starts at `initialChapter - 1`, and succeeds exactly when that is a chapter |
| ChapterManager.HandlerGuards | src/components/templates/ChapterManager.tsx:27-61 | previous acts only at index > 0, next only before the last chapter, select only on an in-range different target, and none while transitioning |
| ChapterManager.SelectDirection | src/components/templates/ChapterManager.tsx:50-61 | a selection moves forward exactly when the target is after the current chapter, and lands on it |
| ChapterManager.StepsMoveByOne | src/components/templates/ChapterManager.tsx:27-48 | previous then the timer moves back one chapter, next then the timer forward one, and the transition ends |
| ChapterManager.StepValid | src/components/templates/ChapterManager.tsx:27-61 | each click or timer keeps the manager valid |
| ChapterManager.RunValid | src/components/templates/ChapterManager.tsx:18-61 | any sequence of clicks and timers keeps the index within the chapters |
| ChapterManager.InitValid | src/components/templates/ChapterManager.tsx:18-19 | a successful first render is valid |
| BentoGrid.SelectItem | src/components/ui/BentoGrid.tsx:642-644 | selecting the selected item clears the selection, and any other item becomes selected |
| BentoGrid.SelectTwice | src/components/ui/BentoGrid.tsx:642-644 | selecting the same item twice restores the selection exactly when that item or nothing was selected |
| BentoGrid.UpdateItem | src/components/ui/BentoGrid.tsx:647-655 | an update keeps the number of items |
| BentoGrid.UpdateItemMeaning | src/components/ui/BentoGrid.tsx:647-655 | only the first item with the id is replaced, every other position is unchanged, and a missing id changes nothing |
| BentoGrid.UpdateItemIdempotent | src/components/ui/BentoGrid.tsx:647-655 | updating twice is updating once |
| BentoGrid.Without | src/components/ui/BentoGrid.tsx:659-660 | the remaining items are exactly those without the id |
| BentoGrid.DeleteItem | src/components/ui/BentoGrid.tsx:658-667 | every item with the id goes, and the selection is cleared exactly when it was that id |
| BentoGrid.WithoutCount | src/components/ui/BentoGrid.tsx:659-660 | as many items go as carried the id, and a missing id changes nothing |
| BentoGrid.WithoutAppend | src/components/ui/BentoGrid.tsx:659-660 | deleting from a concatenation deletes from each part, so the remaining items keep their order |
| BentoGrid.WithoutSingle | src/components/ui/BentoGrid.tsx:659-660 | a single item stays exactly when its id differs from the deleted one |
| BentoGrid.ZoomsInRange | src/components/ui/BentoGrid.tsx:670-686 | any sequence of zoom buttons keeps the zoom within [0.5, 2], and reset gives 1 |
| BentoGrid.CeilQuarter | src/components/ui/BentoGrid.tsx:242 | `Math.ceil(cols / 4)` is the least r with 4r >= cols |
| BentoGrid.GridSpan | src/components/ui/BentoGrid.tsx:233-245 | a list row spans all columns and one row; a grid item spans its own width and height, or ceil(cols/4) by 2 when they are missing or zero |
| BentoGrid.DefaultSpan | src/components/ui/BentoGrid.tsx:98-105 | on the default twelve-column layout an item without a size is 3 by 2 |
| FontSize.ButtonsClamp | src/components/ui/FontSizeToggle.tsx:53-60 | increase stops at index 4 and decrease at 0, and away from the ends each undoes the other |
| FontSize.DisabledIffNoEffect | src/components/ui/FontSizeToggle.tsx:53-82 | decrease is disabled exactly at index 0 and increase exactly at 4, which is where pressing them would change nothing |
| FontSize.Restore | src/components/ui/FontSizeToggle.tsx:27-31 | a saved value yields an index within the list; no saved value keeps the current index |
| FontSize.RestoreRoundTrip | src/components/ui/FontSizeToggle.tsx:27-31 | a saved index reads back as itself, and text naming no size (NaN or out of range) falls back to index 1 |
| FontSize.PressesShowSize | src/components/ui/FontSizeToggle.tsx:12-60 | from a valid index any presses show one of 14, 16, 18, 20, 22 |
| FontSize.DisplayedSizeListed | src/components/ui/FontSizeToggle.tsx:12-60 | whatever was saved, the size shown after any presses is one of the five |
| Theme.Toggle | src/components/ui/ThemeToggle.tsx:51-57 | the toggle always yields light, dark or system |
| Theme.ToggleCycle | src/components/ui/ThemeToggle.tsx:51-57 | light goes to dark, dark to system, system to light, any other value to light, and three toggles are the identity on the three themes |
| Theme.Resolve | src/components/ui/ThemeToggle.tsx:60-70 | the resolved theme is never system; system resolves to light or dark, and light and dark resolve to themselves |
| Theme.Restore | src/components/ui/ThemeToggle.tsx:16-24 | a non-empty saved theme replaces the initial system theme |
| Theme.ToggleEntersCycle | src/components/ui/ThemeToggle.tsx:21-70 | after one press from any restored value the theme is one of the three and resolves to light or dark |

## Left out

- File system, `localStorage`, `fetch`, dynamic `import()` and `setTimeout`: the files a chapter can be read from, the stored settings and the result of a chapter import are parameters. The chapter manager's 300 ms timer is an explicit `Timer` event.
- Block ids: `Date.now()` and `Math.random()` in `src/lib/contentAnalyzer.ts:165` are replaced by a parameter `newId`. The dashboard's `formatDate` depends on the current time and is not modelled.
- Regular-expression rules: the matcher's `rule.pattern.test` (`src/lib/contentMapping/matcherEngine.ts:62-64`) is a parameter `test`. `markSemiconductorTerms` (`src/utils/textSpacing.ts:99-122`) is a regular-expression replacement and is left out.
- Exponential and floating-point numerics: the diode curve (`backend/app/routers/devices.py:77-99`) and the fractional lines of `js/main.js` outside the MOSFET state and the viewer are left out. The exponential of the semiconductor and insulator branches of `backend/app/routers/materials.py` is a parameter `exp`. All other arithmetic uses exact reals, so float rounding is not modelled.
- Materials.CalculateProperties: `exp` is a parameter assumed positive and finite for every argument, so a computed result always has finite, non-zero resistivity and conductivity. numpy's float64 `np.exp` underflows to 0.0 below about -745 and overflows to infinity above about 709. With the default parameters a semiconductor below about 9 K then gets resistivity infinity (and, below about 8.7 K, concentration and conductivity 0.0), and an insulator below about 34 K gets resistivity infinity and conductivity 0.0. numpy's division by a float64 zero gives infinity rather than raising, so the source answers these requests where the model's reciprocal law does not describe its answer. Temperatures just below zero overflow the other way: resistivity 0.0 and conductivity infinity.
- Materials.SemiconductorBranch: its positive conductivity and reciprocal resistivity rest on the same positive, finite `exp`; at the low temperatures above, the source's float64 conductivity is 0.0 and its resistivity infinity.
- Materials.ZeroDivisionOnlyAtZero: `ZeroDivisionError` is raised only at zero kelvin; the infinities of the low-temperature cases above are answers, not errors, and are not modelled.
- Division by zero: the `ZeroDivisionError` a Python float division by zero raises is the `ZeroDivision` outcome. FastAPI's translation of it into a server error is not modelled.
- Text: strings are sequences of code points. `toLowerCase` is modelled for ASCII letters, U+212A and U+0130 and leaves every other character unchanged. `TextSpacing.AddSpacingBetweenZhEn` alone reads the UTF-16 code units, as the source does.
- `Devices.DeviceList` and `Materials.MaterialList`, the catalogs that `list_devices` and `list_materials` return, are constant data without a contract of their own. The lookups over them carry the contracts.
- `get_device` and `get_material` return an error dictionary on a miss, although their declared response model is a record. The model returns a `Result`, and FastAPI's response validation is not modelled.
- The sliders' `parseFloat` (NaN on malformed input) in `js/main.js`: the MOSFET state takes the two voltages as reals.
- React effects, state batching and stale closures: each handler is a function of the state it reads. A re-registered active item keeps the related ids it had when it was activated, as the provider does.
- Search.Snippet: the match index is found in the lower-cased content and the window is cut from the original. Only content that lower-casing leaves unchanged gets the full window guarantee (`Search.SnippetWindow`).
- `Dashboard.ChapterProgress.timeSpent` is a natural number; negative study times are not modelled.
- BentoGrid item contents, the class names and styles of every component, the theme's effect on the document class (`src/components/ui/ThemeToggle.tsx:28-48`) and the DOM work of `sendMessage` in `js/ai-assistant.js` are presentation. The `prefers-color-scheme` media query is a parameter.
- The matcher's `Object.values` order is modelled as key-insertion order, since block ids are not integer-like keys. Its block maps are read without `Object.prototype`'s members, because every block id starts with `block-` and so never names one.
- ContentAnalyzer.MergeAdjacentBlocks: the model builds new blocks. The source appends `\n\n` and the next content to the caller's block objects in place (`src/lib/contentAnalyzer.ts:312`), so the input blocks change too, and a block object listed twice in the input is aliased: for `[a, c, h, a]` with paragraphs `a` and `c` and a heading `h` the source returns `[a, h, a]` with both `a` reading A, a blank line, then C, where the model gives that text only for the first. `analyzeContent` passes freshly built blocks, so its result is the same in both.
- SiteScript.AgreesWithBackend: beyond vd = vg - 1 it states only that the back end's capped parabola never exceeds the page's saturation value, not a formula for the difference.
- Smaller pure helpers in files outside this model (swipe navigation, chapter-transition guards, route arithmetic, chapter grouping, the MDX list parser, the lab gauge and the theme fallback) are not part of this model.

## Findings

| source | as written | input that shows it | evidently intended | confidence | as-written member | corrected member |
|---|---|---|---|---|---|---|
| src/utils/textSpacing.ts:12-20 | `charCodeAt` reads UTF-16 code units, so the Extension B to F ranges (above U+FFFF) can never hold | U+20000 followed by `a` (code units D840 DC00 0061) | a space is inserted between the ideograph and `a` | not executed | TextSpacing.ExtensionBNotSpaced | TextSpacing.ExtensionBSpaced |
