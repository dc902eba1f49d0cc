/**
 * The Markdown block splitter of the content pipeline: inline component insertions
 * `[component:Name](key: value, ...)`, the line-by-line state machine that groups lines
 * into blocks, deduplication of components and merging of adjacent blocks.
 */
module ContentAnalyzer {
  import opened Wrappers
  import opened Text
  import opened JsObject

  // ----- Component insertions -----

  /**
   * A prop value after conversion. Numbers keep their literal text, so `1.0` and `1`, which
   * the source converts to the same number, are different values here.
   */
  datatype PropValue = PNum(literal: string) | PBool(flag: bool) | PStr(text: string)

  datatype ComponentInsertion = ComponentInsertion(name: string, props: map<string, PropValue>)

  const ComponentTag: string := "[component:"

  /**
   * The pattern `\[component:([^\]]+)\]\(([^)]*)\)` tried at index `p`: the index `j` of
   * the `]` that ends the name and the index `k` of the `)` that ends the props. The
   * name is the run up to the first `]`; the props run up to the first `)`.
   */
  function MatchComponentAt(s: string, p: nat): (r: Option<(nat, nat)>)
    ensures r.Some? ==> OccursAt(s, ComponentTag, p)
    ensures r.Some? ==>
      && p + |ComponentTag| < r.value.0 && r.value.0 + 1 < r.value.1 < |s|
      && s[r.value.0] == ']' && s[r.value.0 + 1] == '(' && s[r.value.1] == ')'
      && ']' !in s[p + |ComponentTag|..r.value.0] && ')' !in s[r.value.0 + 2..r.value.1]
  {
    if !OccursAt(s, ComponentTag, p) then None
    else
      var j := FindChar(s, ']', p + |ComponentTag|);
      if j == p + |ComponentTag| || j + 1 >= |s| || s[j + 1] != '(' then None
      else
        var k := FindChar(s, ')', j + 2);
        if k == |s| then None else Some((j, k))
  }

  /** The leftmost match at or after `from`: its start `p` with the `j` and `k` above. */
  function FindComponent(s: string, from: nat): (r: Option<(nat, nat, nat)>)
    ensures r.Some? ==> from <= r.value.0 && MatchComponentAt(s, r.value.0) == Some((r.value.1, r.value.2))
    decreases |s| - from
  {
    if from > |s| then None
    else match MatchComponentAt(s, from)
      case Some((j, k)) => Some((from, j, k))
      case None => FindComponent(s, from + 1)
  }

  /** The match found is the leftmost one, and none is found only when the pattern matches nowhere. */
  lemma {:induction false} FindComponentLeftmost(s: string, from: nat)
    ensures FindComponent(s, from).Some? ==>
      forall q :: from <= q < FindComponent(s, from).value.0 ==> MatchComponentAt(s, q).None?
    ensures FindComponent(s, from).None? ==> forall q :: from <= q <= |s| ==> MatchComponentAt(s, q).None?
    decreases |s| - from
  {
    var r := FindComponent(s, from);
    if from <= |s| && MatchComponentAt(s, from).None? {
      FindComponentLeftmost(s, from + 1);
      assert r == FindComponent(s, from + 1);
      var end := if r.Some? then r.value.0 else |s| + 1;
      forall q | from <= q < end ensures MatchComponentAt(s, q).None? {
        if q > from {
          assert from + 1 <= q;
        }
      }
    } else if from <= |s| {
      assert r.value.0 == from;
    }
  }

  /** `value.slice(1, -1)`. */
  function Unwrap(v: string): string {
    if |v| >= 2 then v[1..|v| - 1] else ""
  }

  // The JavaScript `Number(string)` grammar (StringNumericLiteral), used for the NaN test.

  predicate IsDigits(s: string) { |s| > 0 && AllDigits(s) }

  predicate IsExponentPart(s: string) {
    |s| >= 2 && (s[0] == 'e' || s[0] == 'E')
    && (if s[1] == '+' || s[1] == '-' then IsDigits(s[2..]) else IsDigits(s[1..]))
  }

  /** `Infinity`, or digits with an optional fraction and exponent, with a digit somewhere. */
  predicate IsUnsignedDecimal(s: string) {
    if s == "Infinity" then true
    else
      var a := PrefixLen(s, IsDigit);
      var rest := s[a..];
      if rest != [] && rest[0] == '.' then
        var b := PrefixLen(rest[1..], IsDigit);
        a + b > 0 && (rest[1 + b..] == [] || IsExponentPart(rest[1 + b..]))
      else
        a > 0 && (rest == [] || IsExponentPart(rest))
  }

  predicate IsBinaryDigit(c: char) { c == '0' || c == '1' }
  predicate IsOctalDigit(c: char) { '0' <= c <= '7' }

  /** `0x`, `0o` and `0b` integers; these take no sign. */
  predicate IsNonDecimal(s: string) {
    |s| >= 3 && s[0] == '0'
    && (if s[1] == 'x' || s[1] == 'X' then forall i :: 2 <= i < |s| ==> IsHexDigit(s[i])
        else if s[1] == 'o' || s[1] == 'O' then forall i :: 2 <= i < |s| ==> IsOctalDigit(s[i])
        else if s[1] == 'b' || s[1] == 'B' then forall i :: 2 <= i < |s| ==> IsBinaryDigit(s[i])
        else false)
  }

  /** `!isNaN(Number(s))`: blank text is 0; otherwise the trimmed text must be a numeral. */
  predicate IsNumberString(s: string) {
    var t := Trim(s);
    t == [] || IsNonDecimal(t) || IsUnsignedDecimal(t)
    || ((t[0] == '+' || t[0] == '-') && IsUnsignedDecimal(t[1..]))
  }

  /** Number, then case-insensitive true/false, then a quoted string, else the text itself. */
  function ConvertValue(v: string): PropValue {
    if IsNumberString(v) then PNum(v)
    else if Lower(v) == "true" then PBool(true)
    else if Lower(v) == "false" then PBool(false)
    else if StartsWith(v, "\"") && EndsWith(v, "\"") then PStr(Unwrap(v))
    else if StartsWith(v, "'") && EndsWith(v, "'") then PStr(Unwrap(v))
    else PStr(v)
  }

  /** One trimmed `key: value` pair: its key and converted value, unless either part is empty. */
  function PairEntry(pair: string): Option<(string, PropValue)> {
    var parts := Split(pair, ':');
    if |parts| < 2 then None
    else
      var key := Trim(parts[0]);
      var value := Trim(parts[1]);
      if key == [] || value == [] then None
      else Some((key, ConvertValue(value)))
  }

  /** An entry needs a `:` in the pair, and its key is non-empty with no whitespace at either end. */
  lemma PairEntryShape(pair: string)
    ensures PairEntry(pair).Some? ==> var key := PairEntry(pair).value.0;
      key != [] && !IsSpace(key[0]) && !IsSpace(key[|key| - 1])
    ensures ':' !in pair ==> PairEntry(pair).None?
  {
    if ':' !in pair {
      SplitNoSep(pair, ':');
    }
    if PairEntry(pair).Some? {
      PairEntryKey(pair);
      TrimEdges(Split(pair, ':')[0]);
    }
  }

  lemma PairEntryKey(pair: string)
    requires PairEntry(pair).Some?
    ensures |Split(pair, ':')| >= 2 && PairEntry(pair).value.0 == Trim(Split(pair, ':')[0])
  {
  }

  lemma TrimEdges(s: string)
    ensures var t := Trim(s); t == [] || (!IsSpace(t[0]) && !IsSpace(t[|t| - 1]))
  {
  }

  /** A pair written as `key:value` reads back as that key and the converted value. */
  lemma PairEntryRendered(key: string, value: string)
    requires key != [] && !IsSpace(key[0]) && !IsSpace(key[|key| - 1]) && ':' !in key
    requires value != [] && !IsSpace(value[0]) && !IsSpace(value[|value| - 1]) && ':' !in value
    ensures PairEntry(key + ":" + value) == Some((key, ConvertValue(value)))
  {
    SplitNoSep(value, ':');
    SplitCons(key, value, ':');
    assert key + ":" + value == key + [':'] + value;
    TrimNoEdges(key);
    TrimNoEdges(value);
  }

  type Entry = Option<(string, PropValue)>

  /** The keys the entries define. */
  function EntryKeys(es: seq<Entry>): set<string> {
    if es == [] then {}
    else
      var e := es[|es| - 1];
      EntryKeys(es[..|es| - 1]) + (if e.Some? then {e.value.0} else {})
  }

  /** The value the last entry with key `k` defines. */
  function LastValue(es: seq<Entry>, k: string): Option<PropValue> {
    if es == [] then None
    else
      var e := es[|es| - 1];
      if e.Some? && e.value.0 == k then Some(e.value.1) else LastValue(es[..|es| - 1], k)
  }

  /**
   * Adds the entries left to right into `acc` by `props[key] = value`. Every converted
   * value is a primitive, which the `__proto__` accessor ignores, so that key is never added.
   */
  function AddEntries(acc: map<string, PropValue>, es: seq<Entry>): (r: map<string, PropValue>)
    ensures r.Keys == acc.Keys + (EntryKeys(es) - {ProtoKey})
  {
    if es == [] then acc
    else
      var r := AddEntries(acc, es[..|es| - 1]);
      var e := es[|es| - 1];
      if e.Some? && e.value.0 != ProtoKey then r[e.value.0 := e.value.1] else r
  }

  /**
   * A later pair with the same key overwrites an earlier one; other keys, and `__proto__`,
   * keep `acc`'s value.
   */
  lemma {:induction false} AddEntriesLastWins(acc: map<string, PropValue>, es: seq<Entry>, k: string)
    requires k in AddEntries(acc, es)
    ensures LastValue(es, k).None? || k == ProtoKey ==> k in acc
    ensures AddEntries(acc, es)[k] == (if LastValue(es, k).Some? && k != ProtoKey then LastValue(es, k).value else acc[k])
  {
    if es != [] {
      var e := es[|es| - 1];
      if !(e.Some? && e.value.0 == k && k != ProtoKey) {
        AddEntriesLastWins(acc, es[..|es| - 1], k);
      }
    }
  }

  /** The entries of the comma-separated pairs. */
  function Entries(text: string): (es: seq<Entry>)
    ensures |es| == |Split(text, ',')|
    ensures forall i :: 0 <= i < |es| ==> es[i] == PairEntry(Trim(Split(text, ',')[i]))
  {
    var pairs := Split(text, ',');
    seq(|pairs|, i requires 0 <= i < |pairs| => PairEntry(Trim(pairs[i])))
  }

  /** Props text split on `,`; each pair trimmed; empty text gives no props. */
  function ParseProps(text: string): map<string, PropValue> {
    if text == [] then map[] else AddEntries(map[], Entries(text))
  }

  /** Whatever the props text says, the parsed props have no `__proto__` key. */
  lemma ProtoPropDropped(text: string)
    ensures ProtoKey !in ParseProps(text)
  {
  }

  /** `parseComponentInsertion`: the leftmost insertion in the trimmed line, or nothing. */
  function ParseComponentInsertion(line: string): Option<ComponentInsertion> {
    InsertionIn(Trim(line))
  }

  /** The leftmost match in `s`, with its name and props text trimmed. */
  function InsertionIn(s: string): Option<ComponentInsertion> {
    var f := FindComponent(s, 0);
    if f.None? then None else Some(InsertionAt(s, f.value.0, f.value.1, f.value.2))
  }

  /** The insertion read from a match at `p`: the trimmed name and the parsed, trimmed props. */
  function InsertionAt(s: string, p: nat, j: nat, k: nat): ComponentInsertion
    requires p + |ComponentTag| <= j && j + 2 <= k <= |s|
  {
    ComponentInsertion(Trim(s[p + |ComponentTag|..j]), ParseProps(Trim(s[j + 2..k])))
  }

  /** The insertion syntax for a name and a props text. */
  function RenderInsertion(name: string, props: string): string {
    ComponentTag + name + "](" + props + ")"
  }

  /** The pattern matches at `p` exactly when the tag, the brackets and the parentheses are where `j` and `k` say. */
  lemma MatchAt(s: string, p: nat, j: nat, k: nat)
    requires OccursAt(s, ComponentTag, p)
    requires p + |ComponentTag| < j && j + 1 < k < |s|
    requires s[j] == ']' && s[j + 1] == '(' && s[k] == ')'
    requires ']' !in s[p + |ComponentTag|..j] && ')' !in s[j + 2..k]
    ensures MatchComponentAt(s, p) == Some((j, k))
  {
    assert forall q :: p + |ComponentTag| <= q < j ==> s[q] == s[p + |ComponentTag|..j][q - p - |ComponentTag|];
    assert forall q :: j + 2 <= q < k ==> s[q] == s[j + 2..k][q - j - 2];
    FindCharAt(s, ']', p + |ComponentTag|, j);
    FindCharAt(s, ')', j + 2, k);
  }

  /** The pattern matches the rendered syntax where it starts, ending at the name's `]` and the last `)`. */
  lemma MatchRenderedAt(pre: string, name: string, props: string, post: string)
    requires name != [] && ']' !in name && ')' !in props
    ensures var s := pre + RenderInsertion(name, props) + post;
      MatchComponentAt(s, |pre|) == Some((|pre| + |ComponentTag| + |name|, |pre| + |RenderInsertion(name, props)| - 1))
  {
    MiddleOfConcat(pre, RenderInsertion(name, props), post);
    MatchRenderedIn(pre + RenderInsertion(name, props) + post, |pre|, name, props);
  }

  /** The pattern matches the rendered syntax wherever the text holds it. */
  lemma MatchRenderedIn(s: string, b: nat, name: string, props: string)
    requires name != [] && ']' !in name && ')' !in props
    requires b + |RenderInsertion(name, props)| <= |s|
    requires s[b..b + |RenderInsertion(name, props)|] == RenderInsertion(name, props)
    ensures MatchComponentAt(s, b) == Some((b + |ComponentTag| + |name|, b + |RenderInsertion(name, props)| - 1))
  {
    var r := RenderInsertion(name, props);
    RenderedParts(name, props);
    PiecesAt(s, b, r, name, props);
    MatchPieces(s, b, name, props, b + |r| - 1);
  }

  /** Where a text holds a copy of the rendered syntax, it holds each of its pieces. */
  lemma PiecesAt(s: string, b: nat, r: string, name: string, props: string)
    requires |r| == |ComponentTag| + |name| + 3 + |props|
    requires r[0..|ComponentTag|] == ComponentTag
    requires r[|ComponentTag|..|ComponentTag| + |name|] == name
    requires r[|ComponentTag| + |name|] == ']' && r[|ComponentTag| + |name| + 1] == '('
    requires r[|ComponentTag| + |name| + 2..|r| - 1] == props && r[|r| - 1] == ')'
    requires b + |r| <= |s| && s[b..b + |r|] == r
    ensures var j := b + |ComponentTag| + |name|;
      && s[b..b + |ComponentTag|] == ComponentTag
      && s[b + |ComponentTag|..j] == name
      && s[j] == ']' && s[j + 1] == '('
      && s[j + 2..b + |r| - 1] == props && s[b + |r| - 1] == ')'
  {
    var t := |ComponentTag|;
    var j := b + t + |name|;
    var k := b + |r| - 1;
    SliceOfSlice(s, b, b + |r|, 0, t);
    SliceOfSlice(s, b, b + |r|, t, t + |name|);
    SliceOfSlice(s, b, b + |r|, t + |name| + 2, |r| - 1);
    CharOfSlice(s, b, r, t + |name|);
    CharOfSlice(s, b, r, t + |name| + 1);
    CharOfSlice(s, b, r, |r| - 1);
  }

  lemma CharOfSlice(s: string, b: nat, r: string, x: nat)
    requires b + |r| <= |s| && s[b..b + |r|] == r && x < |r|
    ensures s[b + x] == r[x]
  {
    assert s[b + x] == s[b..b + |r|][x];
  }

  /** The pattern matches where the tag, a name, `](`, props and `)` follow one another. */
  lemma MatchPieces(s: string, b: nat, name: string, props: string, k: nat)
    requires name != [] && ']' !in name && ')' !in props
    requires b + |ComponentTag| + |name| + 2 + |props| == k < |s|
    requires s[b..b + |ComponentTag|] == ComponentTag
    requires s[b + |ComponentTag|..b + |ComponentTag| + |name|] == name
    requires s[b + |ComponentTag| + |name|] == ']' && s[b + |ComponentTag| + |name| + 1] == '('
    requires s[b + |ComponentTag| + |name| + 2..k] == props && s[k] == ')'
    ensures MatchComponentAt(s, b) == Some((b + |ComponentTag| + |name|, k))
  {
    MatchAt(s, b, b + |ComponentTag| + |name|, k);
  }

  lemma InsertionInRendered(name: string, props: string)
    requires name != [] && ']' !in name && ')' !in props
    ensures InsertionIn(RenderInsertion(name, props))
         == Some(ComponentInsertion(Trim(name), ParseProps(Trim(props))))
  {
    var s := RenderInsertion(name, props);
    var t := |ComponentTag|;
    var j := t + |name|;
    var k := |s| - 1;
    assert s[0..|s|] == s;
    MatchRenderedIn(s, 0, name, props);
    assert FindComponent(s, 0) == Some((0, j, k));
    InsertionInFirst(s, j, k);
    RenderedParts(name, props);
  }

  /** The rendered syntax holds the name after the tag and the props before the last `)`. */
  lemma RenderedParts(name: string, props: string)
    ensures var s := RenderInsertion(name, props);
      && |s| == |ComponentTag| + |name| + 3 + |props|
      && s[0..|ComponentTag|] == ComponentTag
      && s[|ComponentTag|..|ComponentTag| + |name|] == name
      && s[|ComponentTag| + |name|] == ']' && s[|ComponentTag| + |name| + 1] == '('
      && s[|ComponentTag| + |name| + 2..|s| - 1] == props
      && s[|s| - 1] == ')'
  {
    MiddleOfConcat(ComponentTag + name + "](", props, ")");
    MiddleOfConcat(ComponentTag, name, "](");
    var s := RenderInsertion(name, props);
    var u := ComponentTag + name + "](";
    assert s[..|u|] == u;
    assert s[|ComponentTag|..|ComponentTag| + |name|] == u[|ComponentTag|..|ComponentTag| + |name|];
  }

  /** With the first match at the start, the insertion is read from that match. */
  lemma InsertionInFirst(s: string, j: nat, k: nat)
    requires FindComponent(s, 0) == Some((0, j, k))
    ensures |ComponentTag| <= j && j + 2 <= k <= |s|
    ensures InsertionIn(s) == Some(InsertionAt(s, 0, j, k))
  {
  }

  /** Text with no whitespace at either end is parsed as it stands. */
  lemma ParseTrimmedLine(s: string)
    requires s != [] && !IsSpace(s[0]) && !IsSpace(s[|s| - 1])
    ensures ParseComponentInsertion(s) == InsertionIn(s)
  {
    TrimNoEdges(s);
  }

  /** A well-formed insertion reads back as its name and its parsed props. */
  lemma ParseRenderedInsertion(name: string, props: string)
    requires name != [] && !IsSpace(name[0]) && !IsSpace(name[|name| - 1]) && ']' !in name
    requires ')' !in props
    ensures ParseComponentInsertion(RenderInsertion(name, props))
         == Some(ComponentInsertion(name, ParseProps(Trim(props))))
  {
    var s := RenderInsertion(name, props);
    assert s[0] == '[' && s[|s| - 1] == ')';
    ParseTrimmedLine(s);
    InsertionInRendered(name, props);
    TrimNoEdges(name);
  }

  /** An insertion is only ever found in a line that contains the tag `[component:`. */
  lemma InsertionNeedsTag(line: string)
    requires ParseComponentInsertion(line).Some?
    ensures Contains(line, ComponentTag)
  {
    var s := Trim(line);
    var p := FindComponent(s, 0).value.0;
    ContainsWitness(s, ComponentTag, p);
    ContainsTrimmed(line, ComponentTag);
  }

  /** Text whose first character cannot begin a numeral is not a number. */
  lemma NotNumberString(v: string)
    requires v != [] && !IsSpace(v[0]) && !IsDigit(v[0])
    requires v[0] != '.' && v[0] != '+' && v[0] != '-' && v[0] != 'I'
    ensures !IsNumberString(v)
  {
    var t := Trim(v);
    assert TrimStart(v) == v;
    assert t != [] && t[0] == v[0];
    assert PrefixLen(t, IsDigit) == 0;
  }

  /** A quoted value converts to the text between the quotes. */
  lemma ConvertQuoted(x: string)
    ensures ConvertValue("\"" + x + "\"") == PStr(x)
    ensures ConvertValue("'" + x + "'") == PStr(x)
  {
    ConvertQuotedBy("\"", x);
    ConvertQuotedBy("'", x);
  }

  lemma ConvertQuotedBy(quote: string, x: string)
    requires quote == "\"" || quote == "'"
    ensures ConvertValue(quote + x + quote) == PStr(x)
  {
    var q := quote + x + quote;
    NotNumberString(q);
    assert Lower(q)[0] == LowerChar(q[0])[0] == quote[0];
    assert StartsWith(q, quote) && EndsWith(q, quote);
    assert Unwrap(q) == x;
  }

  /** The characters that lower-case to a `t` or an `f`. */
  lemma LowerToLetter(v: string)
    requires v != [] && (Lower(v)[0] == 't' || Lower(v)[0] == 'f')
    ensures v[0] == 't' || v[0] == 'T' || v[0] == 'f' || v[0] == 'F'
  {
    assert Lower(v)[0] == LowerChar(v[0])[0];
  }

  /** `true` and `false` in any letter case convert to booleans. */
  lemma ConvertBoolean(v: string)
    requires Lower(v) == "true" || Lower(v) == "false"
    ensures ConvertValue(v) == PBool(Lower(v) == "true")
  {
    assert v != [];
    LowerToLetter(v);
    NotNumberString(v);
  }

  // ----- Blocks -----

  datatype BlockKind = Paragraph | Heading | List | Blockquote | Code | Formula | Component

  datatype Block = Block(id: string, content: string, kind: BlockKind,
                         level: Option<nat>, insertion: Option<ComponentInsertion>)

  /** Headings, and only headings, carry a level 1..6; components, and only they, an insertion. */
  predicate WellFormed(b: Block) {
    && (b.kind == Heading <==> b.level.Some?)
    && (b.level.Some? ==> 1 <= b.level.value <= 6)
    && (b.kind == Component <==> b.insertion.Some?)
  }

  /** The level of a line matching `^#{1,6}\s`: the number of leading `#`. */
  function HeadingLevel(line: string): (r: Option<nat>)
    ensures r.Some? ==> 1 <= r.value <= 6 && r.value < |line| && IsSpace(line[r.value])
    ensures r.Some? ==> forall i :: 0 <= i < r.value ==> line[i] == '#'
  {
    var h := PrefixLen(line, c => c == '#');
    if 1 <= h <= 6 && h < |line| && IsSpace(line[h]) then Some(h) else None
  }

  /** `^[-*+]\s` or `^\d+\.\s`. */
  predicate IsListLine(line: string) {
    || (|line| >= 2 && (line[0] == '-' || line[0] == '*' || line[0] == '+') && IsSpace(line[1]))
    || (var d := PrefixLen(line, IsDigit); d >= 1 && d + 1 < |line| && line[d] == '.' && IsSpace(line[d + 1]))
  }

  /** `^>\s`. */
  predicate IsQuoteLine(line: string) {
    |line| >= 2 && line[0] == '>' && IsSpace(line[1])
  }

  /** What a line is, the cases tried in the order the splitter tries them. */
  datatype LineClass =
    | ComponentLine(insertion: ComponentInsertion)
    | HeadingLine(level: nat, title: string)
    | FenceLine
    | FormulaLine
    | QuoteLine
    | ListLine
    | BlankLine
    | TextLine

  /** A heading line's level is 1..6. */
  predicate ClassOk(c: LineClass) {
    c.HeadingLine? ==> 1 <= c.level <= 6
  }

  function Classify(line: string): (c: LineClass)
    ensures ClassOk(c)
  {
    if Contains(line, ComponentTag) && ParseComponentInsertion(line).Some? then
      ComponentLine(ParseComponentInsertion(line).value)
    else if HeadingLevel(line).Some? then
      var h := HeadingLevel(line).value;
      HeadingLine(h, line[h + 1..])
    else if StartsWith(line, "```") then FenceLine
    else if StartsWith(line, "$$") then FormulaLine
    else if IsQuoteLine(line) then QuoteLine
    else if IsListLine(line) then ListLine
    else if Trim(line) == [] then BlankLine
    else TextLine
  }

  /** Splitter state: finished blocks, the open block, and how many blocks were created. */
  datatype State = State(done: seq<Block>, cur: Option<Block>, made: nat)

  function Flush(st: State): seq<Block> {
    if st.cur.Some? then st.done + [st.cur.value] else st.done
  }

  function AppendLine(b: Block, line: string): Block {
    b.(content := b.content + "\n" + line)
  }

  function NewBlock(newId: nat -> string, n: nat, content: string, kind: BlockKind): Block {
    Block(newId(n), content, kind, None, None)
  }

  /** Closes the open block and opens a new one of `kind` holding `line`. */
  function Open(st: State, kind: BlockKind, line: string, newId: nat -> string): State {
    State(Flush(st), Some(NewBlock(newId, st.made, line, kind)), st.made + 1)
  }

  /** Appends to an open block of the same kind, or opens one. */
  function Extend(st: State, kind: BlockKind, line: string, newId: nat -> string): State {
    if st.cur.Some? && st.cur.value.kind == kind then State(st.done, Some(AppendLine(st.cur.value, line)), st.made)
    else Open(st, kind, line, newId)
  }

  /** One line of `splitContentIntoBlocks`. */
  function Step(st: State, line: string, newId: nat -> string): State {
    StepAs(st, Classify(line), line, newId)
  }

  /** One line of class `c`: an open code block takes every line; otherwise by class. */
  function StepAs(st: State, c: LineClass, line: string, newId: nat -> string): State {
    if st.cur.Some? && st.cur.value.kind == Code then
      State(st.done, Some(AppendLine(st.cur.value, line)), st.made)
    else match c
      case ComponentLine(ins) =>
        State(Flush(st) + [Block(newId(st.made), line, Component, None, Some(ins))], None, st.made + 1)
      case HeadingLine(h, title) =>
        State(Flush(st) + [Block(newId(st.made), title, Heading, Some(h), None)], None, st.made + 1)
      case FenceLine => Open(st, Code, line, newId)
      case FormulaLine =>
        if st.cur.Some? && st.cur.value.kind == Formula then
          State(st.done + [AppendLine(st.cur.value, line)], None, st.made)
        else Open(st, Formula, line, newId)
      case QuoteLine => Extend(st, Blockquote, line, newId)
      case ListLine => Extend(st, List, line, newId)
      case BlankLine => State(Flush(st), None, st.made)
      case TextLine => Extend(st, Paragraph, line, newId)
  }

  function Run(st: State, lines: seq<string>, newId: nat -> string): State
    decreases |lines|
  {
    if lines == [] then st else Run(Step(st, lines[0], newId), lines[1..], newId)
  }

  /**
   * `splitContentIntoBlocks`. Block ids come from `newId`, applied to the number of
   * blocks created before.
   */
  function SplitContentIntoBlocks(content: string, newId: nat -> string): (r: seq<Block>)
    ensures forall i :: 0 <= i < |r| ==> WellFormed(r[i])
  {
    var st := Run(State([], None, 0), Split(content, '\n'), newId);
    RunKeepsInvariant(State([], None, 0), Split(content, '\n'), newId);
    Flush(st)
  }

  /** Finished blocks are well formed; the open block is one that lines can extend. */
  predicate Invariant(st: State) {
    && (forall i :: 0 <= i < |st.done| ==> WellFormed(st.done[i]))
    && (st.cur.Some? ==> WellFormed(st.cur.value) && st.cur.value.kind !in {Heading, Component})
  }

  lemma StepAsKeepsInvariant(st: State, c: LineClass, line: string, newId: nat -> string)
    requires Invariant(st) && ClassOk(c)
    ensures Invariant(StepAs(st, c, line, newId))
  {
  }

  lemma StepKeepsInvariant(st: State, line: string, newId: nat -> string)
    requires Invariant(st)
    ensures Invariant(Step(st, line, newId))
  {
    StepAsKeepsInvariant(st, Classify(line), line, newId);
  }

  lemma {:induction false} RunKeepsInvariant(st: State, lines: seq<string>, newId: nat -> string)
    requires Invariant(st)
    ensures Invariant(Run(st, lines, newId))
    decreases |lines|
  {
    if lines != [] {
      StepKeepsInvariant(st, lines[0], newId);
      RunKeepsInvariant(Step(st, lines[0], newId), lines[1..], newId);
    }
  }

  /** The lines as they are appended to an open block: each after a line feed. */
  function LineFeedJoined(lines: seq<string>): string {
    if lines == [] then "" else "\n" + lines[0] + LineFeedJoined(lines[1..])
  }

  /** Appending the first line, then the rest, appends all of them. */
  lemma AppendJoined(a: string, lines: seq<string>)
    requires lines != []
    ensures a + "\n" + lines[0] + LineFeedJoined(lines[1..]) == a + LineFeedJoined(lines)
  {
    assert LineFeedJoined(lines) == "\n" + lines[0] + LineFeedJoined(lines[1..]);
  }

  /**
   * Once a code block is open, every later line, the closing fence included, is appended
   * to it and no block is finished or created.
   */
  lemma {:induction false} CodeAbsorbs(st: State, lines: seq<string>, newId: nat -> string)
    requires st.cur.Some? && st.cur.value.kind == Code
    ensures Run(st, lines, newId)
         == State(st.done, Some(st.cur.value.(content := st.cur.value.content + LineFeedJoined(lines))), st.made)
    decreases |lines|
  {
    if lines == [] {
      assert st.cur.value.content + LineFeedJoined(lines) == st.cur.value.content;
    } else {
      var b := AppendLine(st.cur.value, lines[0]);
      var next := Step(st, lines[0], newId);
      assert next == State(st.done, Some(b), st.made);
      CodeAbsorbs(next, lines[1..], newId);
      AppendJoined(st.cur.value.content, lines);
    }
  }

  /** A whitespace-only line is blank: it is no insertion, heading, fence or item. */
  lemma BlankLineClass(line: string)
    requires AllSpace(line)
    ensures Classify(line) == BlankLine
  {
    TrimEmptyIff(line);
    NoTagWithoutBracket(line);
    if line != [] {
      assert IsSpace(line[0]);
      assert HeadingLevel(line).None?;
      assert !StartsWith(line, "```") && !StartsWith(line, "$$");
      assert !IsQuoteLine(line) && !IsListLine(line);
    }
  }

  /** Text without a `[` holds no component tag. */
  lemma NoTagWithoutBracket(line: string)
    requires AllSpace(line)
    ensures !Contains(line, ComponentTag)
  {
    ContainsIff(line, ComponentTag);
    forall i ensures !OccursAt(line, ComponentTag, i) {
      if 0 <= i && i + |ComponentTag| <= |line| {
        assert line[i..i + |ComponentTag|][0] == line[i];
        assert IsSpace(line[i]);
      }
    }
  }

  /** A blank line finishes the open block, unless that block is code. */
  lemma BlankLineCloses(st: State, line: string, newId: nat -> string)
    requires AllSpace(line)
    requires st.cur.None? || st.cur.value.kind != Code
    ensures Step(st, line, newId) == State(Flush(st), None, st.made)
  {
    BlankLineClass(line);
    StepByClass(st, line, BlankLine, newId);
    StepAsBlank(st, line, newId);
  }

  lemma StepAsBlank(st: State, line: string, newId: nat -> string)
    requires st.cur.None? || st.cur.value.kind != Code
    ensures StepAs(st, BlankLine, line, newId) == State(Flush(st), None, st.made)
  {
  }

  /** The block kind that lines of each continuing class build. */
  function ContinuedKind(c: LineClass): BlockKind
    requires c.TextLine? || c.ListLine? || c.QuoteLine?
  {
    if c.TextLine? then Paragraph else if c.ListLine? then List else Blockquote
  }

  lemma StepByClass(st: State, line: string, c: LineClass, newId: nat -> string)
    requires Classify(line) == c
    ensures Step(st, line, newId) == StepAs(st, c, line, newId)
  {
  }

  lemma StepAsContinues(st: State, c: LineClass, line: string, newId: nat -> string)
    requires c.TextLine? || c.ListLine? || c.QuoteLine?
    requires st.cur.Some? && st.cur.value.kind == ContinuedKind(c)
    ensures StepAs(st, c, line, newId) == State(st.done, Some(AppendLine(st.cur.value, line)), st.made)
  {
  }

  lemma StepAsOpens(st: State, c: LineClass, line: string, newId: nat -> string)
    requires c.TextLine? || c.ListLine? || c.QuoteLine?
    requires st.cur.None? || st.cur.value.kind !in {Code, ContinuedKind(c)}
    ensures StepAs(st, c, line, newId) == State(Flush(st), Some(NewBlock(newId, st.made, line, ContinuedKind(c))), st.made + 1)
  {
  }

  /** Lines of one continuing class extend an open block of their kind. */
  lemma {:induction false} ContinueBlock(st: State, lines: seq<string>, c: LineClass, newId: nat -> string)
    requires c.TextLine? || c.ListLine? || c.QuoteLine?
    requires st.cur.Some? && st.cur.value.kind == ContinuedKind(c)
    requires forall i :: 0 <= i < |lines| ==> Classify(lines[i]) == c
    ensures Run(st, lines, newId)
         == State(st.done, Some(st.cur.value.(content := st.cur.value.content + LineFeedJoined(lines))), st.made)
    decreases |lines|
  {
    if lines == [] {
      assert st.cur.value.content + LineFeedJoined(lines) == st.cur.value.content;
    } else {
      var b := AppendLine(st.cur.value, lines[0]);
      StepByClass(st, lines[0], c, newId);
      StepAsContinues(st, c, lines[0], newId);
      var next := State(st.done, Some(b), st.made);
      assert forall i :: 0 <= i < |lines[1..]| ==> Classify(lines[1..][i]) == c by {
        forall i | 0 <= i < |lines[1..]| ensures Classify(lines[1..][i]) == c {
          assert lines[1..][i] == lines[i + 1];
        }
      }
      ContinueBlock(next, lines[1..], c, newId);
      AppendJoined(st.cur.value.content, lines);
    }
  }

  /**
   * Consecutive paragraph, list or blockquote lines after a block of another kind form
   * one new block whose content is the lines joined with line feeds.
   */
  lemma ConsecutiveLinesJoin(st: State, lines: seq<string>, c: LineClass, newId: nat -> string)
    requires c.TextLine? || c.ListLine? || c.QuoteLine?
    requires st.cur.None? || st.cur.value.kind !in {Code, ContinuedKind(c)}
    requires |lines| > 0 && forall i :: 0 <= i < |lines| ==> Classify(lines[i]) == c
    ensures Run(st, lines, newId)
         == State(Flush(st), Some(NewBlock(newId, st.made, lines[0] + LineFeedJoined(lines[1..]), ContinuedKind(c))), st.made + 1)
  {
    StepByClass(st, lines[0], c, newId);
    StepAsOpens(st, c, lines[0], newId);
    var next := State(Flush(st), Some(NewBlock(newId, st.made, lines[0], ContinuedKind(c))), st.made + 1);
    assert forall i :: 0 <= i < |lines[1..]| ==> Classify(lines[1..][i]) == c by {
      forall i | 0 <= i < |lines[1..]| ensures Classify(lines[1..][i]) == c {
        assert lines[1..][i] == lines[i + 1];
      }
    }
    ContinueBlock(next, lines[1..], c, newId);
  }

  /** `h` hash signs. */
  function Hashes(h: nat): (r: string)
    ensures |r| == h && forall i :: 0 <= i < h ==> r[i] == '#'
  {
    if h == 0 then "" else Hashes(h - 1) + "#"
  }

  /** 1 to 6 hash signs and a whitespace character make a heading of that level. */
  lemma HeadingRendered(h: nat, sp: char, title: string)
    requires 1 <= h <= 6 && IsSpace(sp)
    ensures HeadingLevel(Hashes(h) + [sp] + title) == Some(h)
    ensures (Hashes(h) + [sp] + title)[h + 1..] == title
  {
    var line := Hashes(h) + [sp] + title;
    assert forall i :: 0 <= i < h ==> line[i] == '#';
    assert line[h] == sp;
    PrefixLenAt(line, c => c == '#', h);
  }

  /** Seven or more leading hash signs are not a heading. */
  lemma TooManyHashes(line: string)
    requires |line| >= 7 && forall i :: 0 <= i < 7 ==> line[i] == '#'
    ensures HeadingLevel(line).None?
  {
    PrefixLenAtLeast(line, c => c == '#', 7);
  }

  /** A heading line that holds no insertion becomes a heading block of its level. */
  lemma HeadingLineBlock(st: State, line: string, newId: nat -> string)
    requires HeadingLevel(line).Some? && ParseComponentInsertion(line).None?
    requires st.cur.None? || st.cur.value.kind != Code
    ensures var h := HeadingLevel(line).value;
      Step(st, line, newId)
      == State(Flush(st) + [Block(newId(st.made), line[h + 1..], Heading, Some(h), None)], None, st.made + 1)
  {
  }

  // ----- Merging adjacent blocks -----

  /** Blocks of these kinds join a following block of the same kind. */
  predicate Mergeable(k: BlockKind) { k != Heading && k != Component }

  predicate Merges(last: Block, b: Block) { b.kind == last.kind && Mergeable(b.kind) }

  /** No two neighbours could be merged. */
  predicate NoMergeablePair(bs: seq<Block>) {
    forall i :: 0 <= i < |bs| - 1 ==> !Merges(bs[i], bs[i + 1])
  }

  /** Adds `b` after `merged`, joining it to the last block when both have one mergeable kind. */
  function MergeInto(merged: seq<Block>, b: Block): seq<Block>
    requires merged != []
  {
    var last := merged[|merged| - 1];
    if Merges(last, b) then merged[..|merged| - 1] + [last.(content := last.content + "\n\n" + b.content)]
    else merged + [b]
  }

  /** `mergeAdjacentBlocks`. */
  function MergeAdjacentBlocks(bs: seq<Block>): (r: seq<Block>)
    ensures |r| <= |bs| && (bs != [] ==> r != [])
    ensures |bs| <= 1 ==> r == bs
    ensures r != [] ==> r[|r| - 1].kind == bs[|bs| - 1].kind
    ensures NoMergeablePair(r)
  {
    if |bs| <= 1 then bs
    else
      var m := MergeAdjacentBlocks(bs[..|bs| - 1]);
      var r := MergeInto(m, bs[|bs| - 1]);
      assert forall i :: 0 <= i < |m| - 1 ==> r[i] == m[i];
      r
  }

  /** The blocks merging leaves alone: headings and components, in order. */
  function Unmergeables(bs: seq<Block>): seq<Block> {
    if bs == [] then []
    else Unmergeables(bs[..|bs| - 1]) + (if Mergeable(bs[|bs| - 1].kind) then [] else [bs[|bs| - 1]])
  }

  lemma UnmergeablesSnoc(bs: seq<Block>, b: Block)
    ensures Unmergeables(bs + [b]) == Unmergeables(bs) + (if Mergeable(b.kind) then [] else [b])
  {
    assert (bs + [b])[..|bs|] == bs;
  }

  lemma MergeIntoUnmergeables(m: seq<Block>, b: Block)
    requires m != []
    ensures Unmergeables(MergeInto(m, b)) == Unmergeables(m) + (if Mergeable(b.kind) then [] else [b])
  {
    var last := m[|m| - 1];
    if Merges(last, b) {
      var init := m[..|m| - 1];
      assert m == init + [last];
      UnmergeablesSnoc(init, last);
      UnmergeablesSnoc(init, last.(content := last.content + "\n\n" + b.content));
    } else {
      UnmergeablesSnoc(m, b);
    }
  }

  /** Merging never touches a heading or component block, nor their order. */
  lemma {:induction false} MergeKeepsUnmergeables(bs: seq<Block>)
    ensures Unmergeables(MergeAdjacentBlocks(bs)) == Unmergeables(bs)
  {
    if |bs| > 1 {
      var p := bs[..|bs| - 1];
      var b := bs[|bs| - 1];
      MergeKeepsUnmergeables(p);
      assert bs == p + [b];
      UnmergeablesSnoc(p, b);
      MergeIntoUnmergeables(MergeAdjacentBlocks(p), b);
    }
  }

  /** The contents of the blocks, in order. */
  function Contents(bs: seq<Block>): (r: seq<string>)
    ensures |r| == |bs| && forall i :: 0 <= i < |bs| ==> r[i] == bs[i].content
  {
    seq(|bs|, i requires 0 <= i < |bs| => bs[i].content)
  }

  /** All the text of the blocks, separated by blank lines. */
  function AllText(bs: seq<Block>): string {
    Join(Contents(bs), "\n\n")
  }

  lemma AllTextSnoc(bs: seq<Block>, b: Block)
    requires bs != []
    ensures AllText(bs + [b]) == AllText(bs) + "\n\n" + b.content
  {
    assert Contents(bs + [b]) == Contents(bs) + [b.content];
    JoinSnoc(Contents(bs), b.content, "\n\n");
  }

  /** Merging keeps all the text: merged contents are joined with a blank line. */
  lemma {:induction false} MergeKeepsAllText(bs: seq<Block>)
    ensures AllText(MergeAdjacentBlocks(bs)) == AllText(bs)
  {
    if |bs| > 1 {
      var p := bs[..|bs| - 1];
      var b := bs[|bs| - 1];
      MergeKeepsAllText(p);
      assert bs == p + [b];
      AllTextSnoc(p, b);
      MergeIntoAllText(MergeAdjacentBlocks(p), b);
    }
  }

  /** Adding a block, merged or not, appends a blank line and its content to all the text. */
  lemma MergeIntoAllText(m: seq<Block>, b: Block)
    requires m != []
    ensures AllText(MergeInto(m, b)) == AllText(m) + "\n\n" + b.content
  {
    var last := m[|m| - 1];
    if Merges(last, b) {
      var init := m[..|m| - 1];
      var joined := last.(content := last.content + "\n\n" + b.content);
      assert m == init + [last];
      if init == [] {
        assert AllText([joined]) == joined.content;
        assert AllText(m) == last.content;
      } else {
        AllTextSnoc(init, last);
        AllTextSnoc(init, joined);
      }
    } else {
      AllTextSnoc(m, b);
    }
  }

  /** Blocks with no mergeable neighbours are left as they are. */
  lemma {:induction false} MergeUnchanged(bs: seq<Block>)
    requires NoMergeablePair(bs)
    ensures MergeAdjacentBlocks(bs) == bs
  {
    if |bs| > 1 {
      var p := bs[..|bs| - 1];
      assert NoMergeablePair(p);
      MergeUnchanged(p);
      assert !Merges(p[|p| - 1], bs[|bs| - 1]);
      assert p + [bs[|bs| - 1]] == bs;
    }
  }

  /** Merging twice is merging once. */
  lemma MergeIdempotent(bs: seq<Block>)
    ensures MergeAdjacentBlocks(MergeAdjacentBlocks(bs)) == MergeAdjacentBlocks(bs)
  {
    MergeUnchanged(MergeAdjacentBlocks(bs));
  }

  // ----- Deduplicating components -----

  /** A component block with a non-empty name; only these are deduplicated. */
  predicate Named(b: Block) {
    b.kind == Component && b.insertion.Some? && b.insertion.value.name != []
  }

  /** The names of the named component blocks, in order. */
  function NameList(bs: seq<Block>): seq<string> {
    if bs == [] then []
    else
      var b := bs[|bs| - 1];
      NameList(bs[..|bs| - 1]) + (if Named(b) then [b.insertion.value.name] else [])
  }

  lemma NameListSnoc(bs: seq<Block>, b: Block)
    ensures NameList(bs + [b]) == NameList(bs) + (if Named(b) then [b.insertion.value.name] else [])
  {
    assert (bs + [b])[..|bs|] == bs;
  }

  predicate Distinct(xs: seq<string>) {
    forall i, j :: 0 <= i < j < |xs| ==> xs[i] != xs[j]
  }

  /**
   * The deduplication loop of `analyzeContent`: a named component whose name was already
   * kept is dropped; every other block is kept.
   */
  function Dedupe(bs: seq<Block>): (r: seq<Block>)
    ensures |r| <= |bs|
  {
    if bs == [] then []
    else
      var p := bs[..|bs| - 1];
      var b := bs[|bs| - 1];
      var r := Dedupe(p);
      if Named(b) && b.insertion.value.name in NameList(r) then r
      else r + [b]
  }

  /**
   * After deduplication every name occurs once, and the names that occur are exactly
   * those of the input.
   */
  lemma DedupeNames(bs: seq<Block>)
    ensures Distinct(NameList(Dedupe(bs)))
    ensures forall x :: x in NameList(Dedupe(bs)) <==> x in NameList(bs)
  {
    DedupeDistinct(bs);
    DedupeNameSet(bs);
  }

  lemma {:induction false} DedupeDistinct(bs: seq<Block>)
    ensures Distinct(NameList(Dedupe(bs)))
  {
    if bs != [] {
      var p := bs[..|bs| - 1];
      var b := bs[|bs| - 1];
      var r := Dedupe(p);
      DedupeDistinct(p);
      if !(Named(b) && b.insertion.value.name in NameList(r)) {
        NameListSnoc(r, b);
      }
    }
  }

  lemma {:induction false} DedupeNameSet(bs: seq<Block>)
    ensures forall x :: x in NameList(Dedupe(bs)) <==> x in NameList(bs)
  {
    if bs != [] {
      var p := bs[..|bs| - 1];
      var b := bs[|bs| - 1];
      var r := Dedupe(p);
      DedupeNameSet(p);
      assert bs == p + [b];
      NameListSnoc(p, b);
      if !(Named(b) && b.insertion.value.name in NameList(r)) {
        NameListSnoc(r, b);
      }
    }
  }

  /** `bs[i]` survives deduplication: it is unnamed, or no earlier block has its name. */
  ghost predicate KeptAt(bs: seq<Block>, i: nat)
    requires i < |bs|
  {
    !Named(bs[i]) || forall j :: 0 <= j < i && Named(bs[j]) ==> bs[j].insertion.value.name != bs[i].insertion.value.name
  }

  /** The blocks among the first `n` that survive, in order. */
  ghost function KeepFirst(bs: seq<Block>, n: nat): seq<Block>
    requires n <= |bs|
  {
    if n == 0 then [] else KeepFirst(bs, n - 1) + (if KeptAt(bs, n - 1) then [bs[n - 1]] else [])
  }

  /** A name occurs in the name list exactly when some named block carries it. */
  lemma {:induction false} InNameList(bs: seq<Block>, x: string)
    ensures x in NameList(bs) <==> exists j :: 0 <= j < |bs| && Named(bs[j]) && bs[j].insertion.value.name == x
  {
    if bs != [] {
      var p := bs[..|bs| - 1];
      InNameList(p, x);
      if exists j :: 0 <= j < |p| && Named(p[j]) && p[j].insertion.value.name == x {
        var j :| 0 <= j < |p| && Named(p[j]) && p[j].insertion.value.name == x;
        assert bs[j] == p[j];
      }
      if exists j :: 0 <= j < |bs| && Named(bs[j]) && bs[j].insertion.value.name == x {
        var j :| 0 <= j < |bs| && Named(bs[j]) && bs[j].insertion.value.name == x;
        if j < |p| {
          assert p[j] == bs[j];
        }
      }
    }
  }

  /** A named block survives exactly when its name is not among the earlier blocks' names. */
  lemma KeptAtIff(bs: seq<Block>, n: nat)
    requires 0 < n <= |bs| && Named(bs[n - 1])
    ensures KeptAt(bs, n - 1) <==> bs[n - 1].insertion.value.name !in NameList(bs[..n - 1])
  {
    var p := bs[..n - 1];
    var x := bs[n - 1].insertion.value.name;
    InNameList(p, x);
    if x in NameList(p) {
      var j :| 0 <= j < |p| && Named(p[j]) && p[j].insertion.value.name == x;
      assert bs[j] == p[j];
    }
    if !KeptAt(bs, n - 1) {
      var j :| 0 <= j < n - 1 && Named(bs[j]) && bs[j].insertion.value.name == x;
      assert p[j] == bs[j];
    }
  }

  /** Deduplication keeps exactly the first block of each name and every unnamed block. */
  lemma {:induction false} DedupeKeepsFirst(bs: seq<Block>, n: nat)
    requires n <= |bs|
    ensures Dedupe(bs[..n]) == KeepFirst(bs, n)
  {
    if n == 0 {
      assert bs[..n] == [];
    } else {
      DedupeKeepsFirst(bs, n - 1);
      DedupeStep(bs, n);
      assert KeepFirst(bs, n) == KeepFirst(bs, n - 1) + (if KeptAt(bs, n - 1) then [bs[n - 1]] else []);
    }
  }

  /** The `n`-th block is added to the deduplicated prefix exactly when it is kept. */
  lemma DedupeStep(bs: seq<Block>, n: nat)
    requires 0 < n <= |bs|
    ensures Dedupe(bs[..n]) == Dedupe(bs[..n - 1]) + (if KeptAt(bs, n - 1) then [bs[n - 1]] else [])
  {
    var p := bs[..n - 1];
    var b := bs[n - 1];
    assert bs[..n][..n - 1] == p;
    assert bs[..n][n - 1] == b;
    if Named(b) {
      KeptAtIff(bs, n);
      DedupeNames(p);
    }
  }

  /** Deduplication never drops an unnamed block nor reorders what it keeps. */
  lemma DedupeKeepsUnnamed(bs: seq<Block>, i: nat)
    requires i < |bs| && !Named(bs[i])
    ensures bs[i] in Dedupe(bs)
  {
    DedupeKeepsFirst(bs, |bs|);
    assert bs[..|bs|] == bs;
    KeptInKeepFirst(bs, |bs|, i);
  }

  /** A block that survives is among the survivors of every longer prefix. */
  lemma {:induction false} KeptInKeepFirst(bs: seq<Block>, n: nat, i: nat)
    requires i < n <= |bs| && KeptAt(bs, i)
    ensures bs[i] in KeepFirst(bs, n)
  {
    if i < n - 1 {
      KeptInKeepFirst(bs, n - 1, i);
    }
  }

  // ----- Backticked insertions -----

  /**
   * The pattern `` `(\[component:[^\]]+\]\(([^)]*)\))` `` tried at index `i`: the index
   * of the closing backtick.
   */
  function BacktickedAt(s: string, i: nat): (r: Option<nat>)
    ensures r.Some? ==> i + 1 < r.value < |s| && s[i] == '`' && s[r.value] == '`'
  {
    if i < |s| && s[i] == '`' then
      match MatchComponentAt(s, i + 1)
      case Some((j, k)) => if k + 1 < |s| && s[k + 1] == '`' then Some(k + 1) else None
      case None => None
    else None
  }

  /** The global replacement from index `i` on: a backticked insertion loses its backticks. */
  function UnquoteFrom(s: string, i: nat): (r: string)
    ensures |r| <= |s| - i || (i > |s| && r == [])
    ensures i <= |s| ==> WithoutBackticks(r) == WithoutBackticks(s[i..])
    decreases |s| - i
  {
    if i >= |s| then []
    else match BacktickedAt(s, i)
      case Some(e) =>
        var v := UnquoteFrom(s, e + 1);
        QuotedStep(s, i, e, v);
        s[i + 1..e] + v
      case None =>
        var v := UnquoteFrom(s, i + 1);
        PlainStep(s, i, v);
        [s[i]] + v
  }

  /** The first step of `analyzeContent`; it only removes backticks. */
  function Unquote(s: string): (r: string)
    ensures WithoutBackticks(r) == WithoutBackticks(s)
  {
    assert s[0..] == s;
    UnquoteFrom(s, 0)
  }

  /** `s` without its backticks. */
  function WithoutBackticks(s: string): string {
    if s == [] then [] else (if s[0] == '`' then [] else [s[0]]) + WithoutBackticks(s[1..])
  }

  lemma {:induction false} WithoutBackticksAppend(a: string, b: string)
    ensures WithoutBackticks(a + b) == WithoutBackticks(a) + WithoutBackticks(b)
  {
    if a == [] {
      assert a + b == b;
    } else {
      assert (a + b)[1..] == a[1..] + b;
      WithoutBackticksAppend(a[1..], b);
    }
  }

  /** Dropping a quoted stretch's two backticks leaves the backtick-free text unchanged. */
  lemma QuotedStep(s: string, i: nat, e: nat, v: string)
    requires i + 1 < e < |s| && s[i] == '`' && s[e] == '`'
    requires WithoutBackticks(v) == WithoutBackticks(s[e + 1..])
    ensures WithoutBackticks(s[i + 1..e] + v) == WithoutBackticks(s[i..])
  {
    assert s[i..] == [s[i]] + (s[i + 1..e] + ([s[e]] + s[e + 1..]));
    WithoutBackticksAppend([s[i]], s[i + 1..e] + ([s[e]] + s[e + 1..]));
    WithoutBackticksAppend(s[i + 1..e], [s[e]] + s[e + 1..]);
    WithoutBackticksAppend([s[e]], s[e + 1..]);
    WithoutBackticksAppend(s[i + 1..e], v);
  }

  /** Keeping one character in front keeps the backtick-free text unchanged. */
  lemma PlainStep(s: string, i: nat, v: string)
    requires i < |s|
    requires WithoutBackticks(v) == WithoutBackticks(s[i + 1..])
    ensures WithoutBackticks([s[i]] + v) == WithoutBackticks(s[i..])
  {
    assert s[i..] == [s[i]] + s[i + 1..];
    WithoutBackticksAppend([s[i]], s[i + 1..]);
    WithoutBackticksAppend([s[i]], v);
  }

  /** Text without backticks is left as it is. */
  lemma {:induction false} UnquoteNoBackticks(s: string, i: nat)
    requires i <= |s| && '`' !in s
    ensures UnquoteFrom(s, i) == s[i..]
    decreases |s| - i
  {
    if i < |s| {
      UnquoteNoBackticks(s, i + 1);
      assert s[i..] == [s[i]] + s[i + 1..];
    }
  }

  /**
   * Only backticked insertions lose their backticks: a stretch with no backticked insertion
   * starting in it is copied as it is, backticks included, so inline code such as
   * `` `x` `` is kept.
   */
  lemma {:induction false} UnquotePlainStretch(s: string, i: nat, j: nat)
    requires i <= j <= |s|
    requires forall k :: i <= k < j ==> BacktickedAt(s, k).None?
    ensures UnquoteFrom(s, i) == s[i..j] + UnquoteFrom(s, j)
    decreases j - i
  {
    if i < j {
      UnquotePlainStretch(s, i + 1, j);
      UnquotePlainAt(s, i);
      ConsSlice(s, i, j, UnquoteFrom(s, j));
    } else {
      assert s[i..j] == [];
    }
  }

  lemma ConsSlice(s: string, i: nat, j: nat, v: string)
    requires i < j <= |s|
    ensures [s[i]] + (s[i + 1..j] + v) == s[i..j] + v
  {
    assert s[i..j] == [s[i]] + s[i + 1..j];
  }

  lemma UnquotePlainAt(s: string, i: nat)
    requires i < |s| && BacktickedAt(s, i).None?
    ensures UnquoteFrom(s, i) == [s[i]] + UnquoteFrom(s, i + 1)
  {
  }

  /** Text with no backticked insertion anywhere is left exactly as it is. */
  lemma UnquoteKeepsOtherText(s: string)
    requires forall k :: 0 <= k < |s| ==> BacktickedAt(s, k).None?
    ensures Unquote(s) == s
  {
    UnquotePlainStretch(s, 0, |s|);
    assert s[0..|s|] == s;
  }

  /** Ordinary inline code keeps its backticks. */
  lemma UnquoteInlineCode()
    ensures Unquote("`x`") == "`x`"
  {
    var s := "`x`";
    assert !OccursAt(s, ComponentTag, 1) by { assert s[1] != ComponentTag[0]; }
    assert !OccursAt(s, ComponentTag, 3);
    forall k | 0 <= k < |s| ensures BacktickedAt(s, k).None? {
    }
    UnquoteKeepsOtherText(s);
  }

  /** A backticked insertion loses exactly its two backticks. */
  lemma UnquoteRendered(name: string, props: string)
    requires name != [] && ']' !in name && ')' !in props
    ensures Unquote("`" + RenderInsertion(name, props) + "`") == RenderInsertion(name, props)
  {
    var r := RenderInsertion(name, props);
    var s := "`" + r + "`";
    MatchRenderedAt("`", name, props, "`");
    assert s[|r|] == ')' && s[|r| + 1] == '`';
    assert BacktickedAt(s, 0) == Some(|s| - 1);
    assert UnquoteFrom(s, |s|) == [];
    assert s[1..|s| - 1] == r;
  }

  // ----- The whole analysis -----

  /**
   * `analyzeContent`: unquote backticked insertions, split into blocks, drop repeated
   * components, merge adjacent blocks of one mergeable kind.
   */
  function AnalyzeContent(content: string, newId: nat -> string): (r: seq<Block>)
    ensures forall i :: 0 <= i < |r| ==> WellFormed(r[i])
    ensures Distinct(NameList(r))
    ensures NoMergeablePair(r)
  {
    var blocks := SplitContentIntoBlocks(Unquote(content), newId);
    var unique := Dedupe(blocks);
    var r := MergeAdjacentBlocks(unique);
    DedupeWellFormed(blocks);
    DedupeNames(blocks);
    MergeWellFormed(unique);
    MergeKeepsUnmergeables(unique);
    NameListOfUnmergeables(unique);
    NameListOfUnmergeables(r);
    r
  }

  lemma {:induction false} DedupeWellFormed(bs: seq<Block>)
    requires forall i :: 0 <= i < |bs| ==> WellFormed(bs[i])
    ensures forall i :: 0 <= i < |Dedupe(bs)| ==> WellFormed(Dedupe(bs)[i])
  {
    if bs != [] {
      var p := bs[..|bs| - 1];
      DedupeWellFormed(p);
    }
  }

  lemma {:induction false} MergeWellFormed(bs: seq<Block>)
    requires forall i :: 0 <= i < |bs| ==> WellFormed(bs[i])
    ensures forall i :: 0 <= i < |MergeAdjacentBlocks(bs)| ==> WellFormed(MergeAdjacentBlocks(bs)[i])
  {
    if |bs| > 1 {
      var p := bs[..|bs| - 1];
      MergeWellFormed(p);
    }
  }

  /** Names live on component blocks, which merging leaves alone. */
  lemma {:induction false} NameListOfUnmergeables(bs: seq<Block>)
    ensures NameList(Unmergeables(bs)) == NameList(bs)
  {
    if bs != [] {
      var p := bs[..|bs| - 1];
      var b := bs[|bs| - 1];
      NameListOfUnmergeables(p);
      assert bs == p + [b];
      NameListSnoc(p, b);
      UnmergeablesSnoc(p, b);
      if Mergeable(b.kind) {
        assert Unmergeables(bs) == Unmergeables(p);
        assert NameList(bs) == NameList(p);
      } else {
        assert Unmergeables(bs) == Unmergeables(p) + [b];
        NameListSnoc(Unmergeables(p), b);
      }
    }
  }

  /** The analysis keeps the names of the split blocks, each once, in first-seen order. */
  lemma AnalyzeKeepsNames(content: string, newId: nat -> string)
    ensures var blocks := SplitContentIntoBlocks(Unquote(content), newId);
      NameList(AnalyzeContent(content, newId)) == NameList(Dedupe(blocks))
  {
    var blocks := SplitContentIntoBlocks(Unquote(content), newId);
    var unique := Dedupe(blocks);
    MergeKeepsUnmergeables(unique);
    NameListOfUnmergeables(unique);
    NameListOfUnmergeables(MergeAdjacentBlocks(unique));
  }
}
