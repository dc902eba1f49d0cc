/**
 * Spacing between Chinese and Latin text: a space goes between every CJK character that
 * is directly followed by an ASCII letter or digit, and every ASCII letter or digit that
 * is directly followed by a CJK character.
 *
 * The insertion is defined once, over any element type, a "Chinese" test, an "English"
 * test and the space to insert. The source applies it to UTF-16 code units (what
 * `split('')` and `charCodeAt` see); `AddSpacingCodePoints` applies it to code points.
 */
module TextSpacing {
  import opened Text

  // ----- The classifiers, on character codes -----

  /** `isChineseChar` on the code of a character: CJK ideographs, punctuation and full-width forms. */
  predicate IsChineseCode(code: int) {
    || (0x4e00 <= code <= 0x9fff)
    || (0x3400 <= code <= 0x4dbf)
    || (0x20000 <= code <= 0x2a6df)
    || (0x2a700 <= code <= 0x2b73f)
    || (0x2b740 <= code <= 0x2b81f)
    || (0x2b820 <= code <= 0x2ceaf)
    || (0x2ceb0 <= code <= 0x2ebef)
    || (0x3000 <= code <= 0x303f)
    || (0xff00 <= code <= 0xffef)
  }

  /** `isEnglishChar` on the code of a character: A-Z, a-z, 0-9. */
  predicate IsEnglishCode(code: int) {
    (0x41 <= code <= 0x5a) || (0x61 <= code <= 0x7a) || (0x30 <= code <= 0x39)
  }

  /** The English class is exactly the ASCII letters and digits. */
  lemma EnglishIsAsciiAlnum(c: char)
    ensures IsEnglishCode(c as int) <==> IsAsciiAlnum(c)
  {
  }

  /** No character is in both classes, and the space is in neither. */
  lemma ClassesDisjoint(code: int)
    ensures !(IsChineseCode(code) && IsEnglishCode(code))
    ensures !IsChineseCode(' ' as int) && !IsEnglishCode(' ' as int)
  {
  }

  // ----- The insertion, generically -----

  /** A space belongs between `a` and `b`: Chinese then English, or English then Chinese. */
  predicate Boundary<T>(a: T, b: T, zh: T -> bool, en: T -> bool) {
    (zh(a) && en(b)) || (en(a) && zh(b))
  }

  /** A space belongs after position `i` of `t`. */
  predicate BoundaryAfter<T>(t: seq<T>, i: int, zh: T -> bool, en: T -> bool) {
    0 <= i && i + 1 < |t| && Boundary(t[i], t[i + 1], zh, en)
  }

  /** What the loop appends for position `i`: the character, then a space if one belongs after it. */
  function Piece<T>(t: seq<T>, i: nat, zh: T -> bool, en: T -> bool, sp: T): seq<T>
    requires i < |t|
  {
    [t[i]] + if BoundaryAfter(t, i, zh, en) then [sp] else []
  }

  /** The output once the first `k` positions are done. */
  function SpacedUpTo<T>(t: seq<T>, k: nat, zh: T -> bool, en: T -> bool, sp: T): seq<T>
    requires k <= |t|
  {
    if k == 0 then [] else SpacedUpTo(t, k - 1, zh, en, sp) + Piece(t, k - 1, zh, en, sp)
  }

  function Spaced<T>(t: seq<T>, zh: T -> bool, en: T -> bool, sp: T): seq<T> {
    SpacedUpTo(t, |t|, zh, en, sp)
  }

  /** The number of boundaries after positions below `k`. */
  function BoundariesBefore<T>(t: seq<T>, k: nat, zh: T -> bool, en: T -> bool): nat
    requires k <= |t|
  {
    if k == 0 then 0
    else BoundariesBefore(t, k - 1, zh, en) + if BoundaryAfter(t, k - 1, zh, en) then 1 else 0
  }

  /** The loop of `addSpacingBetweenZhEn`, appending piece by piece. */
  method AddSpacing<T>(text: seq<T>, zh: T -> bool, en: T -> bool, sp: T) returns (result: seq<T>)
    ensures result == Spaced(text, zh, en, sp)
  {
    result := [];
    var i := 0;
    while i < |text|
      invariant 0 <= i <= |text|
      invariant result == SpacedUpTo(text, i, zh, en, sp)
    {
      result := result + [text[i]];
      if i + 1 < |text| && ((zh(text[i]) && en(text[i + 1])) || (en(text[i]) && zh(text[i + 1]))) {
        result := result + [sp];
      }
      i := i + 1;
    }
  }

  /** Where character `i` of the input lands: moved right by the spaces inserted before it. */
  function Pos<T>(t: seq<T>, i: nat, zh: T -> bool, en: T -> bool): nat
    requires i <= |t|
  {
    i + BoundariesBefore(t, i, zh, en)
  }

  lemma {:induction false} BoundariesMonotone<T>(t: seq<T>, i: nat, k: nat, zh: T -> bool, en: T -> bool)
    requires i <= k <= |t|
    ensures BoundariesBefore(t, i, zh, en) <= BoundariesBefore(t, k, zh, en)
    decreases k - i
  {
    if i < k {
      BoundariesMonotone(t, i, k - 1, zh, en);
    }
  }

  /** The output is the input plus one space per boundary. */
  lemma {:induction false} SpacedLength<T>(t: seq<T>, k: nat, zh: T -> bool, en: T -> bool, sp: T)
    requires k <= |t|
    ensures |SpacedUpTo(t, k, zh, en, sp)| == Pos(t, k, zh, en)
  {
    if k > 0 {
      SpacedLength(t, k - 1, zh, en, sp);
    }
  }

  /** Character `i` of the input is at `Pos(i)` in the output. */
  lemma {:induction false} SpacedKeeps<T>(t: seq<T>, k: nat, i: nat, zh: T -> bool, en: T -> bool, sp: T)
    requires i < k <= |t|
    ensures Pos(t, i, zh, en) < |SpacedUpTo(t, k, zh, en, sp)|
    ensures SpacedUpTo(t, k, zh, en, sp)[Pos(t, i, zh, en)] == t[i]
  {
    var prev := SpacedUpTo(t, k - 1, zh, en, sp);
    SpacedLength(t, k - 1, zh, en, sp);
    SpacedLength(t, k, zh, en, sp);
    if i < k - 1 {
      SpacedKeeps(t, k - 1, i, zh, en, sp);
    }
  }

  /** After a character at a boundary comes the inserted space. */
  lemma {:induction false} SpacedInserts<T>(t: seq<T>, k: nat, i: nat, zh: T -> bool, en: T -> bool, sp: T)
    requires i < k <= |t| && BoundaryAfter(t, i, zh, en)
    ensures Pos(t, i, zh, en) + 1 < |SpacedUpTo(t, k, zh, en, sp)|
    ensures SpacedUpTo(t, k, zh, en, sp)[Pos(t, i, zh, en) + 1] == sp
  {
    var prev := SpacedUpTo(t, k - 1, zh, en, sp);
    SpacedLength(t, k - 1, zh, en, sp);
    SpacedLength(t, k, zh, en, sp);
    if i < k - 1 {
      BoundariesMonotone(t, i + 1, k - 1, zh, en);
      SpacedInserts(t, k - 1, i, zh, en, sp);
    }
  }

  /**
   * The layout of the whole output: each input character at its `Pos`, a space right
   * after each boundary, and nothing else, since the length is the input's plus one per
   * boundary.
   */
  ghost predicate Layout<T>(t: seq<T>, r: seq<T>, zh: T -> bool, en: T -> bool, sp: T) {
    && |r| == Pos(t, |t|, zh, en)
    && (forall i :: 0 <= i < |t| ==> Pos(t, i, zh, en) < |r| && r[Pos(t, i, zh, en)] == t[i])
    && (forall i :: 0 <= i < |t| && BoundaryAfter(t, i, zh, en) ==>
          Pos(t, i, zh, en) + 1 < |r| && r[Pos(t, i, zh, en) + 1] == sp)
  }

  lemma SpacedLayout<T>(t: seq<T>, zh: T -> bool, en: T -> bool, sp: T)
    ensures Layout(t, Spaced(t, zh, en, sp), zh, en, sp)
  {
    SpacedLength(t, |t|, zh, en, sp);
    forall i | 0 <= i < |t|
      ensures Pos(t, i, zh, en) < |Spaced(t, zh, en, sp)| && Spaced(t, zh, en, sp)[Pos(t, i, zh, en)] == t[i]
    {
      SpacedKeeps(t, |t|, i, zh, en, sp);
    }
    forall i | 0 <= i < |t| && BoundaryAfter(t, i, zh, en)
      ensures Pos(t, i, zh, en) + 1 < |Spaced(t, zh, en, sp)| && Spaced(t, zh, en, sp)[Pos(t, i, zh, en) + 1] == sp
    {
      SpacedInserts(t, |t|, i, zh, en, sp);
    }
  }

  /** The output has no boundary left: every CJK/Latin pair is now separated. */
  predicate NoBoundary<T>(s: seq<T>, zh: T -> bool, en: T -> bool) {
    forall p :: 0 <= p < |s| - 1 ==> !Boundary(s[p], s[p + 1], zh, en)
  }

  lemma {:induction false} SpacedUpToLast<T>(t: seq<T>, k: nat, zh: T -> bool, en: T -> bool, sp: T)
    requires 0 < k <= |t|
    ensures var r := SpacedUpTo(t, k, zh, en, sp);
      |r| > 0 && r[|r| - 1] == if BoundaryAfter(t, k - 1, zh, en) then sp else t[k - 1]
  {
  }

  lemma {:induction false} SpacedNoBoundary<T>(t: seq<T>, k: nat, zh: T -> bool, en: T -> bool, sp: T)
    requires k <= |t| && !zh(sp) && !en(sp)
    ensures NoBoundary(SpacedUpTo(t, k, zh, en, sp), zh, en)
  {
    if k > 0 {
      SpacedNoBoundary(t, k - 1, zh, en, sp);
      var prev := SpacedUpTo(t, k - 1, zh, en, sp);
      var piece := Piece(t, k - 1, zh, en, sp);
      var r := prev + piece;
      assert r == SpacedUpTo(t, k, zh, en, sp);
      if k > 1 {
        SpacedUpToLast(t, k - 1, zh, en, sp);
      }
      forall p | 0 <= p < |r| - 1
        ensures !Boundary(r[p], r[p + 1], zh, en)
      {
        if p + 1 < |prev| {
          assert r[p] == prev[p] && r[p + 1] == prev[p + 1];
        } else if p + 1 == |prev| {
          assert r[p] == prev[|prev| - 1] && r[p + 1] == t[k - 1];
        } else {
          assert r[p] == t[k - 1] && r[p + 1] == sp;
        }
      }
    }
  }

  /** A text with no boundary comes out unchanged. */
  lemma {:induction false} SpacedNoBoundaryUnchanged<T>(t: seq<T>, k: nat, zh: T -> bool, en: T -> bool, sp: T)
    requires k <= |t| && NoBoundary(t, zh, en)
    ensures SpacedUpTo(t, k, zh, en, sp) == t[..k]
  {
    if k > 0 {
      SpacedNoBoundaryUnchanged(t, k - 1, zh, en, sp);
      assert !BoundaryAfter(t, k - 1, zh, en);
      assert t[..k] == t[..k - 1] + [t[k - 1]];
    }
  }

  /** Spacing twice is spacing once: the inserted space is in neither class. */
  lemma SpacedIdempotent<T>(t: seq<T>, zh: T -> bool, en: T -> bool, sp: T)
    requires !zh(sp) && !en(sp)
    ensures Spaced(Spaced(t, zh, en, sp), zh, en, sp) == Spaced(t, zh, en, sp)
  {
    var r := Spaced(t, zh, en, sp);
    SpacedNoBoundary(t, |t|, zh, en, sp);
    SpacedNoBoundaryUnchanged(r, |r|, zh, en, sp);
    assert r[..|r|] == r;
  }

  // ----- addSpacingBetweenZhEn as written: on UTF-16 code units -----

  /** A UTF-16 code unit, the value `charCodeAt` returns. */
  type CodeUnit = x: int | 0 <= x < 0x1_0000

  predicate ChineseUnit(u: CodeUnit) { IsChineseCode(u) }
  predicate EnglishUnit(u: CodeUnit) { IsEnglishCode(u) }

  const SpaceUnit: CodeUnit := 0x20

  /** `addSpacingBetweenZhEn` on the text's code units; the empty text gives the empty text. */
  function AddSpacingBetweenZhEn(text: seq<CodeUnit>): seq<CodeUnit> {
    if text == [] then [] else Spaced(text, ChineseUnit, EnglishUnit, SpaceUnit)
  }

  /** The properties of the insertion, on the source's own units. */
  lemma AddSpacingBetweenZhEnMeaning(text: seq<CodeUnit>)
    ensures text == [] ==> AddSpacingBetweenZhEn(text) == []
    ensures Layout(text, AddSpacingBetweenZhEn(text), ChineseUnit, EnglishUnit, SpaceUnit)
    ensures NoBoundary(AddSpacingBetweenZhEn(text), ChineseUnit, EnglishUnit)
    ensures AddSpacingBetweenZhEn(AddSpacingBetweenZhEn(text)) == AddSpacingBetweenZhEn(text)
  {
    SpacedLayout(text, ChineseUnit, EnglishUnit, SpaceUnit);
    SpacedNoBoundary(text, |text|, ChineseUnit, EnglishUnit, SpaceUnit);
    SpacedIdempotent(text, ChineseUnit, EnglishUnit, SpaceUnit);
  }

  /** A code unit is at most 0xFFFF, so only the ranges below 0x10000 can ever hold. */
  lemma ChineseUnitRanges(u: CodeUnit)
    ensures ChineseUnit(u) <==> (0x4e00 <= u <= 0x9fff) || (0x3400 <= u <= 0x4dbf)
                                || (0x3000 <= u <= 0x303f) || (0xff00 <= u <= 0xffef)
  {
  }

  /**
   * U+20000 (Extension B) followed by `a`: in UTF-16 the ideograph is the surrogate pair
   * D840 DC00, neither unit is Chinese, and no space is inserted.
   */
  lemma ExtensionBNotSpaced()
    ensures AddSpacingBetweenZhEn([0xD840, 0xDC00, 0x61]) == [0xD840, 0xDC00, 0x61]
  {
    var t: seq<CodeUnit> := [0xD840, 0xDC00, 0x61];
    assert NoBoundary(t, ChineseUnit, EnglishUnit);
    SpacedNoBoundaryUnchanged(t, 3, ChineseUnit, EnglishUnit, SpaceUnit);
    assert t[..3] == t;
  }

  // ----- The same insertion on code points -----

  predicate ChineseChar(c: char) { IsChineseCode(c as int) }
  predicate EnglishChar(c: char) { IsEnglishCode(c as int) }

  /** The insertion over code points, where the Extension B-F ranges take effect. */
  function AddSpacingCodePoints(text: string): string {
    Spaced(text, ChineseChar, EnglishChar, ' ')
  }

  lemma AddSpacingCodePointsMeaning(text: string)
    ensures Layout(text, AddSpacingCodePoints(text), ChineseChar, EnglishChar, ' ')
    ensures NoBoundary(AddSpacingCodePoints(text), ChineseChar, EnglishChar)
    ensures AddSpacingCodePoints(AddSpacingCodePoints(text)) == AddSpacingCodePoints(text)
  {
    SpacedLayout(text, ChineseChar, EnglishChar, ' ');
    SpacedNoBoundary(text, |text|, ChineseChar, EnglishChar, ' ');
    SpacedIdempotent(text, ChineseChar, EnglishChar, ' ');
  }

  /** On code points, U+20000 followed by `a` gets its space. */
  lemma ExtensionBSpaced()
    ensures AddSpacingCodePoints("\U{20000}a") == "\U{20000} a"
  {
    var t := "\U{20000}a";
    assert BoundaryAfter(t, 0, ChineseChar, EnglishChar);
    assert !BoundaryAfter(t, 1, ChineseChar, EnglishChar);
    assert SpacedUpTo(t, 1, ChineseChar, EnglishChar, ' ') == ['\U{20000}', ' '];
  }
}
