/**
 * Two pure parts of the accessibility utilities: the roving index of the keyboard
 * navigation hook (arrow keys, Home, End, Enter and Space over a list of items) and the
 * anchor id of a heading. The index is a JavaScript number, so it can become NaN (when
 * the list is empty) or fall outside the list (when the list shrinks between renders);
 * `%` truncates toward zero as JavaScript's does.
 */
module Accessibility {
  import opened Wrappers
  import opened Text

  // ----- useKeyboardNavigation -----

  datatype Orientation = Vertical | Horizontal

  /** The hook's active index: an integer, or NaN. */
  datatype Index = At(i: int) | NaN

  /** The key names the hook reacts to. */
  const ArrowUp := "ArrowUp"
  const ArrowDown := "ArrowDown"
  const ArrowLeft := "ArrowLeft"
  const ArrowRight := "ArrowRight"
  const HomeKey := "Home"
  const EndKey := "End"
  const EnterKey := "Enter"
  const SpaceKey := " "

  /** JavaScript's `a % n` for n > 0: the remainder takes the sign of `a`. */
  function JsRem(a: int, n: int): (r: int)
    requires n > 0
    ensures a >= 0 ==> 0 <= r < n
    ensures 0 <= a < n ==> r == a
    ensures a < 0 ==> -n < r <= 0
  {
    if 0 <= a < n then a
    else if a >= 0 then a % n
    else -((-a) % n)
  }

  /** What one key press does: the next index, and the id handed to `onSelect`, if any. */
  datatype KeyResult = KeyResult(index: Index, selected: Option<string>)

  /** Arrow Down (or Right): the following item, wrapping around. */
  function NextIndex(idx: Index, n: nat): Index {
    if n == 0 || idx.NaN? then NaN else At(JsRem(idx.i + 1, n))
  }

  /** Arrow Up (or Left): the preceding item, from the first to the last. */
  function PreviousIndex(idx: Index, n: nat): Index {
    if idx == At(0) then At(n - 1)
    else if idx.NaN? then NaN
    else At(idx.i - 1)
  }

  /**
   * `handleKeyDown`: `ids` are the items' ids, and `hasOnSelect` whether a selection
   * callback was given. An arrow across the orientation, and any other key, change nothing.
   */
  function HandleKeyDown(idx: Index, ids: seq<string>, hasOnSelect: bool, orientation: Orientation, key: string): KeyResult {
    var n := |ids|;
    if key == ArrowDown || key == ArrowRight then
      if (orientation == Vertical && key == ArrowRight) || (orientation == Horizontal && key == ArrowDown) then KeyResult(idx, None)
      else KeyResult(NextIndex(idx, n), None)
    else if key == ArrowUp || key == ArrowLeft then
      if (orientation == Vertical && key == ArrowLeft) || (orientation == Horizontal && key == ArrowUp) then KeyResult(idx, None)
      else KeyResult(PreviousIndex(idx, n), None)
    else if key == HomeKey then KeyResult(At(0), None)
    else if key == EndKey then KeyResult(At(n - 1), None)
    else if key == EnterKey || key == SpaceKey then
      if hasOnSelect && idx.At? && 0 <= idx.i < n then KeyResult(idx, Some(ids[idx.i]))
      else KeyResult(idx, None)
    else KeyResult(idx, None)
  }

  predicate InRange(idx: Index, n: nat) {
    idx.At? && 0 <= idx.i < n
  }

  /** On a non-empty list an index inside it stays inside it, whatever the key. */
  lemma KeyKeepsInRange(idx: Index, ids: seq<string>, hasOnSelect: bool, orientation: Orientation, key: string)
    requires InRange(idx, |ids|)
    ensures InRange(HandleKeyDown(idx, ids, hasOnSelect, orientation, key).index, |ids|)
  {
  }

  /** In range, "next" is (i + 1) mod n and "previous" is n - 1 at 0 and i - 1 otherwise. */
  lemma NextPreviousValues(i: int, n: nat)
    requires 0 <= i < n
    ensures NextIndex(At(i), n) == At(if i == n - 1 then 0 else i + 1)
    ensures PreviousIndex(At(i), n) == At(if i == 0 then n - 1 else i - 1)
  {
  }

  /** Moving forward then back, or back then forward, returns to the same item. */
  lemma NextPreviousInverse(i: int, n: nat)
    requires 0 <= i < n
    ensures PreviousIndex(NextIndex(At(i), n), n) == At(i)
    ensures NextIndex(PreviousIndex(At(i), n), n) == At(i)
  {
    NextPreviousValues(i, n);
    if i == n - 1 {
      NextPreviousValues(0, n);
    } else {
      NextPreviousValues(i + 1, n);
    }
    if i == 0 {
      NextPreviousValues(n - 1, n);
    } else {
      NextPreviousValues(i - 1, n);
    }
  }

  /** Home goes to the first item and End to the last, whatever the current index. */
  lemma HomeEnd(idx: Index, ids: seq<string>, hasOnSelect: bool, orientation: Orientation)
    ensures HandleKeyDown(idx, ids, hasOnSelect, orientation, HomeKey) == KeyResult(At(0), None)
    ensures HandleKeyDown(idx, ids, hasOnSelect, orientation, EndKey) == KeyResult(At(|ids| - 1), None)
  {
  }

  /** In a vertical list Left and Right do nothing; in a horizontal one Up and Down do nothing. */
  lemma CrossArrowsIgnored(idx: Index, ids: seq<string>, hasOnSelect: bool)
    ensures HandleKeyDown(idx, ids, hasOnSelect, Vertical, ArrowLeft) == KeyResult(idx, None)
    ensures HandleKeyDown(idx, ids, hasOnSelect, Vertical, ArrowRight) == KeyResult(idx, None)
    ensures HandleKeyDown(idx, ids, hasOnSelect, Horizontal, ArrowUp) == KeyResult(idx, None)
    ensures HandleKeyDown(idx, ids, hasOnSelect, Horizontal, ArrowDown) == KeyResult(idx, None)
  {
  }

  /** Enter and Space keep the index and hand over the current item's id; other keys do nothing. */
  lemma SelectKeys(idx: Index, ids: seq<string>, orientation: Orientation, key: string)
    ensures key == EnterKey || key == SpaceKey ==>
      HandleKeyDown(idx, ids, true, orientation, key) ==
        KeyResult(idx, if InRange(idx, |ids|) then Some(ids[idx.i]) else None)
    ensures key !in {ArrowUp, ArrowDown, ArrowLeft, ArrowRight, HomeKey, EndKey, EnterKey, SpaceKey} ==>
      HandleKeyDown(idx, ids, true, orientation, key) == KeyResult(idx, None)
  {
  }

  /**
   * On an empty list "next" makes the index NaN (`% 0`), "previous" gives -1 from 0 and
   * i - 1 from any other number (NaN stays NaN), and End gives -1.
   */
  lemma EmptyListIndex(idx: Index, orientation: Orientation)
    ensures HandleKeyDown(idx, [], false, Vertical, ArrowDown).index == NaN
    ensures HandleKeyDown(idx, [], false, Vertical, ArrowUp).index ==
      (if idx.NaN? then NaN else if idx.i == 0 then At(-1) else At(idx.i - 1))
    ensures HandleKeyDown(idx, [], false, orientation, EndKey).index == At(-1)
  {
  }

  /**
   * "Next" from a stale index below -1 gives a number in (-n, 0]: JavaScript's `%` keeps
   * the sign of the dividend, so it re-enters the list, at the first item (`-0`), exactly
   * when n divides -(i + 1), and otherwise stays below it.
   */
  lemma NextFromNegative(i: int, n: nat)
    requires n > 0 && i < -1
    ensures NextIndex(At(i), n).At? && -(n as int) < NextIndex(At(i), n).i <= 0
    ensures NextIndex(At(i), n) == At(0) <==> (-1 - i) % n == 0
  {
  }

  // ----- generateHeadingId -----

  /** The CJK range the id keeps, U+4E00 to U+9FA5. */
  predicate IsCjk(c: char) { '一' <= c <= '龥' }

  /** A character an id may keep besides the dash. */
  predicate IsHeadingWordChar(c: char) { IsCjk(c) || IsAsciiLower(c) || IsDigit(c) }

  predicate IsHeadingIdChar(c: char) { IsHeadingWordChar(c) || c == '-' }
  predicate IsKeptOrSpace(c: char) { IsHeadingIdChar(c) || IsSpace(c) }

  /**
   * `generateHeadingId`: the text lower-cased, stripped of everything but the CJK range,
   * a-z, 0-9, whitespace and `-`, with each whitespace run turned into `-`.
   */
  function GenerateHeadingId(text: string): (r: string)
    ensures forall i :: 0 <= i < |r| ==> IsHeadingIdChar(r[i])
  {
    var d := DashRuns(Filter(Lower(text), IsKeptOrSpace));
    TrimNoEdges(d);
    Trim(d)
  }

  /**
   * The id keeps exactly the lower-cased text's CJK characters, lower-case letters and
   * digits, in order; only dashes are added or kept around them.
   */
  lemma GenerateHeadingIdWords(text: string)
    ensures Filter(GenerateHeadingId(text), IsHeadingWordChar) == Filter(Lower(text), IsHeadingWordChar)
  {
    var kept := Filter(Lower(text), IsKeptOrSpace);
    var dashed := DashRuns(kept);
    TrimNoEdges(dashed);
    DashRunsKeeps(kept, IsHeadingWordChar);
    FilterFilter(Lower(text), IsKeptOrSpace, IsHeadingWordChar);
  }

  /** An id has no whitespace left, so the final trim never changes anything. */
  lemma GenerateHeadingIdNoSpace(text: string)
    ensures forall i :: 0 <= i < |GenerateHeadingId(text)| ==> !IsSpace(GenerateHeadingId(text)[i])
    ensures GenerateHeadingId(text) == DashRuns(Filter(Lower(text), IsKeptOrSpace))
  {
    TrimNoEdges(DashRuns(Filter(Lower(text), IsKeptOrSpace)));
  }

  /** A title of CJK characters, lower-case letters and digits is its own id. */
  lemma GenerateHeadingIdOfWord(text: string)
    requires forall i :: 0 <= i < |text| ==> IsHeadingWordChar(text[i])
    ensures GenerateHeadingId(text) == text
  {
    LowerOfFixed(text);
    FilterAll(text, IsKeptOrSpace);
    DashRunsNoSpace(text);
    TrimNoEdges(text);
  }
}
