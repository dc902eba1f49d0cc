/**
 * The font-size control: an index into five pixel sizes, moved by two buttons that clamp
 * at the ends, and restored from the saved preference through `parseInt` with a fallback
 * to the default index when the saved text names no size.
 */
module FontSize {
  import opened Wrappers
  import opened Numbers
  import opened Text

  const FontSizes: seq<int> := [14, 16, 18, 20, 22]
  const DefaultIndex: int := 1


  /** `increaseFontSize`. */
  function Increase(i: int): int { Min(i + 1, |FontSizes| - 1) }

  /** `decreaseFontSize`. */
  function Decrease(i: int): int { Max(i - 1, 0) }

  predicate ValidIndex(i: int) { 0 <= i < |FontSizes| }

  /** Both buttons keep a valid index valid, stop at the ends, and undo each other away from them. */
  lemma ButtonsClamp(i: int)
    requires ValidIndex(i)
    ensures ValidIndex(Increase(i)) && ValidIndex(Decrease(i))
    ensures Increase(i) == i <==> i == |FontSizes| - 1
    ensures Decrease(i) == i <==> i == 0
    ensures i < |FontSizes| - 1 ==> Decrease(Increase(i)) == i
    ensures i > 0 ==> Increase(Decrease(i)) == i
  {
  }

  /** The disabled flags: decrease at the smallest size, increase at the largest. */
  function DecreaseDisabled(i: int): bool { i == 0 }
  function IncreaseDisabled(i: int): bool { i == |FontSizes| - 1 }

  /** A button is disabled exactly where pressing it would change nothing. */
  lemma DisabledIffNoEffect(i: int)
    requires ValidIndex(i)
    ensures DecreaseDisabled(i) <==> Decrease(i) == i
    ensures IncreaseDisabled(i) <==> Increase(i) == i
  {
  }

  /** The size shown for an index, absent (undefined) outside the list. */
  function SizeAt(i: int): Option<int> {
    if ValidIndex(i) then Some(FontSizes[i]) else None
  }

  /**
   * The restore effect: an absent or empty saved value keeps the current index; otherwise
   * the parsed index is taken when it names a size and the default index when it does not
   * (NaN, negative or past the end).
   */
  function Restore(saved: Option<string>, current: int): (r: int)
    ensures saved.Some? && saved.value != "" ==> ValidIndex(r)
    ensures saved.None? || saved == Some("") ==> r == current
  {
    if saved.None? || saved.value == "" then current
    else
      var parsed := ParseInt(saved.value);
      if parsed.Some? && SizeAt(parsed.value).Some? then parsed.value else DefaultIndex
  }

  /** A saved index is read back as it was written; text that is not a size gives the default. */
  lemma RestoreRoundTrip(i: nat, s: string, current: int)
    requires ValidIndex(i)
    ensures Restore(Some(NatToString(i)), current) == i
    ensures s != "" && (ParseInt(s).None? || !ValidIndex(ParseInt(s).value)) ==> Restore(Some(s), current) == DefaultIndex
  {
    ParseIntOfNumeral(i);
  }

  /** From the default index, any presses of the buttons always show one of the five sizes. */
  lemma {:induction false} PressesShowSize(i: int, presses: seq<bool>)
    requires ValidIndex(i)
    ensures SizeAt(Presses(i, presses)).Some?
    ensures SizeAt(Presses(i, presses)).value in FontSizes
    decreases |presses|
  {
    if presses != [] {
      ButtonsClamp(i);
      PressesShowSize(if presses[0] then Increase(i) else Decrease(i), presses[1..]);
    }
  }

  /** Whatever was saved, after any presses the page shows one of the five sizes. */
  lemma DisplayedSizeListed(saved: Option<string>, presses: seq<bool>)
    ensures SizeAt(Presses(Restore(saved, DefaultIndex), presses)).Some?
    ensures SizeAt(Presses(Restore(saved, DefaultIndex), presses)).value in FontSizes
  {
    PressesShowSize(Restore(saved, DefaultIndex), presses);
  }

  /** A run of presses, `true` for increase and `false` for decrease. */
  function Presses(i: int, presses: seq<bool>): int
    decreases |presses|
  {
    if presses == [] then i else Presses(if presses[0] then Increase(i) else Decrease(i), presses[1..])
  }
}
