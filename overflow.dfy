/** The two overflow tests of the typewriter effect. Measurements are
    abstract: a preferred width measured on the hidden measurement clone of
    the text component, a preferred height measured on the text component
    itself, and the bounds of the text component's rectangle. */
module Overflow {
  import opened Strings

  /** Bubble width from which margins are subtracted rather than added. */
  const Pivot: int := 1250
  /** Width margin, subtracted at or above the pivot and added below it. */
  const WidthMargin: int := 100
  /** Height margin, subtracted at or above the pivot. */
  const HeightMargin: int := 50

  /** What the overflow tests read: whether the measurement clone exists,
      the rectangle's width and height, and the two measurements. */
  datatype Env = Env(
    clone: bool,
    maxWidth: int,
    maxHeight: int,
    preferredWidth: string -> int,
    preferredHeight: string -> int)

  /** The width a line must reach to overflow: 100 below the bubble width
      for wide bubbles, 100 above it for narrow ones. */
  function WidthLimit(maxWidth: int): (limit: int)
    ensures limit < maxWidth <==> maxWidth >= Pivot
    ensures limit == maxWidth - WidthMargin || limit == maxWidth + WidthMargin
  {
    if maxWidth >= Pivot then maxWidth - WidthMargin else maxWidth + WidthMargin
  }

  /** The height the whole shown block must reach to overflow: 50 below the
      bubble height for wide bubbles, the bubble height itself otherwise. */
  function HeightLimit(maxWidth: int, maxHeight: int): (limit: int)
    ensures limit <= maxHeight
    ensures limit < maxHeight <==> maxWidth >= Pivot
    ensures limit == maxHeight || limit == maxHeight - HeightMargin
  {
    if maxWidth >= Pivot then maxHeight - HeightMargin else maxHeight
  }

  /** `IsLineOverflowing`: without a measurement clone the answer is "no"
      (the test fails open); otherwise the line's preferred width is compared
      with the width limit. */
  function IsLineOverflowing(env: Env, line: string, maxWidth: int): (r: bool)
    ensures r ==> env.clone
    ensures env.clone && env.preferredWidth(line) >= maxWidth + WidthMargin ==> r
    ensures env.clone && env.preferredWidth(line) < maxWidth - WidthMargin ==> !r
    ensures maxWidth >= Pivot ==> (r <==> env.clone && env.preferredWidth(line) + WidthMargin >= maxWidth)
    ensures maxWidth < Pivot ==> (r <==> env.clone && env.preferredWidth(line) >= maxWidth + WidthMargin)
  {
    env.clone && env.preferredWidth(line) >= WidthLimit(maxWidth)
  }

  /** The text ends a word: its last character is a space or a line break. */
  predicate AtWordEnd(text: string)
    ensures AtWordEnd(text) ==> text != []
    ensures text != [] ==> (AtWordEnd(text) <==> text[|text| - 1] == ' ' || text[|text| - 1] == '\n')
  {
    EndsWith(text, ' ') || EndsWith(text, '\n')
  }

  /** The shown block is too tall for the bubble. */
  predicate IsHeightOverflowing(env: Env, shown: string)
    ensures env.preferredHeight(shown) >= env.maxHeight ==> IsHeightOverflowing(env, shown)
    ensures env.preferredHeight(shown) < env.maxHeight - HeightMargin ==> !IsHeightOverflowing(env, shown)
    ensures env.maxWidth >= Pivot ==>
      (IsHeightOverflowing(env, shown) <==> env.preferredHeight(shown) + HeightMargin >= env.maxHeight)
    ensures env.maxWidth < Pivot ==> (IsHeightOverflowing(env, shown) <==> env.preferredHeight(shown) >= env.maxHeight)
  {
    env.preferredHeight(shown) >= HeightLimit(env.maxWidth, env.maxHeight)
  }

  /** `IsTextOverflowingWithoutBreakWord(text, endLine)`, where `shown` is the
      text component's current text (whose preferred height is read). In
      end-of-line mode it never answers "yes" in the middle of a word, and
      then needs the bubble to be too tall as well as the line to be too wide
      or to end in a line break; otherwise it is the width test alone. */
  function IsTextOverflowingWithoutBreakWord(env: Env, shown: string, text: string, endLine: bool): (r: bool)
    ensures endLine && !AtWordEnd(text) ==> !r
    ensures !endLine ==> (r <==> IsLineOverflowing(env, text, env.maxWidth))
    ensures endLine && AtWordEnd(text) ==>
      (r <==> (IsLineOverflowing(env, text, env.maxWidth) || EndsWith(text, '\n')) && IsHeightOverflowing(env, shown))
    ensures endLine && r ==> IsHeightOverflowing(env, shown)
    ensures endLine && !env.clone ==> (r <==> EndsWith(text, '\n') && IsHeightOverflowing(env, shown))
  {
    var lineBreak := EndsWith(text, '\n');
    if endLine && !EndsWith(text, ' ') && !lineBreak then false
    else
      var isWidthOverflow := IsLineOverflowing(env, text, env.maxWidth);
      var isHeightOverflow := env.preferredHeight(shown) >= HeightLimit(env.maxWidth, env.maxHeight);
      if endLine then (isWidthOverflow || lineBreak) && isHeightOverflow else isWidthOverflow
  }

  /** A line 1150 wide overflows a bubble 1000 wide (limit 1100) but not one
      1400 wide (limit 1300). */
  lemma WidthMarginExample(env: Env, line: string)
    requires env.clone && env.preferredWidth(line) == 1150
    ensures IsLineOverflowing(env, line, 1000)
    ensures !IsLineOverflowing(env, line, 1400)
  {
  }

  /** The width limit drops by 200 at the pivot, so a larger bubble can
      make a line overflow that a slightly smaller one accepts. */
  lemma WidthLimitDropsAtPivot()
    ensures WidthLimit(Pivot - 1) == WidthLimit(Pivot) + 199
  {
  }

  /** In a bubble 1300 wide and 400 tall, a line that ends in a space and is
      too wide ends the page once the block is 350 tall; at 349 it does not. */
  lemma PageBreakThresholdExample(env: Env, shown: string, line: string)
    requires env.clone && env.maxWidth == 1300 && env.maxHeight == 400
    requires EndsWith(line, ' ') && env.preferredWidth(line) >= 1200
    ensures env.preferredHeight(shown) >= 350 ==> IsTextOverflowingWithoutBreakWord(env, shown, line, true)
    ensures env.preferredHeight(shown) < 350 ==> !IsTextOverflowingWithoutBreakWord(env, shown, line, true)
  {
  }
}
