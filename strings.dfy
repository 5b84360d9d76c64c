/** Small string helpers shared by the typewriter model: suffix tests, the
    line being built at the end of a text, and a text with its line breaks
    removed. Strings are sequences of characters and comparisons are ordinal. */
module Strings {

  /** `s` ends with the one-character string `[c]` (an ordinal `EndsWith`;
      the typewriter only ever asks about one-character suffixes). */
  predicate EndsWith(s: string, c: char)
  {
    s != [] && s[|s| - 1] == c
  }

  /** Whether a text ends with `d` once `c` is appended is decided by `c`
      alone, whatever came before. */
  lemma EndsWithAppend(s: string, c: char, d: char)
    ensures EndsWith(s + [c], d) <==> c == d
  {
  }

  /** The text after the last line break of `d`: the line being built. */
  function LastLine(d: string): (r: string)
    ensures '\n' !in r
    ensures |r| <= |d|
    decreases |d|
  {
    if d == [] then []
    else if d[|d| - 1] == '\n' then []
    else LastLine(d[..|d| - 1]) + [d[|d| - 1]]
  }

  /** The last line is the longest suffix of `d` without a line break: a
      suffix of `d`, free of line breaks, and preceded by a line break
      unless it is all of `d`. */
  lemma {:induction false} LastLineIsSuffix(d: string)
    ensures var r := LastLine(d);
      d[|d| - |r|..] == r && (|r| < |d| ==> d[|d| - |r| - 1] == '\n')
    decreases |d|
  {
    if d != [] && d[|d| - 1] != '\n' {
      var init := d[..|d| - 1];
      LastLineIsSuffix(init);
      var r := LastLine(init);
      assert d == init + [d[|d| - 1]];
      assert d[|d| - |r| - 1..] == init[|init| - |r|..] + [d[|d| - 1]];
    }
  }

  /** A non-empty text ends with a line break exactly when the line being
      built at its end is empty. */
  lemma EndsWithBreak(d: string)
    ensures EndsWith(d, '\n') <==> d != [] && LastLine(d) == []
  {
  }

  /** Appending a character other than a line break extends the last line;
      appending a line break starts an empty one. */
  lemma LastLineAppend(d: string, c: char)
    ensures LastLine(d + [c]) == if c == '\n' then [] else LastLine(d) + [c]
  {
    assert (d + [c])[..|d|] == d;
  }

  /** A prefix one longer is the shorter prefix followed by the next
      character. */
  lemma TakeSnoc(s: string, k: nat)
    requires k < |s|
    ensures s[..k + 1] == s[..k] + [s[k]]
  {
  }

  /** `d` with every line break removed. */
  function Visible(d: string): (r: string)
    ensures |r| <= |d|
    ensures '\n' !in r
    ensures '\n' !in d ==> r == d
    decreases |d|
  {
    if d == [] then []
    else
      var r := Visible(d[..|d| - 1]);
      assert d == d[..|d| - 1] + [d[|d| - 1]];
      if d[|d| - 1] == '\n' then r else r + [d[|d| - 1]]
  }
}
