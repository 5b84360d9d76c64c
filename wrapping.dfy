/** How the typewriter lays out the characters it has consumed: each one is
    appended, and a line break is added right after a space whenever the line
    being built (measured with that space) is too wide. */
module Wrapping {
  import opened Strings
  import opened Overflow

  /** `d` is `s` with line breaks inserted only directly after spaces of `s`,
      at most one per space, and nothing else added, removed or reordered. */
  predicate Wrapped(d: string, s: string)
    decreases |s|
  {
    if s == [] then d == []
    else
      var c := s[|s| - 1];
      (d != [] && d[|d| - 1] == c && Wrapped(d[..|d| - 1], s[..|s| - 1]))
      || (c == ' ' && |d| >= 2 && d[|d| - 2..] == " \n" && Wrapped(d[..|d| - 2], s[..|s| - 1]))
  }

  /** Appending a character to both keeps the relation. */
  lemma WrappedAppend(d: string, s: string, c: char)
    requires Wrapped(d, s)
    ensures Wrapped(d + [c], s + [c])
  {
    assert (d + [c])[..|d|] == d;
    assert (s + [c])[..|s|] == s;
  }

  /** Appending a space and a line break after it keeps the relation. */
  lemma WrappedAppendBreak(d: string, s: string)
    requires Wrapped(d, s)
    ensures Wrapped(d + " \n", s + " ")
  {
    assert (d + " \n")[..|d|] == d;
    assert (d + " \n")[|d|..] == " \n";
    assert (s + " ")[..|s|] == s;
  }

  /** Conservation: removing line breaks from both sides gives the same
      text, and at most one character was added per consumed character. */
  lemma {:induction false} WrappedConserves(d: string, s: string)
    requires Wrapped(d, s)
    ensures Visible(d) == Visible(s)
    ensures |s| <= |d| <= 2 * |s|
    decreases |s|
  {
    if s != [] {
      var c := s[|s| - 1];
      var s' := s[..|s| - 1];
      if d != [] && d[|d| - 1] == c && Wrapped(d[..|d| - 1], s') {
        WrappedConserves(d[..|d| - 1], s');
      } else {
        var d' := d[..|d| - 2];
        WrappedConserves(d', s');
        assert d[..|d| - 1] == d' + " ";
        assert Visible(d[..|d| - 1]) == Visible(d') + " ";
      }
    }
  }

  /** Word safety: when the consumed text has no line break of its own,
      every line break in the laid-out text directly follows a space. */
  lemma {:induction false} WrappedBreaksFollowSpaces(d: string, s: string)
    requires Wrapped(d, s) && '\n' !in s
    ensures forall i :: 0 <= i < |d| && d[i] == '\n' ==> i > 0 && d[i - 1] == ' '
    decreases |s|
  {
    if s != [] {
      var c := s[|s| - 1];
      var s' := s[..|s| - 1];
      if d != [] && d[|d| - 1] == c && Wrapped(d[..|d| - 1], s') {
        WrappedBreaksFollowSpaces(d[..|d| - 1], s');
        assert forall i :: 0 <= i < |d| - 1 ==> d[i] == d[..|d| - 1][i];
      } else {
        var d' := d[..|d| - 2];
        WrappedBreaksFollowSpaces(d', s');
        assert forall i :: 0 <= i < |d| - 2 ==> d[i] == d'[i];
        assert d[|d| - 2] == ' ' && d[|d| - 1] == '\n';
      }
    }
  }

  /** The text the typewriter shows after consuming `s` with a fixed
      measurement environment: the character is appended, then a line break
      when the character is a space and the line being built, including that
      space, overflows in width. */
  function Layout(env: Env, s: string): (d: string)
    ensures Wrapped(d, s)
    decreases |s|
  {
    if s == [] then []
    else
      var prev := Layout(env, s[..|s| - 1]);
      var c := s[|s| - 1];
      assert s == s[..|s| - 1] + [c];
      if c == ' ' && IsLineOverflowing(env, LastLine(prev) + [c], env.maxWidth) then
        WrappedAppendBreak(prev, s[..|s| - 1]);
        prev + " \n"
      else
        WrappedAppend(prev, s[..|s| - 1], c);
        prev + [c]
  }

  /** The layout of a non-empty text in terms of the layout without its
      last character. */
  lemma LayoutLast(env: Env, s: string)
    requires s != []
    ensures var s', c := s[..|s| - 1], s[|s| - 1];
      Layout(env, s) == if c == ' ' && IsLineOverflowing(env, LastLine(Layout(env, s')) + [c], env.maxWidth)
                        then Layout(env, s') + " \n" else Layout(env, s') + [c]
  {
  }

  /** The shown text only grows: laying out more text extends the layout of
      less. */
  lemma {:induction false} LayoutPrefix(env: Env, s: string, t: string)
    ensures Layout(env, s) <= Layout(env, s + t)
    decreases |t|
  {
    if t != [] {
      var t' := t[..|t| - 1];
      LayoutPrefix(env, s, t');
      assert (s + t)[..|s + t| - 1] == s + t';
    } else {
      assert s + t == s;
    }
  }

  /** Without a measurement clone no line break is ever inserted. */
  lemma {:induction false} LayoutWithoutClone(env: Env, s: string)
    requires !env.clone
    ensures Layout(env, s) == s
    decreases |s|
  {
    if s != [] {
      var s', c := s[..|s| - 1], s[|s| - 1];
      LayoutWithoutClone(env, s');
      LayoutLast(env, s);
      assert s == s' + [c];
    }
  }

  /** A text without spaces, a single word, is never broken. */
  lemma {:induction false} LayoutWithoutSpaces(env: Env, s: string)
    requires ' ' !in s
    ensures Layout(env, s) == s
    decreases |s|
  {
    if s != [] {
      assert ' ' !in s[..|s| - 1];
      LayoutWithoutSpaces(env, s[..|s| - 1]);
      LayoutLast(env, s);
      assert s == s[..|s| - 1] + [s[|s| - 1]];
    }
  }

  /** The line being built when the last character of `s` is checked: the
      last line laid out before it, followed by that character. */
  function TickLine(env: Env, s: string): (line: string)
    requires s != []
    ensures line != [] && line[|line| - 1] == s[|s| - 1]
    ensures '\n' !in line[..|line| - 1]
  {
    LastLine(Layout(env, s[..|s| - 1])) + [s[|s| - 1]]
  }

  /** Consuming the last character of `s` ends the page (the button being
      hidden): the end-of-line overflow test on the line being built, with
      the height read from the laid-out text. */
  predicate BreaksPage(env: Env, s: string)
    requires s != []
    ensures BreaksPage(env, s) <==>
      ((s[|s| - 1] == ' ' && IsLineOverflowing(env, TickLine(env, s), env.maxWidth)) || s[|s| - 1] == '\n')
      && IsHeightOverflowing(env, Layout(env, s))
  {
    IsTextOverflowingWithoutBreakWord(env, Layout(env, s), TickLine(env, s), true)
  }

  /** A page only ends on a space or a line break, and only when the shown
      block is too tall. */
  lemma BreaksPageAtWordEnd(env: Env, s: string)
    requires s != [] && BreaksPage(env, s)
    ensures s[|s| - 1] == ' ' || s[|s| - 1] == '\n'
    ensures IsHeightOverflowing(env, Layout(env, s))
  {
    var line := TickLine(env, s);
  }

  /** Whenever a page ends, the laid-out text ends in a line break: either
      the consumed character was one, or the line was too wide at a space,
      which already inserted one. So the ellipsis is never appended. */
  lemma BreaksPageEndsLine(env: Env, s: string)
    requires s != [] && BreaksPage(env, s)
    ensures EndsWith(Layout(env, s), '\n')
  {
    BreaksPageAtWordEnd(env, s);
    var s' := s[..|s| - 1];
    var c := s[|s| - 1];
    var prev := Layout(env, s');
    var line := TickLine(env, s);
    assert line == LastLine(prev) + [c];
    if c == ' ' {
      assert IsLineOverflowing(env, line, env.maxWidth);
      assert Layout(env, s) == prev + " \n";
    } else {
      assert Layout(env, s) == prev + [c];
    }
  }
}
