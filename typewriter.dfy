/** The reveal loop of `ShowText` as a specification: the state it works on,
    the set-up before the loop, one pass of the loop (`Step`), and the loop
    run to its end with a fixed measurement environment (`Loop`). */
module Typewriter {
  import opened Strings
  import opened Overflow
  import opened Wrapping

  /** The state one page of the reveal loop reads and writes: the remaining
      text, the displayed text, the text shown by the text component, the
      coroutine's current line, whether it is typing, whether the text is
      complete, and whether the continue button is visible. `typing` is true
      exactly while the coroutine is alive. */
  datatype Page = Page(
    remaining: string,
    displayed: string,
    shown: string,
    line: string,
    typing: bool,
    complete: bool,
    button: bool)

  /** The part of `ShowText` before its loop: typing starts, the displayed
      text and the current line are emptied, the text is no longer complete,
      and a fresh start (not a continuation) restarts from the full text. The
      shown text and the button are left as they are. */
  function Begin(p: Page, fullText: string, isContinuation: bool): (r: Page)
    ensures r.typing && !r.complete && r.displayed == [] && r.line == []
    ensures r.remaining == (if isContinuation then p.remaining else fullText)
    ensures r.shown == p.shown && r.button == p.button
  {
    p.(typing := true, displayed := [], complete := false,
       remaining := if isContinuation then p.remaining else fullText,
       line := [])
  }

  /** One pass of the loop of `ShowText`, from its condition to the next
      `yield`: with nothing left, typing stops and the text is complete;
      otherwise the first remaining character is moved onto the displayed
      text and the current line, a line break follows it when it is a space
      and the line is too wide, the shown text is updated, and either the
      page ends (end-of-line overflow with the button hidden) or the current
      line is emptied when the shown text ends in a line break. */
  function Step(env: Env, p: Page): (r: Page)
    requires p.typing
    ensures p.remaining == [] ==> r == p.(typing := false, complete := true)
    ensures p.remaining != [] ==> r.remaining == p.remaining[1..]
    ensures p.remaining != [] ==>
      r.displayed == p.displayed + [p.remaining[0]]
      || (p.remaining[0] == ' ' && r.displayed == p.displayed + " \n")
    ensures p.remaining != [] ==> r.shown == r.displayed
    ensures !r.typing ==> r.complete
    ensures r.typing ==> r.complete == p.complete && r.button == p.button
    ensures r.button != p.button ==> !p.button && !r.typing
    ensures r.typing && EndsWith(r.shown, '\n') ==> r.line == []
  {
    if p.remaining == [] then
      p.(typing := false, complete := true)
    else
      var c := p.remaining[0];
      var d0 := p.displayed + [c];
      var line := p.line + [c];
      var d := if EndsWith(d0, ' ') && IsTextOverflowingWithoutBreakWord(env, p.shown, line, false)
               then d0 + "\n" else d0;
      var rest := p.remaining[1..];
      if IsTextOverflowingWithoutBreakWord(env, d, line, true) && !p.button then
        p.(remaining := rest, displayed := d,
           shown := if EndsWith(d, '\n') then d else d + "...",
           line := line, button := true, typing := false, complete := true)
      else
        p.(remaining := rest, displayed := d, shown := d,
           line := if EndsWith(d, '\n') then [] else line)
  }

  /** The loop run until the coroutine stops, with the environment fixed
      (no measurement-clone change between passes). */
  function Loop(env: Env, p: Page): (r: Page)
    ensures !r.typing
    ensures p.typing ==> r.complete
    ensures |r.remaining| <= |p.remaining|
    decreases |p.remaining| + (if p.typing then 1 else 0)
  {
    if !p.typing then p else Loop(env, Step(env, p))
  }

  /** A typing state whose remaining text is a suffix of `t` and whose
      displayed text and current line are the layout of the consumed prefix
      and its last line. */
  ghost predicate LaidOut(env: Env, t: string, p: Page)
  {
    p.typing
    && |p.remaining| <= |t| && t[|t| - |p.remaining|..] == p.remaining
    && p.displayed == Layout(env, t[..|t| - |p.remaining|])
    && p.line == LastLine(p.displayed)
  }

  /** A state of the loop at its condition, `t` being the remaining text when
      the loop began and `b` the button's visibility then: the remaining text
      is a suffix of `t`, the displayed text is the layout of the consumed
      prefix, the current line is its last line, the shown text is the
      displayed text once something was consumed, and no pass so far ended
      the page. */
  ghost predicate OnPage(env: Env, t: string, b: bool, p: Page)
  {
    LaidOut(env, t, p) && !p.complete && p.button == b
    && (|p.remaining| < |t| ==> p.shown == p.displayed)
    && (!b ==> forall j :: 1 <= j <= |t| - |p.remaining| ==> !BreaksPage(env, t[..j]))
  }

  /** One pass over a non-empty remaining text, in terms of the last line of
      the displayed text: the character is laid out as `Layout` lays it out,
      and the page ends exactly when the end-of-line test on that line fails
      with the button hidden. */
  lemma StepLaysOut(env: Env, p: Page)
    requires p.typing && p.remaining != [] && p.line == LastLine(p.displayed)
    ensures Step(env, p).displayed ==
      (if p.remaining[0] == ' ' && IsLineOverflowing(env, LastLine(p.displayed) + [p.remaining[0]], env.maxWidth)
       then p.displayed + " \n" else p.displayed + [p.remaining[0]])
    ensures Step(env, p).typing <==>
      !(IsTextOverflowingWithoutBreakWord(env, Step(env, p).displayed, LastLine(p.displayed) + [p.remaining[0]], true)
        && !p.button)
    ensures Step(env, p).typing ==> Step(env, p).line == LastLine(Step(env, p).displayed)
  {
    var q := Step(env, p);
    var c := p.remaining[0];
    var d0 := p.displayed + [c];
    assert EndsWith(d0, ' ') <==> c == ' ';
    if c == ' ' {
      assert d0 + "\n" == p.displayed + " \n";
    }
    if q.typing {
      var d := q.displayed;
      if EndsWith(d, '\n') {
        assert LastLine(d) == [];
      } else {
        LastLineAppend(p.displayed, c);
      }
    }
  }

  /** Laying out one more character, and whether consuming it breaks the
      page, in terms of the layout before it. */
  lemma LayoutSnoc(env: Env, s: string, c: char)
    ensures var prev := Layout(env, s); var line := LastLine(prev) + [c];
      Layout(env, s + [c]) == (if c == ' ' && IsLineOverflowing(env, line, env.maxWidth)
                               then prev + " \n" else prev + [c])
      && TickLine(env, s + [c]) == line
      && (BreaksPage(env, s + [c]) <==> IsTextOverflowingWithoutBreakWord(env, Layout(env, s + [c]), line, true))
  {
    assert (s + [c])[..|s|] == s;
  }

  /** One pass from a loop state consumes the `k`-th character of `t`: the
      displayed text becomes the layout of the first `k + 1` characters, and
      the page ends exactly when consuming it breaks the page with the button
      hidden, leaving the button shown and the shown text equal to the
      displayed one. */
  lemma StepOnPage(env: Env, t: string, b: bool, p: Page)
    requires LaidOut(env, t, p) && p.button == b && p.remaining != []
    ensures |t| - |p.remaining| < |t|
    ensures Step(env, p).remaining == t[|t| - |p.remaining| + 1..]
    ensures Step(env, p).displayed == Layout(env, t[..|t| - |p.remaining| + 1])
    ensures Step(env, p).typing <==> !(BreaksPage(env, t[..|t| - |p.remaining| + 1]) && !b)
    ensures !Step(env, p).typing ==> Step(env, p).complete && Step(env, p).button
    ensures !Step(env, p).typing ==> Step(env, p).shown == Step(env, p).displayed
  {
    var k := |t| - |p.remaining|;
    var c := p.remaining[0];
    assert c == t[k];
    TakeSnoc(t, k);
    StepLaysOut(env, p);
    LayoutSnoc(env, t[..k], c);
  }

  /** A pass that does not end the page leads to the next loop state. */
  lemma StepStaysOnPage(env: Env, t: string, b: bool, p: Page)
    requires OnPage(env, t, b, p) && p.remaining != [] && Step(env, p).typing
    ensures OnPage(env, t, b, Step(env, p))
  {
    var k := |t| - |p.remaining|;
    var q := Step(env, p);
    StepOnPage(env, t, b, p);
    StepLaysOut(env, p);
    assert |t| - |q.remaining| == k + 1;
    if !b {
      assert !BreaksPage(env, t[..k + 1]);
      forall j | 1 <= j <= k + 1
        ensures !BreaksPage(env, t[..j])
      {
        if j == k + 1 {
          assert t[..j] == t[..k + 1];
        }
      }
    }
  }

  /** The page as the loop leaves it, `t` being the text the page started
      from, `b` the button's visibility then and `shown0` the shown text then:
      with `k` the number of characters consumed, the remaining text is what
      follows them and their layout is displayed; typing has stopped and the
      text is complete; the page stopped early only at the first character
      whose consumption breaks it (possible only with the button hidden),
      and the button is visible exactly when that happened or it already
      was; the shown text is the displayed text once something was consumed. */
  ghost predicate Finished(env: Env, t: string, b: bool, shown0: string, r: Page)
  {
    |r.remaining| <= |t|
    && var k := |t| - |r.remaining|;
    t[k..] == r.remaining
    && r.displayed == Layout(env, t[..k])
    && !r.typing && r.complete
    && (!b ==> forall j :: 1 <= j < k ==> !BreaksPage(env, t[..j]))
    && (k < |t| ==> !b && k > 0 && BreaksPage(env, t[..k]))
    && (r.button <==> b || (k > 0 && BreaksPage(env, t[..k])))
    && (k > 0 ==> r.shown == r.displayed)
    && (k == 0 ==> r.shown == shown0)
  }

  /** A loop state with nothing left finishes its page at the next pass. */
  lemma FinishAtEnd(env: Env, t: string, b: bool, p: Page)
    requires OnPage(env, t, b, p) && p.remaining == []
    ensures Finished(env, t, b, p.shown, Step(env, p))
  {
    var k := |t|;
    assert t[..k] == t;
  }

  /** A pass that ends the page finishes it. */
  lemma FinishAtBreak(env: Env, t: string, b: bool, p: Page)
    requires OnPage(env, t, b, p) && p.remaining != [] && !Step(env, p).typing
    ensures Finished(env, t, b, p.shown, Step(env, p))
  {
    var q := Step(env, p);
    StepOnPage(env, t, b, p);
    var k := |t| - |p.remaining| + 1;
    assert |t| - |q.remaining| == k;
    assert !b && BreaksPage(env, t[..k]);
  }

  /** Running the loop from any loop state of a page finishes that page. */
  lemma {:induction false} RunFrom(env: Env, t: string, b: bool, p: Page)
    requires OnPage(env, t, b, p)
    ensures Finished(env, t, b, p.shown, Loop(env, p))
    decreases |p.remaining|
  {
    var q := Step(env, p);
    assert Loop(env, p) == Loop(env, q);
    if p.remaining == [] {
      FinishAtEnd(env, t, b, p);
    } else if !q.typing {
      FinishAtBreak(env, t, b, p);
    } else {
      StepStaysOnPage(env, t, b, p);
      RunFrom(env, t, b, q);
      var r := Loop(env, q);
      assert |t| - |r.remaining| > 0;
    }
  }

  /** `ShowText` run to the end of its page with a fixed environment, from
      the set-up before its loop, finishes the page that starts from the
      remaining text the set-up leaves. An empty text completes at once with
      nothing displayed and the shown text untouched. */
  lemma PageRun(env: Env, p: Page, fullText: string, isContinuation: bool)
    ensures var start := Begin(p, fullText, isContinuation);
      Finished(env, start.remaining, p.button, p.shown, Loop(env, start))
    ensures var start := Begin(p, fullText, isContinuation);
      start.remaining == [] ==>
        Loop(env, start).displayed == [] && Loop(env, start).shown == p.shown && Loop(env, start).complete
  {
    var start := Begin(p, fullText, isContinuation);
    var t := start.remaining;
    assert t[..0] == [];
    assert OnPage(env, t, p.button, start);
    RunFrom(env, t, p.button, start);
  }

  /** The invariant every pass keeps, whatever the environment: `t` (the
      text the page started from) is the consumed part followed by the
      remaining text, the displayed text is the consumed part with line
      breaks inserted only after spaces, the shown text is the displayed text
      once something is displayed, and while typing the text is not complete
      and the current line is the displayed text's last line. */
  ghost predicate Conserves(t: string, p: Page)
  {
    |p.remaining| <= |t|
    && t[|t| - |p.remaining|..] == p.remaining
    && Wrapped(p.displayed, t[..|t| - |p.remaining|])
    && (p.displayed != [] ==> p.shown == p.displayed)
    && (p.typing ==> !p.complete && p.line == LastLine(p.displayed))
  }

  /** The set-up before the loop establishes the invariant for the text the
      page starts from. */
  lemma BeginConserves(p: Page, fullText: string, isContinuation: bool)
    ensures var start := Begin(p, fullText, isContinuation);
      Conserves(start.remaining, start)
  {
    var t := Begin(p, fullText, isContinuation).remaining;
    assert t[..0] == [];
  }

  /** Every pass keeps the invariant, even when the measurement environment
      changed since the previous pass: no character is lost, duplicated or
      reordered, and only line breaks after spaces are added. */
  lemma StepConserves(env: Env, t: string, p: Page)
    requires Conserves(t, p) && p.typing
    ensures Conserves(t, Step(env, p))
  {
    if p.remaining != [] {
      var q := Step(env, p);
      var k := |t| - |p.remaining|;
      var c := p.remaining[0];
      assert t[k] == c;
      TakeSnoc(t, k);
      assert |t| - |q.remaining| == k + 1;
      if q.displayed == p.displayed + [c] {
        WrappedAppend(p.displayed, t[..k], c);
      } else {
        WrappedAppendBreak(p.displayed, t[..k]);
      }
      if q.typing {
        StepLaysOut(env, p);
      }
    }
  }

  /** A pass over a character that is neither a space nor a line break never
      ends the page: page breaks fall only between words. */
  lemma StepWithinWord(env: Env, p: Page)
    requires p.typing && !p.complete && p.remaining != []
    requires p.remaining[0] != ' ' && p.remaining[0] != '\n'
    ensures Step(env, p).typing && !Step(env, p).complete
  {
    var c := p.remaining[0];
    var line := p.line + [c];
  }
}
