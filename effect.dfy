/** The `ScrollTextEffect` component: its fields, its life-cycle methods, the
    continue-button event, and the `ShowText` coroutine split at its `yield`
    points (`ShowText` runs the set-up and the first pass, as starting the
    coroutine does; `Resume` runs each later pass). */
module Effect {
  import opened Strings
  import opened Escapes
  import opened Overflow
  import opened Typewriter

  class ScrollTextEffect {
    /** The configured text. */
    var fullText: string
    /** The text still to reveal. */
    var remainingText: string
    /** The text revealed on the current page. */
    var displayedText: string
    /** The text of the text component, as shown on screen. */
    var text: string
    /** Whether the continue button is visible. */
    var buttonActive: bool
    var textComplete: bool
    var isTyping: bool
    /** Whether the hidden measurement clone exists. */
    var hasClone: bool
    /** The coroutine's `currentLine` local, kept between passes. */
    var currentLine: string
    /** The remaining text when the current page's loop began. */
    ghost var pageText: string

    /** The bounds of the text component's rectangle. */
    const maxWidth: int
    const maxHeight: int
    /** The preferred width of a text (measured on the clone) and the
        preferred height of a text (measured on the text component). */
    const preferredWidth: string -> int
    const preferredHeight: string -> int

    /** What the overflow tests read now. */
    function Measure(): Env
      reads this
    {
      Env(hasClone, maxWidth, maxHeight, preferredWidth, preferredHeight)
    }

    /** The state the reveal loop works on. */
    function State(): Page
      reads this
    {
      Page(remainingText, displayedText, text, currentLine, isTyping, textComplete, buttonActive)
    }

    /** The component's invariant: the reveal loop's invariant for the text
        the current page started from. */
    ghost predicate Valid()
      reads this
    {
      Conserves(pageText, State())
    }

    /** The component as configured, before `Start`. */
    constructor (fullText: string, text: string, buttonActive: bool,
                 maxWidth: int, maxHeight: int,
                 preferredWidth: string -> int, preferredHeight: string -> int)
      ensures Valid()
      ensures this.fullText == fullText && this.text == text && this.buttonActive == buttonActive
      ensures this.maxWidth == maxWidth && this.maxHeight == maxHeight
      ensures this.preferredWidth == preferredWidth && this.preferredHeight == preferredHeight
      ensures remainingText == [] && displayedText == [] && currentLine == []
      ensures !isTyping && !textComplete && !hasClone
    {
      this.fullText := fullText;
      this.text := text;
      this.buttonActive := buttonActive;
      this.maxWidth := maxWidth;
      this.maxHeight := maxHeight;
      this.preferredWidth := preferredWidth;
      this.preferredHeight := preferredHeight;
      remainingText := [];
      displayedText := [];
      currentLine := [];
      isTyping := false;
      textComplete := false;
      hasClone := false;
      pageText := [];
      new;
      assert State() == Page([], [], text, [], false, false, buttonActive);
    }

    /** `Start`: create the measurement clone, hide the button, turn every
        backslash-`n` of the configured text into a line break, and start
        revealing it from the beginning. */
    method Start()
      modifies this
      ensures Valid()
      ensures hasClone
      ensures fullText == UnescapeNewlines(old(fullText))
      ensures State() == Step(Measure(), Begin(old(State()).(button := false), fullText, false))
    {
      hasClone := true;
      buttonActive := false;
      fullText := UnescapeNewlines(fullText);
      remainingText := fullText;
      ShowText(false);
    }

    /** `FixedUpdate`: the measurement clone exists exactly while typing
        (created when missing, destroyed when not needed). */
    method FixedUpdate()
      requires Valid()
      modifies this`hasClone
      ensures Valid()
      ensures hasClone == isTyping
    {
      if isTyping && !hasClone {
        hasClone := true;
      }
      if !isTyping && hasClone {
        hasClone := false;
      }
    }

    /** `OnContinueButtonPressed`: nothing happens unless the text is
        complete; otherwise the shown text is cleared, `"... "` is put in
        front of the remaining text, the button is hidden, and the reveal
        resumes from the remaining text. Its first pass reveals a `.`, which
        never ends a page, so afterwards the text is not complete and a
        second press does nothing. */
    method OnContinueButtonPressed()
      requires Valid()
      modifies this`remainingText, this`displayedText, this`text, this`currentLine,
               this`buttonActive, this`isTyping, this`textComplete, this`pageText
      ensures Valid()
      ensures !old(textComplete) ==> unchanged(this)
      ensures old(textComplete) ==>
        State() == Step(Measure(), Begin(old(State()).(shown := [], remaining := "... " + old(remainingText), button := false),
                                         fullText, true))
      ensures old(textComplete) ==> isTyping && !textComplete && !buttonActive
    {
      if textComplete {
        text := [];
        remainingText := "... " + remainingText;
        buttonActive := false;
        ghost var start := Begin(State(), fullText, true);
        StepWithinWord(Measure(), start);
        ShowText(true);
      }
    }

    /** Starting the `ShowText` coroutine: the set-up before its loop, then
        the loop's first pass, which runs before the coroutine first
        yields. */
    method ShowText(isContinuation: bool)
      modifies this`remainingText, this`displayedText, this`text, this`currentLine,
               this`buttonActive, this`isTyping, this`textComplete, this`pageText
      ensures Valid()
      ensures State() == Step(Measure(), Begin(old(State()), fullText, isContinuation))
    {
      ghost var before := State();
      BeginConserves(before, fullText, isContinuation);
      isTyping, displayedText, textComplete := true, [], false;
      if !isContinuation {
        remainingText := fullText;
      }
      currentLine, pageText := [], remainingText;
      assert State() == Begin(before, fullText, isContinuation);
      Resume();
    }

    /** One pass of the `ShowText` loop, run when the coroutine resumes after
        its wait: the loop condition is checked, and either the loop ends
        (nothing left: typing stops and the text is complete) or its body
        runs. */
    method Resume()
      requires Valid() && isTyping
      modifies this`remainingText, this`displayedText, this`text, this`currentLine,
               this`buttonActive, this`isTyping, this`textComplete
      ensures Valid()
      ensures State() == Step(old(Measure()), old(State()))
    {
      ghost var p := State();
      StepConserves(Measure(), pageText, p);
      if remainingText == [] {
        isTyping, textComplete := false, true;
        return;
      }
      RevealNext();
    }

    /** The body of the `ShowText` loop: one character is revealed, with a
        line break after it when it is a space and the line is too wide, and
        the page ends when the end-of-line overflow test holds and the button
        is hidden; otherwise the current line is emptied after a line
        break. */
    method RevealNext()
      requires isTyping && remainingText != []
      modifies this`remainingText, this`displayedText, this`text, this`currentLine,
               this`buttonActive, this`isTyping, this`textComplete
      ensures State() == Step(old(Measure()), old(State()))
    {
      var env := Measure();
      var c := remainingText[0];
      var displayed := displayedText + [c];
      var line := currentLine + [c];
      if EndsWith(displayed, ' ') && IsTextOverflowingWithoutBreakWord(env, text, line, false) {
        displayed := displayed + "\n";
      }
      var shown := displayed;
      var pageFull := IsTextOverflowingWithoutBreakWord(env, shown, line, true) && !buttonActive;
      if pageFull {
        if !EndsWith(shown, '\n') {
          shown := shown + "...";
        }
      } else if EndsWith(shown, '\n') {
        line := [];
      }
      remainingText, displayedText, text, currentLine := remainingText[1..], displayed, shown, line;
      if pageFull {
        buttonActive, isTyping, textComplete := true, false, true;
      }
    }
  }
}
