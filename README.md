# ScrollTextEffect typewriter, modelled in Dafny

This project models the typewriter reveal engine of the `ScrollTextEffect`
Unity component. The component reveals a dialogue text in a speech bubble one
character at a time:

- It takes characters one by one off the front of the remaining text.
- It appends each one to the displayed text and to the line being built.
- When that line is too wide and the character just added is a space, it inserts a line break.
- When the bubble is full at a word end, it stops the page and shows a "continue" button.
- Pressing the button clears the bubble, puts `"... "` in front of the remaining text, and resumes.

Modules, one per concern:

- `Strings`: ordinal one-character `EndsWith`, the last line of a text, and a text with its line breaks removed.
- `Escapes`: the newline normalisation `Start` applies to the configured text (backslash-`n` becomes a line break), its inverse, and their round trips.
- `Overflow`: the two overflow tests, `IsLineOverflowing` and `IsTextOverflowingWithoutBreakWord`. Measurements are abstract (an `Env` value):
  - whether the hidden measurement clone exists;
  - the bubble's width and height;
  - a preferred-width function and a preferred-height function.
- `Wrapping`: the relation between consumed text and displayed text (`Wrapped`), and the layout a fixed environment produces (`Layout`). Also holds conservation of characters, word-safe line breaks, and the exact page-break condition (`BreaksPage`).
- `Typewriter`: the state of the reveal loop (`Page`), the set-up before the loop (`Begin`), one pass of the loop (`Step`), and the loop run to the end of a page (`Loop`). Also holds the invariant every pass keeps (`Conserves`) and the page-level result (`PageRun`).
- `Effect`: the component as a class with the source's fields, and its methods `Start`, `FixedUpdate`, `OnContinueButtonPressed` and `ShowText`.

`ShowText` is a coroutine. Starting it runs its set-up and the first loop pass up to the first `yield`. Each later pass runs when the coroutine resumes. The class therefore has:

- `ShowText`: the set-up plus the first pass;
- `Resume`: one later pass, checking the loop condition and running the loop body `RevealNext`.

Both are proved equal to the pure `Step` applied to the state they start from, and both keep the class invariant. `FixedUpdate` can toggle the measurement clone between passes. `Loop` and `PageRun` describe a whole page when the clone does not change.

A consequence proved along the way (`Wrapping.BreaksPageEndsLine`, the `shown` clauses of `Typewriter.Step`): a page can end only when the line just built ends in a line break, or overflows at a space. An overflow at a space already inserted a line break earlier in the same pass. So at every page break the displayed text ends in a line break, and the `"..."` suffix (line 202) is never appended.

The width check before a line break (line 190) measures `currentLine` after the space was appended, so the trailing space counts toward the line's width. The model measures it the same way.

## Model

| member | source | states |
|---|---|---|
| Escapes.UnescapeNewlines | Assets/Scripts/ScrollTextEffect.cs:91 | the normalised text is never longer; it is shorter exactly when the text holds a backslash-`n` pair; its first character is a line break when the text starts with such a pair, else the text's first character |
| Escapes.HasEscapeCons | Assets/Scripts/ScrollTextEffect.cs:91 | a text holds a backslash-`n` pair exactly when it starts with one or its tail holds one |
| Escapes.UnescapeNoEscape | Assets/Scripts/ScrollTextEffect.cs:91 | a text without backslash-`n` pairs is left unchanged |
| Escapes.UnescapeLeavesNoEscape | Assets/Scripts/ScrollTextEffect.cs:91 | the normalised text holds no backslash-`n` pair |
| Escapes.UnescapeIdempotent | Assets/Scripts/ScrollTextEffect.cs:91 | normalising twice is normalising once |
| Escapes.EscapeNewlines | Assets/Scripts/ScrollTextEffect.cs:91 | the inverse rewrite leaves no raw line break and at most doubles the length |
| Escapes.UnescapeEscape | Assets/Scripts/ScrollTextEffect.cs:91 | escaping then normalising gives back any text without a backslash-`n` pair |
| Escapes.EscapeUnescape | Assets/Scripts/ScrollTextEffect.cs:91 | normalising then escaping gives back any text without raw line breaks |
| Escapes.EscapeAfterUnescape | Assets/Scripts/ScrollTextEffect.cs:91 | for every text, raw line breaks included: normalising then escaping gives what escaping alone gives, since each backslash-`n` pair becomes one line break and every other character is kept |
| Overflow.WidthLimit | Assets/Scripts/ScrollTextEffect.cs:284 | the width limit is 100 below the bubble width at or above 1250, and 100 above it below 1250 |
| Overflow.HeightLimit | Assets/Scripts/ScrollTextEffect.cs:256 | the height limit is 50 below the bubble height at or above width 1250, and the bubble height otherwise |
| Overflow.IsHeightOverflowing | Assets/Scripts/ScrollTextEffect.cs:256 | the shown block is too tall exactly when its preferred height reaches the bubble height less 50 at widths from 1250, and the bubble height below 1250; always when it reaches the bubble height, never when it stays 50 below it |
| Overflow.AtWordEnd | Assets/Scripts/ScrollTextEffect.cs:241 | a text is at a word end exactly when it is non-empty and its last character is a space or a line break |
| Overflow.IsLineOverflowing | Assets/Scripts/ScrollTextEffect.cs:269-285 | never true without the measurement clone; with it, true exactly when the preferred width reaches the width limit on each side of the 1250 pivot |
| Overflow.IsTextOverflowingWithoutBreakWord | Assets/Scripts/ScrollTextEffect.cs:232-260 | in end-of-line mode: false unless the text ends in a space or line break; otherwise (width overflow or ends in a line break) and height overflow. Outside end-of-line mode: the width test alone. End-of-line mode without the clone reduces to line break plus height overflow |
| Overflow.WidthMarginExample | Assets/Scripts/ScrollTextEffect.cs:284 | a line 1150 wide overflows a 1000-wide bubble but not a 1400-wide one |
| Overflow.WidthLimitDropsAtPivot | Assets/Scripts/ScrollTextEffect.cs:284 | the width limit at 1249 is 199 above the limit at 1250 |
| Overflow.PageBreakThresholdExample | Assets/Scripts/ScrollTextEffect.cs:256-259 | in a 1300 by 400 bubble, a too-wide line ending in a space ends the page exactly from height 350 |
| Strings.LastLine | Assets/Scripts/ScrollTextEffect.cs:176-213 | the line being built holds no line break and is no longer than the text |
| Strings.LastLineIsSuffix | Assets/Scripts/ScrollTextEffect.cs:176-213 | the line being built is the longest suffix without a line break |
| Strings.LastLineAppend | Assets/Scripts/ScrollTextEffect.cs:185-213 | appending a character extends the line being built; appending a line break empties it |
| Strings.Visible | Assets/Scripts/ScrollTextEffect.cs:182-190 | removing line breaks never lengthens a text, leaves none, and changes nothing in a text without any |
| Strings.EndsWithAppend | Assets/Scripts/ScrollTextEffect.cs:189 | once a character is appended, the one-character `EndsWith` test on the result is decided by that character alone |
| Strings.EndsWithBreak | Assets/Scripts/ScrollTextEffect.cs:202-213 | a text ends in a line break exactly when it is non-empty and the line being built at its end is empty |
| Wrapping.WrappedAppend | Assets/Scripts/ScrollTextEffect.cs:182 | moving a character onto the displayed text keeps the consumed/displayed relation |
| Wrapping.WrappedAppendBreak | Assets/Scripts/ScrollTextEffect.cs:190 | a line break inserted after a consumed space keeps the relation |
| Wrapping.WrappedConserves | Assets/Scripts/ScrollTextEffect.cs:179-193 | the displayed text holds exactly the consumed characters in order, up to line breaks, and is at most twice as long |
| Wrapping.WrappedBreaksFollowSpaces | Assets/Scripts/ScrollTextEffect.cs:190 | for a text without line breaks of its own, every displayed line break directly follows a space |
| Wrapping.Layout | Assets/Scripts/ScrollTextEffect.cs:179-193 | the layout of a consumed text with a fixed measurement environment is related to it by `Wrapped` |
| Wrapping.LayoutPrefix | Assets/Scripts/ScrollTextEffect.cs:182-192 | the displayed text only grows as more is consumed |
| Wrapping.LayoutWithoutClone | Assets/Scripts/ScrollTextEffect.cs:275 | without the measurement clone no line break is inserted |
| Wrapping.LayoutWithoutSpaces | Assets/Scripts/ScrollTextEffect.cs:190 | a single word is never broken |
| Wrapping.TickLine | Assets/Scripts/ScrollTextEffect.cs:185-213 | the line checked when a character is consumed ends in that character and holds no earlier line break |
| Wrapping.BreaksPage | Assets/Scripts/ScrollTextEffect.cs:199 | consuming a text ends the page exactly when its last character is a line break, or a space with the line checked at that pass too wide, and the laid-out text is too tall |
| Wrapping.BreaksPageAtWordEnd | Assets/Scripts/ScrollTextEffect.cs:199 | a page ends only after a space or a line break, and only when the shown block is too tall |
| Wrapping.BreaksPageEndsLine | Assets/Scripts/ScrollTextEffect.cs:199-202 | at a page break the displayed text already ends in a line break |
| Typewriter.Begin | Assets/Scripts/ScrollTextEffect.cs:167-176 | the set-up starts typing with nothing displayed and an empty line; a fresh start restarts from the full text, a continuation keeps the remaining text; shown text and button are untouched |
| Typewriter.Step | Assets/Scripts/ScrollTextEffect.cs:179-220 | with nothing left, typing stops and the text is complete. Otherwise the remaining text loses exactly its first character. That character is appended to the displayed text, alone or (a space only) followed by a line break. The shown text is the displayed text. The button and completion change only when the page ends. The line is emptied whenever the shown text ends in a line break |
| Typewriter.Loop | Assets/Scripts/ScrollTextEffect.cs:179-220 | the loop terminates, with typing stopped and the text complete, never having grown the remaining text |
| Typewriter.StepLaysOut | Assets/Scripts/ScrollTextEffect.cs:182-213 | one pass lays its character out as `Layout` does, ends the page exactly when the end-of-line test holds with the button hidden, and otherwise keeps the line equal to the displayed text's last line |
| Typewriter.LayoutSnoc | Assets/Scripts/ScrollTextEffect.cs:182-199 | the layout of one more character, and whether it ends the page, in terms of the previous layout |
| Typewriter.StepOnPage | Assets/Scripts/ScrollTextEffect.cs:179-209 | from a loop state, one pass consumes the next character of the page's text and displays the layout of the consumed prefix. It stops exactly at a page break with the button hidden, and then the button is shown and the shown text is the displayed text |
| Typewriter.StepStaysOnPage | Assets/Scripts/ScrollTextEffect.cs:179-216 | a pass that does not end the page reaches the next loop state, with no page break among the characters consumed so far |
| Typewriter.FinishAtEnd | Assets/Scripts/ScrollTextEffect.cs:219-220 | with nothing left the page finishes with everything consumed and laid out |
| Typewriter.FinishAtBreak | Assets/Scripts/ScrollTextEffect.cs:199-209 | a pass that ends the page leaves the rest unconsumed, shows the button, and completes the text |
| Typewriter.RunFrom | Assets/Scripts/ScrollTextEffect.cs:179-220 | the loop run from any loop state finishes its page as `Finished` describes |
| Typewriter.PageRun | Assets/Scripts/ScrollTextEffect.cs:165-221 | a whole page with a fixed environment: the consumed prefix is laid out. The page stops at the first page break, or consumes everything. The button is shown exactly when it stopped early or was already shown. The shown text is the displayed one. An empty text completes at once with nothing displayed |
| Typewriter.BeginConserves | Assets/Scripts/ScrollTextEffect.cs:167-176 | the set-up establishes the loop invariant for the text the page starts from |
| Typewriter.StepConserves | Assets/Scripts/ScrollTextEffect.cs:179-193 | every pass keeps the loop invariant whatever the measurements. That invariant says: consumed text plus remaining text is the page's text; the displayed text is the consumed text with breaks inserted after spaces; the shown text is the displayed text; while typing, the text is not complete and the line is the last displayed line |
| Typewriter.StepWithinWord | Assets/Scripts/ScrollTextEffect.cs:241 | a pass over a character that is neither a space nor a line break never ends the page |
| Effect.ScrollTextEffect.constructor | Assets/Scripts/ScrollTextEffect.cs:41-72 | the component starts with nothing remaining, displayed or typing, and no clone |
| Effect.ScrollTextEffect.Start | Assets/Scripts/ScrollTextEffect.cs:83-94 | creates the clone, hides the button, normalises the configured text, and starts the first page from it (its first pass done) |
| Effect.ScrollTextEffect.FixedUpdate | Assets/Scripts/ScrollTextEffect.cs:96-108 | afterwards the clone exists exactly while typing; it changes nothing else (its frame is the clone flag alone), and keeps the invariant |
| Effect.ScrollTextEffect.OnContinueButtonPressed | Assets/Scripts/ScrollTextEffect.cs:138-155 | nothing changes unless the text is complete. Otherwise: the shown text is cleared, `"... "` is put in front of the remaining text, the button is hidden, and the reveal resumes. Afterwards it is typing and not complete, so a second press does nothing |
| Effect.ScrollTextEffect.ShowText | Assets/Scripts/ScrollTextEffect.cs:165-179 | the set-up followed by one pass, as `Step` after `Begin`, establishing the invariant |
| Effect.ScrollTextEffect.Resume | Assets/Scripts/ScrollTextEffect.cs:179-220 | one later pass of the loop, exactly as `Step`, keeping the invariant; the configured text and the clone are outside its frame |
| Effect.ScrollTextEffect.RevealNext | Assets/Scripts/ScrollTextEffect.cs:182-216 | the loop body on a non-empty remaining text, exactly as `Step`: reveal, optional line break, page-end test, line reset |

## Left out

- Unity plumbing is not modelled: the `MonoBehaviour` life cycle, `StartCoroutine`, the `WaitForSeconds` delay and typing speed, `Debug.Log`, and registering the button listener. Calls are plain method calls, and the clone and button are booleans.
- How TextMeshPro computes preferred widths and heights is not modelled. They are arbitrary functions from strings to integers, and the bubble's width and height are integers rather than floats.
- The bubble's rectangle is constant for the life of the component. Resizing is not modelled.
- The text component and button references are assumed to be set. With a missing reference the source would throw or skip creating the clone.
- `Effect.ScrollTextEffect.FixedUpdate`: destroying the clone takes effect immediately. In Unity it is deferred to the end of the frame.
- `EndsWith` is an ordinal one-character test. The source's string overload is culture-sensitive, which can differ for unusual characters.
- `Strings.EndsWith`: carries no contract of its own, because its one-line definition is used inside every pass's reasoning; what it means is stated by `Strings.EndsWithAppend` and `Strings.EndsWithBreak`.
- Characters are Unicode scalar values, while C# strings are UTF-16 code units. A character outside the Basic Multilingual Plane takes two passes in the source, with a lone high surrogate shown and measured for one pass, and one pass in the model. The pass count and the intermediate shown text differ for such characters. Line and page breaks are decided only at spaces and line breaks, so the layouts reached at those points agree.
- `Typewriter.Loop`: runs a page with one fixed environment. A clone toggled by `FixedUpdate` between passes is covered pass by pass, through `Effect.ScrollTextEffect.Resume` and `Typewriter.StepConserves`.
- `Effect.ScrollTextEffect.RevealNext`: the pass computes on locals and assigns the fields together, not one statement at a time. Nothing reads them in between, and the height measured at line 190 is not used in that mode.
- The public `FullText`, `TypingSpeed` and `ContinueButton` properties are not modelled.
- The rest of the project (dialogue layout, screen utilities, the player and interactor scripts, component cloning helpers) is not part of this model.
