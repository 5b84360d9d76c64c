/** The newline normalisation `Start` applies to the configured text: every
    literal two-character sequence backslash-`n` becomes one line break,
    scanning left to right without overlaps, as an ordinal string replace
    does. */
module Escapes {

  /** `s` holds a literal backslash immediately followed by `n`. */
  ghost predicate HasEscape(s: string)
  {
    exists i :: 0 <= i < |s| - 1 && s[i] == '\\' && s[i + 1] == 'n'
  }

  /** Whether `s` holds an escape pair, decided on its first character and
      the rest. */
  lemma HasEscapeCons(s: string)
    requires s != []
    ensures HasEscape(s) <==> (|s| >= 2 && s[0] == '\\' && s[1] == 'n') || HasEscape(s[1..])
  {
    if HasEscape(s[1..]) {
      var i :| 0 <= i < |s[1..]| - 1 && s[1..][i] == '\\' && s[1..][i + 1] == 'n';
      assert s[i + 1] == '\\' && s[i + 2] == 'n';
    }
    if HasEscape(s) {
      var i :| 0 <= i < |s| - 1 && s[i] == '\\' && s[i + 1] == 'n';
      if i > 0 {
        assert s[1..][i - 1] == '\\' && s[1..][i] == 'n';
      }
    }
  }

  /** Replace every backslash-`n` pair by a line break; every other
      character is kept, so the text never gets longer, and it gets shorter
      exactly when there was something to replace. */
  function UnescapeNewlines(s: string): (r: string)
    ensures |r| <= |s|
    ensures |r| == |s| <==> !HasEscape(s)
    ensures r != [] ==> r[0] == (if |s| >= 2 && s[0] == '\\' && s[1] == 'n' then '\n' else s[0])
    decreases |s|
  {
    if s == [] then
      []
    else if |s| >= 2 && s[0] == '\\' && s[1] == 'n' then
      HasEscapeCons(s);
      "\n" + UnescapeNewlines(s[2..])
    else
      HasEscapeCons(s);
      [s[0]] + UnescapeNewlines(s[1..])
  }

  /** The inverse direction: every line break written as backslash-`n`. */
  function EscapeNewlines(t: string): (r: string)
    ensures |t| <= |r| <= 2 * |t|
    ensures '\n' !in r
    decreases |t|
  {
    if t == [] then []
    else (if t[0] == '\n' then "\\n" else [t[0]]) + EscapeNewlines(t[1..])
  }

  /** A text without escape pairs is left unchanged. */
  lemma {:induction false} UnescapeNoEscape(s: string)
    requires !HasEscape(s)
    ensures UnescapeNewlines(s) == s
    decreases |s|
  {
    if s != [] {
      HasEscapeCons(s);
      UnescapeNoEscape(s[1..]);
      assert s == [s[0]] + s[1..];
    }
  }

  /** The normalised text holds no escape pair any more. */
  lemma {:induction false} UnescapeLeavesNoEscape(s: string)
    ensures !HasEscape(UnescapeNewlines(s))
    decreases |s|
  {
    var r := UnescapeNewlines(s);
    if s == [] {
    } else if |s| >= 2 && s[0] == '\\' && s[1] == 'n' {
      UnescapeLeavesNoEscape(s[2..]);
      assert r[1..] == UnescapeNewlines(s[2..]);
      HasEscapeCons(r);
    } else {
      UnescapeLeavesNoEscape(s[1..]);
      var tail := UnescapeNewlines(s[1..]);
      assert r[1..] == tail;
      // after a kept backslash comes a line break or a character other than `n`
      assert s[0] == '\\' && tail != [] ==> tail[0] != 'n';
      HasEscapeCons(r);
    }
  }

  /** Normalising twice is normalising once. */
  lemma UnescapeIdempotent(s: string)
    ensures UnescapeNewlines(UnescapeNewlines(s)) == UnescapeNewlines(s)
  {
    UnescapeLeavesNoEscape(s);
    UnescapeNoEscape(UnescapeNewlines(s));
  }

  /** Escaping then normalising gives back any text without a literal
      backslash-`n` pair. */
  lemma {:induction false} UnescapeEscape(t: string)
    requires !HasEscape(t)
    ensures UnescapeNewlines(EscapeNewlines(t)) == t
    decreases |t|
  {
    if t != [] {
      var rest := t[1..];
      HasEscapeCons(t);
      UnescapeEscape(rest);
      var e := EscapeNewlines(rest);
      if t[0] == '\n' {
        assert EscapeNewlines(t) == "\\n" + e;
        assert ("\\n" + e)[2..] == e;
      } else {
        assert EscapeNewlines(t) == [t[0]] + e;
        assert ([t[0]] + e)[1..] == e;
        // e starts with `n` only when rest does, and t has no escape pair
        assert e != [] ==> e[0] == (if rest[0] == '\n' then '\\' else rest[0]);
      }
      assert t == [t[0]] + rest;
    }
  }

  /** Normalising then escaping gives back any text without raw line breaks. */
  lemma {:induction false} EscapeUnescape(s: string)
    requires '\n' !in s
    ensures EscapeNewlines(UnescapeNewlines(s)) == s
    decreases |s|
  {
    if |s| >= 2 && s[0] == '\\' && s[1] == 'n' {
      EscapeUnescape(s[2..]);
      var u := UnescapeNewlines(s[2..]);
      assert ("\n" + u)[1..] == u;
      assert s == "\\n" + s[2..];
    } else if s != [] {
      EscapeUnescape(s[1..]);
      var u := UnescapeNewlines(s[1..]);
      assert ([s[0]] + u)[1..] == u;
      assert s == [s[0]] + s[1..];
    }
  }

  /** Escaping a non-empty text: its first character escaped, then the rest. */
  lemma EscapeCons(t: string)
    requires t != []
    ensures EscapeNewlines(t) == (if t[0] == '\n' then "\\n" else [t[0]]) + EscapeNewlines(t[1..])
  {
  }

  /** Escaping text that starts with a line break. */
  lemma EscapeBreak(u: string)
    ensures EscapeNewlines("\n" + u) == "\\n" + EscapeNewlines(u)
  {
    EscapeCons("\n" + u);
    assert ("\n" + u)[1..] == u;
  }

  /** Escaping text that starts with a literal escape pair. */
  lemma EscapePair(s: string)
    requires |s| >= 2 && s[0] == '\\' && s[1] == 'n'
    ensures EscapeNewlines(s) == "\\n" + EscapeNewlines(s[2..])
  {
    var r := s[1..];
    assert r[0] == 'n' && r[1..] == s[2..];
    EscapeCons(r);
    EscapeCons(s);
    assert EscapeNewlines(s) == ['\\'] + (['n'] + EscapeNewlines(s[2..]));
  }

  /** A leading escape pair and the line break it becomes escape alike. */
  lemma EscapeAfterUnescapePair(s: string)
    requires |s| >= 2 && s[0] == '\\' && s[1] == 'n'
    requires EscapeNewlines(UnescapeNewlines(s[2..])) == EscapeNewlines(s[2..])
    ensures EscapeNewlines(UnescapeNewlines(s)) == EscapeNewlines(s)
  {
    assert UnescapeNewlines(s) == "\n" + UnescapeNewlines(s[2..]);
    EscapeBreak(UnescapeNewlines(s[2..]));
    EscapePair(s);
  }

  /** A leading character that does not start an escape pair is kept. */
  lemma EscapeAfterUnescapeKept(s: string)
    requires s != [] && !(|s| >= 2 && s[0] == '\\' && s[1] == 'n')
    requires EscapeNewlines(UnescapeNewlines(s[1..])) == EscapeNewlines(s[1..])
    ensures EscapeNewlines(UnescapeNewlines(s)) == EscapeNewlines(s)
  {
    var u := UnescapeNewlines(s[1..]);
    assert UnescapeNewlines(s) == [s[0]] + u;
    EscapeCons([s[0]] + u);
    assert ([s[0]] + u)[1..] == u;
    EscapeCons(s);
  }

  /** Escaping forgets whether a line break was written raw or as an escape
      pair, so normalising first changes nothing it can see: every pair
      becomes one line break and every other character is kept, whatever
      raw line breaks the text already holds. */
  lemma {:induction false} EscapeAfterUnescape(s: string)
    ensures EscapeNewlines(UnescapeNewlines(s)) == EscapeNewlines(s)
    decreases |s|
  {
    if |s| >= 2 && s[0] == '\\' && s[1] == 'n' {
      EscapeAfterUnescape(s[2..]);
      EscapeAfterUnescapePair(s);
    } else if s != [] {
      EscapeAfterUnescape(s[1..]);
      EscapeAfterUnescapeKept(s);
    }
  }
}
