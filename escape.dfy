/**
 * The brace doubling that the agent applies to the serialised kitchen state
 * before putting it into a prompt, and the rendering of a prompt template
 * that turns doubled braces back into single ones.
 */
module BraceEscape {
  import opened Wrappers

  /** The number of occurrences of `c` in `s`. */
  function Count(s: string, c: char): nat {
    if s == [] then 0 else (if s[0] == c then 1 else 0) + Count(s[1..], c)
  }

  /** Python's `s.replace(c, c + c)` for a single character `c`: each occurrence is doubled. */
  function Double(s: string, c: char): string {
    if s == [] then [] else (if s[0] == c then [c, c] else [s[0]]) + Double(s[1..], c)
  }

  /** `.replace("{", "{{").replace("}", "}}")`: two passes, opening braces first. */
  function Escape(s: string): string {
    Double(Double(s, '{'), '}')
  }

  /** What `Escape` makes of one character. */
  function EscapeChar(c: char): string {
    if c == '{' then "{{" else if c == '}' then "}}" else [c]
  }

  function Prepend(c: char, r: Option<string>): Option<string> {
    match r
    case None => None
    case Some(rest) => Some([c] + rest)
  }

  /**
   * Rendering the literal text of an f-string prompt template: `{{` gives
   * `{` and `}}` gives `}`. A single brace would open a replacement field
   * (or be a stray `}`); for the literal text modelled here it is an error.
   */
  function RenderLiteral(t: string): Option<string>
    decreases |t|
  {
    if t == [] then Some([])
    else if t[0] == '{' || t[0] == '}' then
      if |t| >= 2 && t[1] == t[0] then Prepend(t[0], RenderLiteral(t[2..])) else None
    else Prepend(t[0], RenderLiteral(t[1..]))
  }

  // ---------------------------------------------------------------------------
  // Properties
  // ---------------------------------------------------------------------------

  /** Doubling lengthens the text by one character per occurrence. */
  lemma {:induction false} DoubleLength(s: string, c: char)
    ensures |Double(s, c)| == |s| + Count(s, c)
  {
    if s != [] {
      DoubleLength(s[1..], c);
    }
  }

  /** Doubling works piece by piece. */
  lemma {:induction false} DoubleAppend(a: string, b: string, c: char)
    ensures Double(a + b, c) == Double(a, c) + Double(b, c)
  {
    if a == [] {
      assert a + b == b;
    } else {
      var h := if a[0] == c then [c, c] else [a[0]];
      assert (a + b)[0] == a[0] && (a + b)[1..] == a[1..] + b;
      calc {
        Double(a + b, c);
        h + Double(a[1..] + b, c);
        { DoubleAppend(a[1..], b, c); }
        h + (Double(a[1..], c) + Double(b, c));
        (h + Double(a[1..], c)) + Double(b, c);
      }
    }
  }

  /** Escaping works character by character. */
  lemma EscapeCons(s: string)
    requires s != []
    ensures Escape(s) == EscapeChar(s[0]) + Escape(s[1..])
  {
    var head := if s[0] == '{' then "{{" else [s[0]];
    assert Double(s, '{') == head + Double(s[1..], '{');
    DoubleAppend(head, Double(s[1..], '{'), '}');
    if s[0] == '{' {
      assert Double(head, '}') == "{{" by {
        assert head == ['{'] + ['{'];
        DoubleAppend(['{'], ['{'], '}');
      }
    } else {
      assert head[0] == s[0] && head[1..] == [];
      assert Double(head, '}') == (if s[0] == '}' then "}}" else [s[0]]) + Double([], '}');
    }
  }

  /** A doubled opening brace cannot create a closing one, so the second pass doubles exactly the original `}`s. */
  lemma {:induction false} CountAfterDouble(s: string)
    ensures Count(Double(s, '{'), '}') == Count(s, '}')
  {
    if s != [] {
      CountAfterDouble(s[1..]);
      var head := if s[0] == '{' then "{{" else [s[0]];
      CountAppend(head, Double(s[1..], '{'), '}');
    }
  }

  /** Counting works piece by piece. */
  lemma {:induction false} CountAppend(a: string, b: string, c: char)
    ensures Count(a + b, c) == Count(a, c) + Count(b, c)
  {
    if a == [] {
      assert a + b == b;
    } else {
      CountAppend(a[1..], b, c);
      assert (a + b)[0] == a[0] && (a + b)[1..] == a[1..] + b;
    }
  }

  /** The escaped text is the input lengthened by one character per brace. */
  lemma EscapeLength(s: string)
    ensures |Escape(s)| == |s| + Count(s, '{') + Count(s, '}')
  {
    DoubleLength(s, '{');
    DoubleLength(Double(s, '{'), '}');
    CountAfterDouble(s);
  }

  /**
   * Rendering the escaped text as template literal text gives back the
   * input exactly: the doubling is the template's escape for braces.
   */
  lemma {:induction false} RenderEscape(s: string)
    ensures RenderLiteral(Escape(s)) == Some(s)
    decreases |s|
  {
    if s == [] {
      assert Escape(s) == [];
    } else {
      EscapeCons(s);
      RenderEscape(s[1..]);
      var t := Escape(s);
      var rest := Escape(s[1..]);
      if s[0] == '{' || s[0] == '}' {
        assert t[0] == s[0] && t[1] == s[0] && t[2..] == rest;
      } else {
        assert t[0] == s[0] && t[1..] == rest;
      }
      assert [s[0]] + s[1..] == s;
    }
  }

  /** Two different states never serialise to the same escaped text. */
  lemma EscapeInjective(s: string, t: string)
    requires Escape(s) == Escape(t)
    ensures s == t
  {
    RenderEscape(s);
    RenderEscape(t);
  }
}
