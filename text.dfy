/**
 * The parts of Python's `str` that the enrichment passes and the expiry
 * classifier rely on: the whitespace class, `strip()` and the `in` test.
 */
module Text {

  /**
   * Python's `str.isspace()`. The `\s` class of a `re` pattern over `str`
   * matches exactly the same characters, so one predicate serves both.
   */
  predicate IsSpace(c: char) {
    ('\t' <= c <= '\r') || ('\U{1C}' <= c <= ' ') || c == '\U{85}' || c == '\U{A0}'
    || c == '\U{1680}' || ('\U{2000}' <= c <= '\U{200A}') || c == '\U{2028}'
    || c == '\U{2029}' || c == '\U{202F}' || c == '\U{205F}' || c == '\U{3000}'
  }

  predicate AllSpace(s: string) {
    forall i :: 0 <= i < |s| ==> IsSpace(s[i])
  }

  /** Drops the leading whitespace. */
  function TrimLeft(s: string): (r: string)
    ensures |r| <= |s|
  {
    if s != [] && IsSpace(s[0]) then TrimLeft(s[1..]) else s
  }

  /** Drops the trailing whitespace. */
  function TrimRight(s: string): (r: string)
    ensures |r| <= |s|
  {
    if s != [] && IsSpace(s[|s| - 1]) then TrimRight(s[..|s| - 1]) else s
  }

  /** What `TrimLeft` keeps is a suffix that starts with a non-space, and what it drops is all whitespace. */
  lemma {:induction false} TrimLeftSpec(s: string)
    ensures var r := TrimLeft(s);
      r == s[|s| - |r|..] && AllSpace(s[..|s| - |r|]) && (r != [] ==> !IsSpace(r[0]))
  {
    if s != [] && IsSpace(s[0]) {
      TrimLeftSpec(s[1..]);
      var r := TrimLeft(s[1..]);
      assert s[1..][..|s| - 1 - |r|] == s[1..|s| - |r|];
    }
  }

  /** What `TrimRight` keeps is a prefix that ends with a non-space, and what it drops is all whitespace. */
  lemma {:induction false} TrimRightSpec(s: string)
    ensures var r := TrimRight(s);
      r == s[..|r|] && AllSpace(s[|r|..]) && (r != [] ==> !IsSpace(r[|r| - 1]))
  {
    if s != [] && IsSpace(s[|s| - 1]) {
      TrimRightSpec(s[..|s| - 1]);
      var r := TrimRight(s[..|s| - 1]);
      assert s[..|s| - 1][|r|..] == s[|r|..|s| - 1];
    }
  }

  /** Python's `str.strip()` with no argument. */
  function Strip(s: string): string {
    TrimRight(TrimLeft(s))
  }

  /** `TrimLeft` stops at the first non-space: where whitespace ends at `i`, it keeps `s[i..]`. */
  lemma {:induction false} TrimLeftStopsAt(s: string, i: nat)
    requires i <= |s| && AllSpace(s[..i]) && (i < |s| ==> !IsSpace(s[i]))
    ensures TrimLeft(s) == s[i..]
    decreases i
  {
    if i == 0 {
      assert s[0..] == s;
    } else {
      assert s[..i][0] == s[0];
      assert s[1..][..i - 1] == s[1..i];
      assert forall k :: 0 <= k < i - 1 ==> s[1..i][k] == s[..i][k + 1];
      TrimLeftStopsAt(s[1..], i - 1);
      assert s[1..][i - 1..] == s[i..];
    }
  }

  /** `TrimRight` stops at the last non-space: where whitespace starts at `j`, it keeps `s[..j]`. */
  lemma {:induction false} TrimRightStopsAt(s: string, j: nat)
    requires j <= |s| && AllSpace(s[j..]) && (0 < j ==> !IsSpace(s[j - 1]))
    ensures TrimRight(s) == s[..j]
    decreases |s| - j
  {
    if j == |s| {
      assert s[..j] == s;
    } else {
      var t := s[..|s| - 1];
      assert s[j..][|s| - 1 - j] == s[|s| - 1];
      assert forall k :: 0 <= k < |t| - j ==> t[j..][k] == s[j..][k];
      TrimRightStopsAt(t, j);
      assert t[..j] == s[..j];
    }
  }

  /**
   * `strip()` keeps exactly the slice `s[i..j]` that is bounded by
   * whitespace-only margins and starts and ends with a non-space: any such
   * slice is the result, so the result is determined by that description.
   */
  lemma StripIsTheTrimmedSlice(s: string, i: nat, j: nat)
    requires i <= j <= |s|
    requires AllSpace(s[..i]) && AllSpace(s[j..])
    requires i < j ==> !IsSpace(s[i]) && !IsSpace(s[j - 1])
    ensures Strip(s) == s[i..j]
  {
    if i == j {
      StripOfSpaceIsEmpty(s, i);
    } else {
      TrimLeftStopsAt(s, i);
      StripKeepsTheCore(s, i, j);
    }
  }

  /** A text made of whitespace on both sides of `i` strips to nothing. */
  lemma StripOfSpaceIsEmpty(s: string, i: nat)
    requires i <= |s| && AllSpace(s[..i]) && AllSpace(s[i..])
    ensures Strip(s) == []
  {
    assert forall k :: 0 <= k < |s| ==> s[..|s|][k] == if k < i then s[..i][k] else s[i..][k - i];
    TrimLeftStopsAt(s, |s|);
  }

  /** Once the leading whitespace is gone, trimming the right keeps the text up to `j`. */
  lemma StripKeepsTheCore(s: string, i: nat, j: nat)
    requires i < j <= |s| && AllSpace(s[j..]) && !IsSpace(s[j - 1])
    requires TrimLeft(s) == s[i..]
    ensures Strip(s) == s[i..j]
  {
    var l := s[i..];
    assert l[j - i..] == s[j..];
    assert l[j - i - 1] == s[j - 1];
    TrimRightStopsAt(l, j - i);
    assert l[..j - i] == s[i..j];
  }

  /** Stripping twice is stripping once. */
  lemma StripIdempotent(s: string)
    ensures Strip(Strip(s)) == Strip(s)
  {
    var l := TrimLeft(s);
    var t := Strip(s);
    TrimLeftSpec(s);
    TrimRightSpec(l);
    if t != [] {
      assert t[0] == l[0];
    }
    StripIsTheTrimmedSlice(t, 0, |t|);
    assert t[..0] == [] && t[|t|..] == [] && t[0..|t|] == t;
  }

  /** What `strip()` keeps is taken from the text, and neither starts nor ends with whitespace. */
  lemma StripShape(s: string)
    ensures forall i :: 0 <= i < |Strip(s)| ==> Strip(s)[i] in s
    ensures Strip(s) != [] ==> !IsSpace(Strip(s)[0]) && !IsSpace(Strip(s)[|Strip(s)| - 1])
  {
    var l := TrimLeft(s);
    var t := TrimRight(l);
    TrimLeftSpec(s);
    TrimRightSpec(l);
    forall i | 0 <= i < |t| ensures t[i] in s {
      assert t[i] == s[|s| - |l| + i];
    }
    if t != [] {
      assert t[0] == l[0];
    }
  }

  /** Whitespace in front of a text is dropped whatever follows it. */
  lemma {:induction false} TrimLeftSkipsSpace(w: string, g: string)
    requires AllSpace(w)
    ensures TrimLeft(w + g) == TrimLeft(g)
    decreases |w|
  {
    if w == [] {
      assert w + g == g;
    } else {
      assert (w + g)[0] == w[0] && (w + g)[1..] == w[1..] + g;
      TrimLeftSkipsSpace(w[1..], g);
    }
  }

  /** Stripping ignores whitespace in front. */
  lemma StripSkipsLeadingSpace(w: string, g: string)
    requires AllSpace(w)
    ensures Strip(w + g) == Strip(g)
  {
    TrimLeftSkipsSpace(w, g);
  }

  /** `p` occurs in `s` starting at index `i`. */
  ghost predicate OccursAt(s: string, p: string, i: int) {
    0 <= i <= |s| - |p| && s[i..i + |p|] == p
  }

  /** Python's `p in s` on two strings, as a left-to-right scan. */
  predicate Contains(s: string, p: string)
    decreases |s|
  {
    if |p| <= |s| && s[..|p|] == p then true
    else if |s| <= |p| then false
    else Contains(s[1..], p)
  }

  /** The scan answers exactly the question "does `p` occur somewhere in `s`". */
  lemma {:induction false} ContainsIff(s: string, p: string)
    ensures Contains(s, p) <==> exists i :: OccursAt(s, p, i)
    decreases |s|
  {
    if |p| <= |s| && s[..|p|] == p {
      assert OccursAt(s, p, 0);
    } else if |s| <= |p| {
      forall i | OccursAt(s, p, i) ensures false {
      }
    } else {
      ContainsIff(s[1..], p);
      if Contains(s[1..], p) {
        var i :| OccursAt(s[1..], p, i);
        assert s[1..][i..i + |p|] == s[i + 1..i + 1 + |p|];
        assert OccursAt(s, p, i + 1);
      } else {
        forall i | OccursAt(s, p, i) ensures false {
          if i != 0 {
            assert s[1..][i - 1..i - 1 + |p|] == s[i..i + |p|];
            assert OccursAt(s[1..], p, i - 1);
          }
        }
      }
    }
  }

  /** A text lacking some character of `p` does not contain `p`. */
  lemma MissingCharNotContained(s: string, p: string, j: nat)
    requires j < |p| && p[j] !in s
    ensures !Contains(s, p)
  {
    ContainsIff(s, p);
  }
}
