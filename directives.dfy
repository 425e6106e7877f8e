/**
 * Matching of the inline directives `[IMG: ...]`, `[VIDEO: ...]` and
 * `[LINK: ...]` that the recipe text carries: the pattern
 * `\[TAG:\s*(.*?)\]` with `re.IGNORECASE`, tried at one position.
 */
module Directives {
  import opened Wrappers
  import opened Text

  datatype Kind = Img | Video | Link

  function Tag(k: Kind): string {
    match k
    case Img => "IMG"
    case Video => "VIDEO"
    case Link => "LINK"
  }

  /**
   * Whether the text character `c` matches the upper-case pattern letter `p`
   * under `re.IGNORECASE`. Besides the ASCII pair, Python's case folding lets
   * `I` match U+0130 and U+0131 and lets `K` match the Kelvin sign U+212A; the
   * other letters of the three tags have no further equivalents.
   */
  predicate FoldsTo(c: char, p: char) {
    c == p || c as int == p as int + 32
    || (p == 'I' && (c == '\U{130}' || c == '\U{131}'))
    || (p == 'K' && c == '\U{212A}')
  }

  predicate TagMatches(t: string, k: Kind) {
    |t| == |Tag(k)| && forall i :: 0 <= i < |t| ==> FoldsTo(t[i], Tag(k)[i])
  }

  /** The length of the fixed head `[TAG:`. */
  function HeadLen(k: Kind): nat {
    |Tag(k)| + 2
  }

  /** `s` starts with `[`, the tag in any case, and `:`. */
  predicate HeadMatches(k: Kind, s: string) {
    |s| >= HeadLen(k) && s[0] == '[' && TagMatches(s[1..HeadLen(k) - 1], k) && s[HeadLen(k) - 1] == ':'
  }

  /** `s[j..q]` holds neither `]` nor a newline: `.*?` can cover it while `\]` has not matched yet. */
  predicate OpenBetween(s: string, j: nat, q: nat)
    requires j <= q <= |s|
  {
    forall i :: j <= i < q ==> s[i] != ']' && s[i] != '\n'
  }

  /**
   * The pattern matches at the start of `s` with `\s*` covering
   * `s[HeadLen(k)..j]`, the group being `s[j..q]` and the closing bracket at
   * `q`. This is the regular language of the pattern, with no reference to
   * how the matcher searches for a match.
   */
  ghost predicate PatternMatches(k: Kind, s: string, j: nat, q: nat) {
    HeadMatches(k, s) && HeadLen(k) <= j <= q < |s|
    && AllSpace(s[HeadLen(k)..j]) && OpenBetween(s, j, q) && s[q] == ']'
  }

  /** Where the group starts and where the closing bracket is. */
  datatype Span = Span(groupStart: nat, close: nat)

  /** The greedy `\s*`: the first non-whitespace position at or after `i`. */
  function SkipSpace(s: string, i: nat): (j: nat)
    requires i <= |s|
    ensures i <= j <= |s|
    decreases |s| - i
  {
    if i < |s| && IsSpace(s[i]) then SkipSpace(s, i + 1) else i
  }

  /** The lazy `(.*?)\]`: the first `]` at or after `j`, unless a newline or the end of the text comes first. */
  function FindClose(s: string, j: nat): (r: Option<nat>)
    requires j <= |s|
    ensures r.Some? ==> j <= r.value < |s|
    decreases |s| - j
  {
    if j == |s| || s[j] == '\n' then None
    else if s[j] == ']' then Some(j)
    else FindClose(s, j + 1)
  }

  /** `SkipSpace` stops at the first non-whitespace character, having passed only whitespace. */
  lemma {:induction false} SkipSpaceSpec(s: string, i: nat)
    requires i <= |s|
    ensures var j := SkipSpace(s, i); AllSpace(s[i..j]) && (j < |s| ==> !IsSpace(s[j]))
    decreases |s| - i
  {
    if i < |s| && IsSpace(s[i]) {
      SkipSpaceSpec(s, i + 1);
    }
  }

  /**
   * `FindClose` finds a `]` exactly when one can be reached from `j` without
   * crossing a newline, and then it is the first one.
   */
  lemma {:induction false} FindCloseSpec(s: string, j: nat)
    requires j <= |s|
    ensures FindClose(s, j).Some? ==> var q := FindClose(s, j).value; s[q] == ']' && OpenBetween(s, j, q)
    ensures FindClose(s, j).None? ==> forall q :: j <= q < |s| && OpenBetween(s, j, q) ==> s[q] != ']'
    decreases |s| - j
  {
    if j < |s| && s[j] != '\n' && s[j] != ']' {
      FindCloseSpec(s, j + 1);
    }
  }

  /**
   * `pattern.match(s)`: the matcher takes the longest whitespace run and
   * then the shortest group. Giving back whitespace to the group can never
   * help, because whitespace holds no `]` and a newline in it blocks the
   * group either way.
   */
  function MatchAt(k: Kind, s: string): (r: Option<Span>)
    ensures r.Some? ==> r.value.groupStart <= r.value.close < |s|
  {
    if !HeadMatches(k, s) then None
    else
      var j := SkipSpace(s, HeadLen(k));
      match FindClose(s, j)
      case None => None
      case Some(q) => Some(Span(j, q))
  }

  /** The group a match captures, stripped as the callbacks do before using it. */
  function Subject(s: string, m: Span): string
    requires m.groupStart <= m.close <= |s|
  {
    Strip(s[m.groupStart..m.close])
  }

  /** The pattern matches `s` from index `i`, with the group from `i + j` to the bracket at `i + q`. */
  ghost predicate MatchesFrom(k: Kind, s: string, i: nat, j: nat, q: nat)
    requires i <= |s|
  {
    PatternMatches(k, s[i..], j, q)
  }

  /** No occurrence of the pattern starts anywhere in `s`. */
  ghost predicate DirectiveFree(k: Kind, s: string) {
    forall i, j, q :: 0 <= i < |s| ==> !MatchesFrom(k, s, i, j, q)
  }

  // ---------------------------------------------------------------------------
  // Properties
  // ---------------------------------------------------------------------------

  /**
   * What the matcher reports is a match of the pattern, and its group does
   * not start with whitespace (the `\s*` took all of it).
   */
  lemma MatchAtSound(k: Kind, s: string)
    requires MatchAt(k, s).Some?
    ensures PatternMatches(k, s, MatchAt(k, s).value.groupStart, MatchAt(k, s).value.close)
    ensures !IsSpace(s[MatchAt(k, s).value.groupStart])
  {
    SkipSpaceSpec(s, HeadLen(k));
    FindCloseSpec(s, SkipSpace(s, HeadLen(k)));
  }

  /**
   * The matcher finds a match whenever the pattern matches at all, ends it at
   * the same bracket as every other way of matching, and picks the longest
   * whitespace run, as Python's backtracking order does.
   */
  lemma MatchAtComplete(k: Kind, s: string, j: nat, q: nat)
    requires PatternMatches(k, s, j, q)
    ensures MatchAt(k, s).Some?
    ensures MatchAt(k, s).value.close == q && j <= MatchAt(k, s).value.groupStart
  {
    var h := HeadLen(k);
    var g := SkipSpace(s, h);
    SkipSpaceSpec(s, h);
    FindCloseSpec(s, g);
    SpaceRunEndsBefore(s, h, g, q);
    SpaceRunEndsBefore(s, h, j, g);
    assert j <= g <= q;
    assert OpenBetween(s, g, q);
  }

  /** A run of whitespace from `h` to `e` ends at or before any non-space at or after `h`. */
  lemma SpaceRunEndsBefore(s: string, h: nat, e: nat, p: nat)
    requires h <= e <= |s| && h <= p < |s|
    requires AllSpace(s[h..e]) && !IsSpace(s[p])
    ensures e <= p
  {
    forall i | h <= i < e ensures IsSpace(s[i]) {
      assert s[h..e][i - h] == s[i];
    }
  }

  /**
   * Whichever way a match divides the whitespace between `\s*` and the
   * group, the subject (the stripped group) is the same as the matcher's.
   */
  lemma MatchAtSubject(k: Kind, s: string, j: nat, q: nat)
    requires PatternMatches(k, s, j, q)
    ensures MatchAt(k, s).Some? && MatchAt(k, s).value.close == q
    ensures Subject(s, MatchAt(k, s).value) == Strip(s[j..q])
  {
    MatchAtComplete(k, s, j, q);
    MatchAtSound(k, s);
    var g := MatchAt(k, s).value.groupStart;
    assert s[j..q] == s[j..g] + s[g..q];
    assert AllSpace(s[j..g]) by {
      assert forall i :: 0 <= i < g - j ==> s[j..g][i] == s[HeadLen(k)..g][i + j - HeadLen(k)];
    }
    StripSkipsLeadingSpace(s[j..g], s[g..q]);
  }

  /** A text without `[` holds no directive of any kind. */
  lemma NoBracketNoDirective(k: Kind, s: string)
    requires forall i :: 0 <= i < |s| ==> s[i] != '['
    ensures DirectiveFree(k, s)
  {
    forall i, j, q | 0 <= i < |s| ensures !MatchesFrom(k, s, i, j, q) {
      assert s[i..][0] == s[i];
    }
  }

  /** The subject can hold neither `]` nor a newline, and has no whitespace at either end. */
  lemma SubjectShape(k: Kind, s: string)
    requires MatchAt(k, s).Some?
    ensures var t := Subject(s, MatchAt(k, s).value);
      (forall i :: 0 <= i < |t| ==> t[i] != ']' && t[i] != '\n')
      && (t != [] ==> !IsSpace(t[0]) && !IsSpace(t[|t| - 1]))
  {
    var m := MatchAt(k, s).value;
    MatchAtSound(k, s);
    var g := s[m.groupStart..m.close];
    StripShape(g);
    forall i | 0 <= i < |g| ensures g[i] != ']' && g[i] != '\n' {
      assert g[i] == s[m.groupStart + i];
    }
  }
}
