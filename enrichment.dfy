/**
 * The post-processing of the generated recipe text: three `re.sub` passes
 * that replace image, video and link directives with Markdown fragments.
 * Image URLs are built by percent-encoding the subject; video and link URLs
 * come from a web search, which is an oracle here.
 */
module Enrichment {
  import opened Wrappers
  import opened Text
  import opened UrlQuote
  import opened Directives

  /** What one call of the search tool gives: it raises, or it returns a (possibly empty) list of result URLs. */
  datatype SearchOutcome = Failed | Found(urls: seq<string>)

  /**
   * The search service, asked once per video or link directive. The first
   * argument numbers the calls of one response in the order they are made,
   * so two directives with the same subject may get different answers.
   */
  type Search = (nat, string) -> SearchOutcome

  const Placeholder: string := "#"

  /**
   * `_tavily_search`: the first result's URL, and the placeholder `#` when
   * there is no result or the call raises (an exception raised while reading
   * a malformed result is caught by the same handler, and counts as
   * `Failed`). It never raises itself.
   */
  function TavilySearch(o: SearchOutcome): (u: string)
    ensures o.Found? && o.urls != [] ==> u == o.urls[0]
    ensures o.Failed? || o.urls == [] ==> u == Placeholder
  {
    match o
    case Found(urls) => if urls != [] then urls[0] else Placeholder
    case Failed => Placeholder
  }

  const ImgPrefix: string := "\n\n![Ricetta](https://pollinations.ai/p/"
  const ImgSuffix: string := "?width=600&height=400&nologo=true)\n"
  /** U+25B6 followed by the emoji-style selector U+FE0F: the "play" button emoji. */
  const PlayButton: char := '\U{25B6}'
  const EmojiStyle: char := '\U{FE0F}'
  /** U+1F4D6, the "open book" emoji. */
  const OpenBook: char := '\U{1F4D6}'
  const VideoPrefix: string := "\n\n[" + [PlayButton, EmojiStyle] + " Video-Ricetta su YouTube]("
  const LinkPrefix: string := "\n[" + [OpenBook] + " Ricetta dettagliata online]("
  const LinkSuffix: string := ")\n"

  /** The Markdown image that replaces an image directive, given the encoded subject. */
  function ImgFragment(encoded: string): string {
    ImgPrefix + encoded + ImgSuffix
  }

  function VideoFragment(url: string): string {
    VideoPrefix + url + LinkSuffix
  }

  function LinkFragment(url: string): string {
    LinkPrefix + url + LinkSuffix
  }

  /** The text a pass produces and the search queries it issued, in order. */
  datatype PassResult = PassResult(text: string, queries: seq<string>)

  function Join(a: PassResult, b: PassResult): PassResult {
    PassResult(a.text + b.text, a.queries + b.queries)
  }

  lemma JoinAssociative(a: PassResult, b: PassResult, c: PassResult)
    ensures Join(a, Join(b, c)) == Join(Join(a, b), c)
    ensures |Join(a, b).queries| == |a.queries| + |b.queries|
  {
    assert a.text + (b.text + c.text) == (a.text + b.text) + c.text;
    assert a.queries + (b.queries + c.queries) == (a.queries + b.queries) + c.queries;
  }

  /**
   * What one directive with the given (stripped) subject becomes; `n` is the
   * number of the search call it makes, if any. An image directive makes
   * none.
   */
  function Replace(k: Kind, subject: string, search: Search, n: nat): PassResult {
    match k
    case Img => PassResult(ImgFragment(Quote(subject)), [])
    case Video => PassResult(VideoFragment(TavilySearch(search(n, subject))), [subject])
    case Link => PassResult(LinkFragment(TavilySearch(search(n, subject))), [subject])
  }

  /** A text as `re.sub` sees it: characters it copies and directives it hands to the callback. */
  datatype Piece = Plain(c: char) | Directive(subject: string)

  /**
   * The matching half of `re.sub(pattern, callback, s, flags=re.IGNORECASE)`:
   * scanning left to right, a match becomes a directive (with its group
   * stripped, as each callback does first) and scanning resumes after its
   * closing bracket; a position where nothing matches is copied.
   */
  function Scan(k: Kind, s: string): seq<Piece>
    decreases |s|
  {
    if s == [] then []
    else match MatchAt(k, s)
      case Some(m) => [Directive(Subject(s, m))] + Scan(k, s[m.close + 1..])
      case None => [Plain(s[0])] + Scan(k, s[1..])
  }

  /** The pieces of a text in which nothing matches. */
  function Plains(s: string): seq<Piece> {
    if s == [] then [] else [Plain(s[0])] + Plains(s[1..])
  }

  /**
   * A `re.sub` callback: given the stripped group of a match and the number
   * of searches made so far in this response, the replacement text and the
   * searches it made.
   */
  type Callback = (string, nat) -> PassResult

  /** The callbacks `fix_img`, `fix_video` and `fix_link`. */
  function Fix(k: Kind, search: Search): Callback {
    (subject: string, n: nat) => Replace(k, subject, search, n)
  }

  /**
   * The replacing half of `re.sub`: the callback is called on each directive
   * in turn, with the count of searches made before it, and copied
   * characters are kept.
   */
  function Render(ps: seq<Piece>, cb: Callback, n: nat): PassResult
    decreases |ps|
  {
    if ps == [] then PassResult([], [])
    else
      var r := Emit(ps[0], cb, n);
      Join(r, Render(ps[1..], cb, n + |r.queries|))
  }

  /** A copied character, or the callback's result for a directive. */
  function Emit(p: Piece, cb: Callback, n: nat): PassResult {
    match p
    case Plain(c) => PassResult([c], [])
    case Directive(t) => cb(t, n)
  }

  /** One `re.sub` pass with the callback for `k`; the searches it makes are numbered from `n`. */
  function Pass(k: Kind, s: string, search: Search, n: nat): PassResult {
    Render(Scan(k, s), Fix(k, search), n)
  }

  /** The subjects of the directives among `ps`, in order. */
  function SubjectsOf(ps: seq<Piece>): seq<string> {
    if ps == [] then []
    else (if ps[0].Directive? then [ps[0].subject] else []) + SubjectsOf(ps[1..])
  }

  /** The stripped subjects of the directives of kind `k` in `s`, left to right. */
  function Subjects(k: Kind, s: string): seq<string> {
    SubjectsOf(Scan(k, s))
  }

  // ---------------------------------------------------------------------------
  // One step of a pass
  // ---------------------------------------------------------------------------

  /** Where a match starts, the pass emits the directive's fragment and goes on after the closing bracket. */
  lemma PassMatch(k: Kind, s: string, search: Search, n: nat)
    requires MatchAt(k, s).Some?
    ensures var m := MatchAt(k, s).value;
      var r := Replace(k, Subject(s, m), search, n);
      Pass(k, s, search, n) == Join(r, Pass(k, s[m.close + 1..], search, n + |r.queries|))
  {
    var m := MatchAt(k, s).value;
    var ps := Scan(k, s);
    assert ps[0] == Directive(Subject(s, m)) && ps[1..] == Scan(k, s[m.close + 1..]);
  }

  /** Where no match starts, the pass copies one character and goes on after it. */
  lemma PassNoMatch(k: Kind, s: string, search: Search, n: nat)
    requires s != [] && MatchAt(k, s).None?
    ensures Pass(k, s, search, n) == Join(PassResult([s[0]], []), Pass(k, s[1..], search, n))
  {
    var ps := Scan(k, s);
    assert ps[0] == Plain(s[0]) && ps[1..] == Scan(k, s[1..]);
  }

  /** A pass of the given kind over a text, numbering its searches from the given count. */
  type PassFn = (Kind, string, nat) -> PassResult

  /** The passes that use the given search service. */
  function PassesWith(search: Search): PassFn {
    (k: Kind, s: string, n: nat) => Pass(k, s, search, n)
  }

  /**
   * The image, video and link passes one after the other, each run on the
   * text the previous one produced; the searches are numbered on from one
   * pass to the next.
   */
  function ThreePasses(raw: string, pass: PassFn): PassResult {
    var img := pass(Img, raw, 0);
    var video := pass(Video, img.text, |img.queries|);
    var link := pass(Link, video.text, |img.queries| + |video.queries|);
    PassResult(link.text, img.queries + video.queries + link.queries)
  }

  /** The post-processing of one response: the final text and every search query, in call order. */
  function Enrich(raw: string, search: Search): PassResult {
    ThreePasses(raw, PassesWith(search))
  }

  /** `f` and `g` answer alike the calls `n`, `n + 1`, ... made with the queries `qs`. */
  ghost predicate Agree(f: Search, g: Search, n: nat, qs: seq<string>) {
    forall i :: 0 <= i < |qs| ==> f(n + i, qs[i]) == g(n + i, qs[i])
  }

  // ---------------------------------------------------------------------------
  // Properties of the replacing half
  // ---------------------------------------------------------------------------

  /** Rendering works piece by piece: the search count carries over from the first part to the second. */
  lemma {:induction false} RenderAppend(a: seq<Piece>, b: seq<Piece>, cb: Callback, n: nat)
    ensures var ra := Render(a, cb, n);
      Render(a + b, cb, n) == Join(ra, Render(b, cb, n + |ra.queries|))
    decreases |a|
  {
    if a == [] {
      assert a + b == b;
    } else {
      var r := Emit(a[0], cb, n);
      var m := n + |r.queries|;
      var x := Render(a[1..], cb, m);
      var y := Render(b, cb, m + |x.queries|);
      assert (a + b)[0] == a[0] && (a + b)[1..] == a[1..] + b;
      calc {
        Render(a + b, cb, n);
        Join(r, Render(a[1..] + b, cb, m));
        { RenderAppend(a[1..], b, cb, m); }
        Join(r, Join(x, y));
        { JoinAssociative(r, x, y); }
        Join(Join(r, x), y);
      }
    }
  }

  /** Copied characters come out as they are, with no search. */
  lemma {:induction false} RenderPlains(s: string, cb: Callback, n: nat)
    ensures Render(Plains(s), cb, n) == PassResult(s, [])
  {
    if s != [] {
      var ps := Plains(s);
      assert ps[0] == Plain(s[0]) && ps[1..] == Plains(s[1..]);
      RenderPlains(s[1..], cb, n);
      assert [s[0]] + s[1..] == s;
    }
  }

  /**
   * The searches a pass makes are one per video or link directive, with the
   * stripped subjects in text order, and none for image directives.
   */
  lemma RenderQueries(k: Kind, ps: seq<Piece>, search: Search, n: nat)
    ensures Render(ps, Fix(k, search), n).queries == if k == Img then [] else SubjectsOf(ps)
  {
    if k == Img {
      RenderWithoutQueries(ps, Fix(k, search), n);
    } else {
      RenderQueriesOneEach(ps, Fix(k, search), n);
    }
  }

  /** A callback that searches for nothing makes a render that searches for nothing. */
  lemma {:induction false} RenderWithoutQueries(ps: seq<Piece>, cb: Callback, n: nat)
    requires forall t, m :: cb(t, m).queries == []
    ensures Render(ps, cb, n).queries == []
  {
    if ps != [] {
      RenderWithoutQueries(ps[1..], cb, n + |Emit(ps[0], cb, n).queries|);
    }
  }

  /** A callback that searches once for its subject makes a render that searches for each subject in turn. */
  lemma {:induction false} RenderQueriesOneEach(ps: seq<Piece>, cb: Callback, n: nat)
    requires forall t, m :: cb(t, m).queries == [t]
    ensures Render(ps, cb, n).queries == SubjectsOf(ps)
  {
    if ps != [] {
      RenderQueriesOneEach(ps[1..], cb, n + |Emit(ps[0], cb, n).queries|);
    }
  }

  /** The image callback makes no lookup: its result is the same whatever the search service would answer. */
  lemma {:induction false} RenderImgIgnoresSearch(ps: seq<Piece>, f: Search, g: Search, n: nat)
    ensures Render(ps, Fix(Img, f), n) == Render(ps, Fix(Img, g), n)
  {
    if ps != [] {
      if ps[0].Directive? {
        assert Fix(Img, f)(ps[0].subject, n) == Fix(Img, g)(ps[0].subject, n);
      }
      RenderImgIgnoresSearch(ps[1..], f, g, n);
    }
  }

  /**
   * The output depends on the search only through the calls it makes: call
   * `n + i` with the `i`-th subject. So lookups are made left to right, one
   * per directive, each resolved on its own.
   */
  lemma RenderUsesOnlyItsCalls(k: Kind, ps: seq<Piece>, f: Search, g: Search, n: nat)
    requires k != Img
    requires forall i :: 0 <= i < |SubjectsOf(ps)| ==> f(n + i, SubjectsOf(ps)[i]) == g(n + i, SubjectsOf(ps)[i])
    ensures Render(ps, Fix(k, f), n) == Render(ps, Fix(k, g), n)
  {
    RenderSameCalls(ps, Fix(k, f), Fix(k, g), n);
  }

  /**
   * Two callbacks that search once for their subject, and agree on the
   * calls a render makes with the first, give the same render.
   */
  lemma {:induction false} RenderSameCalls(ps: seq<Piece>, c1: Callback, c2: Callback, n: nat)
    requires forall t, m :: c1(t, m).queries == [t]
    requires forall i :: 0 <= i < |SubjectsOf(ps)| ==> c1(SubjectsOf(ps)[i], n + i) == c2(SubjectsOf(ps)[i], n + i)
    ensures Render(ps, c1, n) == Render(ps, c2, n)
  {
    if ps != [] {
      var subjects := SubjectsOf(ps);
      var later := SubjectsOf(ps[1..]);
      if ps[0].Directive? {
        assert subjects == [ps[0].subject] + later;
        assert c1(subjects[0], n + 0) == c2(subjects[0], n + 0);
        forall i | 0 <= i < |later| ensures c1(later[i], n + 1 + i) == c2(later[i], n + 1 + i) {
          assert later[i] == subjects[i + 1];
        }
        RenderSameCalls(ps[1..], c1, c2, n + 1);
      } else {
        assert subjects == later;
        RenderSameCalls(ps[1..], c1, c2, n);
      }
    }
  }

  // ---------------------------------------------------------------------------
  // Properties of the matching half
  // ---------------------------------------------------------------------------

  /** Where no occurrence of the pattern starts, the matcher reports none. */
  lemma DirectiveFreeNoMatch(k: Kind, s: string)
    requires DirectiveFree(k, s) && s != []
    ensures MatchAt(k, s).None?
  {
    assert s[0..] == s;
    if MatchAt(k, s).Some? {
      MatchAtSound(k, s);
      var m := MatchAt(k, s).value;
      assert MatchesFrom(k, s, 0, m.groupStart, m.close);
    }
  }

  /** A text with no occurrence of the pattern is copied character by character. */
  lemma {:induction false} ScanDirectiveFree(k: Kind, s: string)
    requires DirectiveFree(k, s)
    ensures Scan(k, s) == Plains(s)
    decreases |s|
  {
    if s != [] {
      DirectiveFreeNoMatch(k, s);
      forall i, j, q | 0 <= i < |s[1..]| ensures !MatchesFrom(k, s[1..], i, j, q) {
        assert s[1..][i..] == s[i + 1..];
        assert !MatchesFrom(k, s, i + 1, j, q);
      }
      ScanDirectiveFree(k, s[1..]);
    }
  }

  /**
   * Text before the first match is copied unchanged: if no match starts
   * inside `u`, scanning `u + v` copies `u` and then scans `v`.
   */
  lemma {:induction false} ScanCopiesPrefix(k: Kind, u: string, v: string)
    requires forall i :: 0 <= i < |u| ==> MatchAt(k, (u + v)[i..]).None?
    ensures Scan(k, u + v) == Plains(u) + Scan(k, v)
    decreases |u|
  {
    if u == [] {
      assert u + v == v;
    } else {
      var s := u + v;
      assert s[0..] == s && s[0] == u[0];
      assert s[1..] == u[1..] + v;
      forall i | 0 <= i < |u[1..]| ensures MatchAt(k, (u[1..] + v)[i..]).None? {
        assert (u[1..] + v)[i..] == s[i + 1..];
      }
      ScanCopiesPrefix(k, u[1..], v);
    }
  }

  /**
   * A text that is exactly one directive, written with the tag in upper
   * case, is one directive piece: `w` is the whitespace after the colon (it
   * may hold newlines) and `g` the rest, which holds no `]` and no newline.
   * The subject is `g` stripped.
   */
  lemma ScanSingleDirective(k: Kind, w: string, g: string)
    requires AllSpace(w)
    requires forall i :: 0 <= i < |g| ==> g[i] != ']' && g[i] != '\n'
    ensures Scan(k, "[" + Tag(k) + ":" + w + g + "]") == [Directive(Strip(g))]
  {
    TagHead(k);
    ScanDirectiveWithHead(k, "[" + Tag(k) + ":", w, g);
  }

  /** `[TAG:` with the tag in upper case is a head of the pattern. */
  lemma TagHead(k: Kind)
    ensures |"[" + Tag(k) + ":"| == HeadLen(k) && HeadMatches(k, "[" + Tag(k) + ":")
  {
    var head := "[" + Tag(k) + ":";
    assert head[1..HeadLen(k) - 1] == Tag(k);
  }

  /** A text that is one directive, whatever the case of its head, is one directive piece. */
  lemma ScanDirectiveWithHead(k: Kind, head: string, w: string, g: string)
    requires |head| == HeadLen(k) && HeadMatches(k, head)
    requires AllSpace(w)
    requires forall i :: 0 <= i < |g| ==> g[i] != ']' && g[i] != '\n'
    ensures Scan(k, head + w + g + "]") == [Directive(Strip(g))]
  {
    var s := head + w + g + "]";
    DirectiveWithHeadMatches(k, head, w, g);
    MatchAtSubject(k, s, |head| + |w|, |s| - 1);
    assert s[|s|..] == [];
  }

  /** That text matches, with `w` as the whitespace and `g` as the group. */
  lemma DirectiveWithHeadMatches(k: Kind, head: string, w: string, g: string)
    requires |head| == HeadLen(k) && HeadMatches(k, head)
    requires AllSpace(w)
    requires forall i :: 0 <= i < |g| ==> g[i] != ']' && g[i] != '\n'
    ensures var s := head + w + g + "]";
      PatternMatches(k, s, |head| + |w|, |s| - 1) && s[|head| + |w|..|s| - 1] == g
  {
    var s := head + w + g + "]";
    var h := |head|;
    assert s[1..h - 1] == head[1..h - 1];
    assert s[h..h + |w|] == w;
    assert s[h + |w|..|s| - 1] == g;
    forall i | h + |w| <= i < |s| - 1 ensures s[i] != ']' && s[i] != '\n' {
      assert s[i] == g[i - h - |w|];
    }
  }

  // ---------------------------------------------------------------------------
  // Properties of one pass
  // ---------------------------------------------------------------------------

  /** A pass searches for the stripped subjects of its video or link directives, in text order, and for nothing else. */
  lemma PassQueries(k: Kind, s: string, search: Search, n: nat)
    ensures Pass(k, s, search, n).queries == if k == Img then [] else Subjects(k, s)
  {
    RenderQueries(k, Scan(k, s), search, n);
  }

  /** The image pass gives the same text whatever the search service would answer. */
  lemma ImgPassIgnoresSearch(s: string, f: Search, g: Search, n: nat)
    ensures Pass(Img, s, f, n) == Pass(Img, s, g, n)
  {
    RenderImgIgnoresSearch(Scan(Img, s), f, g, n);
  }

  /**
   * A pass depends on the search service only through the calls it makes:
   * call `n + i` with its `i`-th query (an image pass makes none).
   */
  lemma PassUsesOnlyItsCalls(k: Kind, s: string, f: Search, g: Search, n: nat)
    requires Agree(f, g, n, Pass(k, s, f, n).queries)
    ensures Pass(k, s, f, n) == Pass(k, s, g, n)
  {
    if k == Img {
      RenderImgIgnoresSearch(Scan(Img, s), f, g, n);
    } else {
      RenderQueries(k, Scan(k, s), f, n);
      RenderUsesOnlyItsCalls(k, Scan(k, s), f, g, n);
    }
  }

  /** A text with no occurrence of the pattern comes out of the pass unchanged, with no search made. */
  lemma PassIdentity(k: Kind, s: string, search: Search, n: nat)
    requires DirectiveFree(k, s)
    ensures Pass(k, s, search, n) == PassResult(s, [])
  {
    ScanDirectiveFree(k, s);
    RenderPlains(s, Fix(k, search), n);
  }

  /**
   * Everything before the first match is copied unchanged: the pass over
   * `u + v`, where no match starts in `u`, is `u` followed by the pass over
   * `v`.
   */
  lemma PassCopiesPrefix(k: Kind, u: string, v: string, search: Search, n: nat)
    requires forall i :: 0 <= i < |u| ==> MatchAt(k, (u + v)[i..]).None?
    ensures Pass(k, u + v, search, n) == Join(PassResult(u, []), Pass(k, v, search, n))
  {
    ScanCopiesPrefix(k, u, v);
    RenderAppend(Plains(u), Scan(k, v), Fix(k, search), n);
    RenderPlains(u, Fix(k, search), n);
  }

  /** A text that is exactly one directive becomes exactly its fragment. */
  lemma SingleDirective(k: Kind, w: string, g: string, search: Search, n: nat)
    requires AllSpace(w)
    requires forall i :: 0 <= i < |g| ==> g[i] != ']' && g[i] != '\n'
    ensures Pass(k, "[" + Tag(k) + ":" + w + g + "]", search, n) == Replace(k, Strip(g), search, n)
  {
    ScanSingleDirective(k, w, g);
    var r := Replace(k, Strip(g), search, n);
    assert Render([Directive(Strip(g))], Fix(k, search), n) == Join(r, Render([], Fix(k, search), n + |r.queries|));
    assert r.text + [] == r.text && r.queries + [] == r.queries;
  }

  /**
   * When the search for a video or link directive fails or finds nothing,
   * the directive still becomes its full fragment, with `#` as the URL.
   */
  lemma FailedSearchKeepsFragment(k: Kind, w: string, g: string, search: Search, n: nat)
    requires k != Img
    requires AllSpace(w)
    requires forall i :: 0 <= i < |g| ==> g[i] != ']' && g[i] != '\n'
    requires search(n, Strip(g)).Failed? || search(n, Strip(g)) == Found([])
    ensures Pass(k, "[" + Tag(k) + ":" + w + g + "]", search, n).text
         == (if k == Video then VideoFragment("#") else LinkFragment("#"))
  {
    SingleDirective(k, w, g, search, n);
  }

  // ---------------------------------------------------------------------------
  // Properties of the three passes together
  // ---------------------------------------------------------------------------

  /** Agreement on a run of calls is agreement on each part of it. */
  lemma AgreeSplit(f: Search, g: Search, n: nat, a: seq<string>, b: seq<string>)
    requires Agree(f, g, n, a + b)
    ensures Agree(f, g, n, a) && Agree(f, g, n + |a|, b)
  {
    forall i | 0 <= i < |a| ensures f(n + i, a[i]) == g(n + i, a[i]) {
      assert (a + b)[i] == a[i];
    }
    forall i | 0 <= i < |b| ensures f(n + |a| + i, b[i]) == g(n + |a| + i, b[i]) {
      assert (a + b)[|a| + i] == b[i];
    }
  }

  /** Passes that change nothing in `s` and search for nothing, run one after the other, change nothing. */
  lemma ThreePassesIdentity(s: string, pass: PassFn)
    requires forall k, m :: pass(k, s, m) == PassResult(s, [])
    ensures ThreePasses(s, pass) == PassResult(s, [])
  {
    var none: seq<string> := [];
    assert none + none + none == none;
  }

  /**
   * When each single pass depends on the search service only through the
   * calls it makes, so do the three passes run one after the other.
   */
  lemma ThreePassesUsesOnlyItsCalls(raw: string, p: PassFn, q: PassFn, f: Search, g: Search)
    requires forall k, t, m :: Agree(f, g, m, p(k, t, m).queries) ==> p(k, t, m) == q(k, t, m)
    requires Agree(f, g, 0, ThreePasses(raw, p).queries)
    ensures ThreePasses(raw, p) == ThreePasses(raw, q)
  {
    var img := p(Img, raw, 0);
    var video := p(Video, img.text, |img.queries|);
    var link := p(Link, video.text, |img.queries| + |video.queries|);
    AgreeSplit(f, g, 0, img.queries + video.queries, link.queries);
    AgreeSplit(f, g, 0, img.queries, video.queries);
  }

  /**
   * The image pass makes no search, and every video search is made before
   * any link search: the searches of a response are the video subjects of
   * the text after the image pass, then the link subjects of the text after
   * the video pass.
   */
  lemma EnrichSearchOrder(raw: string, search: Search)
    ensures var img := Pass(Img, raw, search, 0);
      var video := Pass(Video, img.text, search, 0);
      Enrich(raw, search).queries == Subjects(Video, img.text) + Subjects(Link, video.text)
  {
    var img := Pass(Img, raw, search, 0);
    PassQueries(Img, raw, search, 0);
    PassQueries(Video, img.text, search, 0);
    var video := Pass(Video, img.text, search, 0);
    PassQueries(Link, video.text, search, |video.queries|);
    assert [] + Subjects(Video, img.text) == Subjects(Video, img.text);
  }

  /**
   * The post-processed text depends on the search service only through the
   * calls listed in `queries`: call `i` is made with query `queries[i]`.
   */
  lemma EnrichUsesOnlyItsCalls(raw: string, f: Search, g: Search)
    requires Agree(f, g, 0, Enrich(raw, f).queries)
    ensures Enrich(raw, f) == Enrich(raw, g)
  {
    var p := PassesWith(f);
    var q := PassesWith(g);
    forall k, t, m | Agree(f, g, m, p(k, t, m).queries) ensures p(k, t, m) == q(k, t, m) {
      PassUsesOnlyItsCalls(k, t, f, g, m);
    }
    ThreePassesUsesOnlyItsCalls(raw, p, q, f, g);
  }

  /**
   * Post-processing is the identity on text that holds no directive of any
   * kind, and makes no search; in particular running it again on text whose
   * directives are all resolved changes nothing.
   */
  lemma EnrichIdentity(raw: string, search: Search)
    requires DirectiveFree(Img, raw) && DirectiveFree(Video, raw) && DirectiveFree(Link, raw)
    ensures Enrich(raw, search) == PassResult(raw, [])
  {
    PassesIdentity(raw, search);
    ThreePassesIdentity(raw, PassesWith(search));
  }

  /** Each pass is the identity on text that holds no directive of any kind. */
  lemma PassesIdentity(raw: string, search: Search)
    requires DirectiveFree(Img, raw) && DirectiveFree(Video, raw) && DirectiveFree(Link, raw)
    ensures forall k, m :: PassesWith(search)(k, raw, m) == PassResult(raw, [])
  {
    forall k, m ensures Pass(k, raw, search, m) == PassResult(raw, []) {
      PassIdentity(k, raw, search, m);
    }
  }

  /** Text without `[`, such as a clarifying question, is returned as it is. */
  lemma EnrichWithoutBrackets(raw: string, search: Search)
    requires forall i :: 0 <= i < |raw| ==> raw[i] != '['
    ensures Enrich(raw, search) == PassResult(raw, [])
  {
    NoBracketNoDirective(Img, raw);
    NoBracketNoDirective(Video, raw);
    NoBracketNoDirective(Link, raw);
    EnrichIdentity(raw, search);
  }
}
