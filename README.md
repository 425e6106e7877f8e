# Agente_Cucia in Dafny

Agente_Cucia is a Streamlit chat app, "AI Chef". The user lists what is in the kitchen. A language model
keeps a structured kitchen state (ingredients, preferences, head count, whether enough is known) and
proposes recipes. Almost every decision is left to the model. This project models the deterministic code
around it and proves what that code guarantees.

- **Kitchen state and agent** (`agent.dfy`, module `Agent`).
  - The `Ingredient` and `KitchenState` records with their defaults.
  - The `RecipeAgent` class: its `state` field, `update_state` and `get_response`.
  - The extraction model, the reply model, the JSON serialiser, today's date and the web search are
    oracles. They are grouped in `Services`, and each call either returns or raises (`Outcome`).
- **Brace escaping** (`escape.dfy`, module `BraceEscape`).
  - `.replace("{", "{{").replace("}", "}}")` on the state JSON.
  - The rendering of template literal text, which reads `{{` and `}}` back as single braces.
- **Post-processing of the reply** (`directives.dfy`, `enrichment.dfy`).
  - The three `re.sub` passes over the generated text, in order: `[IMG: …]`, `[VIDEO: …]`, `[LINK: …]`.
  - Matching (`Directives`) is the pattern `\[TAG:\s*(.*?)\]` with `re.IGNORECASE`. It is modelled as a
    regular-language predicate (`PatternMatches`) and as the matcher (`MatchAt`), and each is proved to
    agree with the other.
  - Replacement (`Enrichment`): `re.sub` is split into a scan into pieces (`Scan`) and a left-to-right
    rendering that calls the callback once per directive (`Render`).
  - Video and link callbacks call the search wrapper `_tavily_search`. Searches are numbered in the order
    they are made within one response.
- **Python library behaviour the passes rely on** (`text.dfy`, `quote.dfy`, `seqs.dfy`).
  - `str.isspace`, which is the same class as `\s`.
  - `str.strip()` and the `in` substring test.
  - `urllib.parse.quote` with its default safe set `/`, over UTF-8 bytes, with a strict inverse `Unquote`.
- **The chat page** (`main.dfy`, module `ChatApp`).
  - The colour given to an ingredient's expiry note: error, warning or success.
  - The session store (`Session`), which creates the agent and the transcript only when absent. One chat
    turn appends the user message, passes the earlier messages as history and appends the reply.

Facts about the code that the model follows:

- The image subject is the stripped group, percent-encoded as it is.
- The search for a video or link gets the stripped subject alone.
- An exception from either model call propagates out of `get_response`, and the chat page does not
  catch it. So the transcript then keeps the user message without a reply.
- If the extractor raises, the state is unchanged. If the reply model raises, the state has already been
  replaced by the extraction result.
- The extraction prompt is a plain f-string handed to the model. The extractor therefore sees the state
  JSON with its braces still doubled (`ExtractionFor`). The reply model's system prompt goes through
  `ChatPromptTemplate`, so it sees them single again (`GetResponse`, `RenderEscape`).

## Model

| member | source | states |
|---|---|---|
| Enrichment.TavilySearch | app/agent.py:33-38 | the wrapper never raises: it gives the first result's URL when there is one, and `#` when the list is empty or the call raised |
| Directives.SkipSpaceSpec | app/agent.py:103 | the `\s*` of the pattern stops at the first non-whitespace character, having passed only whitespace (newlines included) |
| Directives.FindCloseSpec | app/agent.py:103 | the lazy `(.*?)\]` ends at the first `]` reachable without crossing a newline, and fails when there is none |
| Directives.MatchAtSound | app/agent.py:103 | every match the matcher reports satisfies the pattern, and its group does not start with whitespace |
| Directives.MatchAtComplete | app/agent.py:103 | whenever the pattern matches at a position, the matcher finds a match there, closing at the same `]` |
| Directives.MatchAtSubject | app/agent.py:100-111 | however a match splits whitespace between `\s*` and the group, the stripped subject is the same |
| Directives.SubjectShape | app/agent.py:101 | the stripped subject holds no `]` and no newline, and has no whitespace at either end |
| Directives.NoBracketNoDirective | app/agent.py:103 | a text without `[` contains no directive of any kind |
| Text.TrimLeftSpec | app/agent.py:101 | the left trim drops exactly the leading whitespace and keeps a suffix that starts with a non-space |
| Text.TrimRightSpec | app/agent.py:101 | the right trim drops exactly the trailing whitespace and keeps a prefix that ends with a non-space |
| Text.StripIsTheTrimmedSlice | app/agent.py:101 | `strip()` is the unique slice with whitespace-only margins that starts and ends with a non-space |
| Text.StripIdempotent | app/agent.py:101 | stripping twice is stripping once |
| Text.StripShape | app/agent.py:101 | what `strip()` keeps comes from the text and neither starts nor ends with whitespace |
| Text.StripSkipsLeadingSpace | app/agent.py:101 | whitespace in front of a text does not change its strip |
| Text.ContainsIff | app/main.py:22-24 | the `in` scan is true exactly when the pattern occurs at some index of the text |
| Text.MissingCharNotContained | app/main.py:22-24 | a text lacking one character of the pattern does not contain it |
| UrlQuote.QuoteBytesAlphabet | app/agent.py:101 | every character of an encoding is `%`, an unreserved ASCII character, a hex digit or `/` |
| UrlQuote.QuoteHasNoDelimiters | app/agent.py:101-102 | the encoded subject has no space, bracket, parenthesis or newline, so it cannot break the Markdown image |
| UrlQuote.UnpercentQuoteBytes | app/agent.py:101 | decoding the percent escapes of the encoding gives back the bytes |
| UrlQuote.DecodeUtf8Char | app/agent.py:101 | the UTF-8 bytes of one character decode to that character, whatever follows |
| UrlQuote.DecodeEncodeUtf8 | app/agent.py:101 | decoding the UTF-8 encoding of a string gives back the string |
| UrlQuote.UnquoteQuote | app/agent.py:101 | the encoded subject decodes to the stripped subject it came from |
| UrlQuote.QuoteInjective | app/agent.py:101-102 | different subjects give different image URLs |
| UrlQuote.QuoteKeepsSafeText | app/agent.py:101 | a subject made only of ASCII letters, digits, `_.-~` and `/` is kept as it is |
| UrlQuote.QuoteAppend | app/agent.py:101 | encoding works character by character |
| UrlQuote.QuoteUnsafeAscii | app/agent.py:101 | an ASCII character outside the safe set becomes `%` and its two upper-case hex digits |
| UrlQuote.QuoteSpace | app/agent.py:101 | the space becomes `%20` |
| UrlQuote.QuoteSpaceBetween | app/agent.py:101 | a space between two safe words becomes `%20` and the words are kept |
| UrlQuote.QuoteUtf8Example | app/agent.py:101 | a non-ASCII letter (e grave) becomes `%C3%A8` |
| Enrichment.PassMatch | app/agent.py:100-113 | where a match starts, the pass emits that directive's fragment and continues after its `]` |
| Enrichment.PassNoMatch | app/agent.py:103 | where no match starts, the pass copies one character and continues after it |
| Enrichment.RenderAppend | app/agent.py:103 | the replacing half of `re.sub` works piece by piece, with the search count carried on |
| Enrichment.RenderPlains | app/agent.py:103 | copied characters are output unchanged, with no search |
| Enrichment.RenderQueries | app/agent.py:105-113 | a pass searches once per video or link directive, for its stripped subject and in text order, and never for images |
| Enrichment.RenderImgIgnoresSearch | app/agent.py:100-103 | the image callback's output does not depend on the search service |
| Enrichment.RenderUsesOnlyItsCalls | app/agent.py:105-113 | a video or link render depends on the search only through its calls, each resolved on its own |
| Enrichment.DirectiveFreeNoMatch | app/agent.py:103 | in a text with no occurrence of the pattern, the matcher finds nothing |
| Enrichment.ScanDirectiveFree | app/agent.py:103 | a text with no occurrence of the pattern is scanned as plain characters |
| Enrichment.ScanCopiesPrefix | app/agent.py:103 | text before the first match is copied, then scanning goes on from there |
| Enrichment.ScanSingleDirective | app/agent.py:100-103 | a text that is one directive scans to one directive piece whose subject is the stripped group |
| Enrichment.ScanDirectiveWithHead | app/agent.py:103 | the same holds for a head with the tag in any case accepted by `re.IGNORECASE` |
| Enrichment.PassQueries | app/agent.py:103-113 | the searches of a pass are exactly the stripped video or link subjects in text order, and none for images |
| Enrichment.ImgPassIgnoresSearch | app/agent.py:100-103 | the image pass makes no lookup: its output is the same for any search service |
| Enrichment.PassUsesOnlyItsCalls | app/agent.py:100-113 | a pass depends on the search only through the calls it makes |
| Enrichment.PassIdentity | app/agent.py:103-113 | a pass over text with no occurrence of its pattern returns the text unchanged and searches nothing |
| Enrichment.PassCopiesPrefix | app/agent.py:103-113 | text before the first directive comes out unchanged in front of the rest of the pass |
| Enrichment.SingleDirective | app/agent.py:100-113 | one directive becomes exactly its fragment: the image fragment around `quote(subject)`, or the video or link fragment around the search result |
| Enrichment.FailedSearchKeepsFragment | app/agent.py:105-113 | when the search fails or finds nothing, a video or link directive still becomes its full fragment, with `#` as URL |
| Enrichment.ThreePassesUsesOnlyItsCalls | app/agent.py:99-115 | passes that each depend on the search only through their calls still do so when run in sequence |
| Enrichment.EnrichSearchOrder | app/agent.py:103-113 | the searches of a response are the video subjects and then the link subjects: all video searches come before any link search |
| Enrichment.EnrichUsesOnlyItsCalls | app/agent.py:98-115 | the post-processed text depends on the search only through the listed calls, made left to right |
| Enrichment.EnrichIdentity | app/agent.py:98-115 | post-processing is the identity on text with no directive of any kind, and makes no search |
| Enrichment.EnrichWithoutBrackets | app/agent.py:98-115 | a reply without `[`, such as a clarifying question, is returned as it is |
| BraceEscape.DoubleLength | app/agent.py:42 | doubling one character lengthens the text by one per occurrence |
| BraceEscape.DoubleAppend | app/agent.py:42 | doubling works piece by piece |
| BraceEscape.CountAppend | app/agent.py:42 | counting works piece by piece |
| BraceEscape.EscapeCons | app/agent.py:42 | escaping works character by character: `{` becomes `{{`, `}` becomes `}}`, and everything else is kept |
| BraceEscape.CountAfterDouble | app/agent.py:42 | doubling `{` creates no `}`, so the second replace doubles exactly the original closing braces |
| BraceEscape.EscapeLength | app/agent.py:42 | the escaped text is the input plus one character per brace |
| BraceEscape.RenderEscape | app/agent.py:69-93 | rendering the escaped text as template literal text gives back the input exactly |
| BraceEscape.EscapeInjective | app/agent.py:42 | different states never give the same escaped text |
| Agent.RecipeAgent.constructor | app/agent.py:27-31 | a new agent starts from the empty state: no ingredients, no preferences, no diners, not sufficient |
| Agent.RecipeAgent.UpdateState | app/agent.py:40-65 | the state is replaced as a whole by what the extractor returns, and is left as it was if the extractor raises |
| Agent.RecipeAgent.GetResponse | app/agent.py:67-115 | the state is updated first; the reply is the post-processed generation, or the exception of either model call |
| Agent.PostProcess | app/agent.py:98-115 | the three substitutions in turn give the text the post-processing specifies |
| Agent.ApplyPasses | app/agent.py:99-113 | threading `res` through three passes, with the search count carried on, gives the three passes in sequence |
| Agent.ReplyIffBothCallsReturn | app/agent.py:67-115 | a turn yields a reply exactly when both model calls return; the search never makes it fail |
| Agent.FailedExtractionKeepsState | app/agent.py:64-68 | when the extractor raises, the turn fails and the state is kept |
| Agent.ExtractionShowsEscapedState | app/agent.py:42-65 | the extractor is shown the state JSON with doubled braces, which template rendering would turn back into the JSON exactly |
| Agent.PlainTextReply | app/agent.py:96-115 | a generated text with no `[` is the reply unchanged |
| ChatApp.ClassifyExpirySpec | app/main.py:22-27 | error exactly when "Scaduto" occurs; warning exactly when it does not but "Scade oggi" or "1 giorni" does; success exactly when none occurs |
| ChatApp.ExpiredWins | app/main.py:22-23 | a note containing "Scaduto" is an error whatever surrounds it |
| ChatApp.ElevenDaysIsWarning | app/main.py:24-25 | the test is a plain substring test, so "Scade tra 11 giorni" is a warning too |
| ChatApp.LowerCaseExpiredIsSuccess | app/main.py:22 | the test is case-sensitive: "scaduto" alone is not an error |
| ChatApp.UnknownExpiryIsSuccess | app/main.py:26-27 | the default note "Scadenza non nota" is shown as success |
| ChatApp.Session.Init | app/main.py:10-13 | the agent and the transcript are created only when absent, so a rerun keeps both |
| ChatApp.Session.Turn | app/main.py:36-44 | the user message is appended first, and the agent gets the earlier messages as history. After a reply the transcript has grown by exactly the user and assistant messages; after an exception, by the user message alone |
| ChatApp.Session.Rerun | app/main.py:10-45 | one run of the page script: set up the store if needed, then handle the submitted message, if any, with the agent kept from earlier runs (a new one starts empty); with no message the transcript and the agent's state stay as they were |

## Left out

- The language-model calls (`ChatGroq`, `with_structured_output`, `chain.invoke`) are oracles in `Services`. What they return is arbitrary, so `info_sufficienti`, `giorni_residui`, the expiry notes and the head count carry no invariant.
- The prompt texts are not modelled. Only the escaped state JSON, the head count, the history and the user's words are passed to the oracles.
- `model_dump_json` is the oracle `serialise`. `date.today()` is the parameter `today`.
- The Tavily client, the API key and the construction of the model and search objects are not modelled. One search call is the oracle `Search`, numbered by its position among the calls of one response. Two directives with the same subject may get different answers.
- The Streamlit rendering, `st.set_page_config`, `.env` loading, the sidebar layout and the display of the transcript are not modelled. Of the sidebar, only the expiry classification is modelled. `st.rerun()` ends a run, which is modelled as the end of `Rerun`.
- `RecipeAgent.constructor`: the API key and the client objects are not modelled.
- The default ingredient (`NewIngredient`) and the empty state are plain values. Their defaults are not a promise about what the extractor returns.
- `Directives.FoldsTo`: `re.IGNORECASE` is modelled for the letters of the three tags only. It includes Python's extra folds for `I` (U+0130, U+0131) and for `K` (the Kelvin sign). No other letters occur in the patterns.
- `Unquote`: Python's lenient `unquote` is replaced by a strict decoder. The two agree on every string `quote` produces, and that is all the round trip needs.
- Strings are sequences of Unicode scalar values. A Python `str` can also hold lone surrogates, on which `quote` raises `UnicodeEncodeError` from the image callback; that exception is not modelled, so in the model post-processing never fails.
- `ChatApp.Session.Turn`: a raised exception is returned as `Raised` rather than ending the script run.
- `utils/setup_check.py`, `test_key.py` and `tests/test_agent.py` are not part of this model. They are connectivity checks against live services, and a test whose outcome depends on the model's answer.
