/**
 * The recipe agent: the kitchen state it keeps between turns, how a turn
 * replaces that state with what the extraction model returns, and how a
 * reply is generated and post-processed. The two language-model calls, the
 * JSON serialiser, the clock and the search service are oracles, passed in
 * as `Services`.
 */
module Agent {
  import opened Wrappers
  import opened BraceEscape
  import opened Directives
  import opened Enrichment

  /** One ingredient of the inventory. */
  datatype Ingredient = Ingredient(nome: string, quantita: string, infoScadenza: string, giorniResidui: int)

  const DefaultQuantita: string := "non specificata"
  const DefaultInfoScadenza: string := "Scadenza non nota"
  const DefaultGiorniResidui: int := 999

  /** An ingredient built from its name alone: every other field takes its default. */
  function NewIngredient(nome: string): Ingredient {
    Ingredient(nome, DefaultQuantita, DefaultInfoScadenza, DefaultGiorniResidui)
  }

  /** What the agent knows about the kitchen. */
  datatype KitchenState = KitchenState(
    ingredienti: seq<Ingredient>,
    preferenze: seq<string>,
    numeroPersone: int,
    infoSufficienti: bool)

  /** The state built with no arguments: nothing known yet. */
  const EmptyKitchenState: KitchenState := KitchenState([], [], 0, false)

  /** A chat message, from the user or from the assistant. */
  datatype Message = Human(content: string) | Ai(content: string)

  /** What the extraction call is given: today's date, the user's words and the state JSON as the prompt shows it. */
  datatype ExtractionRequest = ExtractionRequest(today: string, userInput: string, stateJson: string)

  /**
   * What the reply model is given: the state JSON and the head count as the
   * system prompt shows them, the earlier messages and the user's words.
   */
  datatype GenerationRequest = GenerationRequest(stateJson: string, numeroPersone: int, history: seq<Message>, userInput: string)

  /**
   * Everything outside the agent's own code: the date, `model_dump_json`,
   * the structured-output extractor (a new state or an exception), the reply
   * model (a text or an exception) and the search service.
   */
  datatype Services = Services(
    today: string,
    serialise: KitchenState -> string,
    extract: ExtractionRequest -> Outcome<KitchenState>,
    generate: GenerationRequest -> Outcome<string>,
    search: Search)

  /**
   * The extraction prompt is a plain formatted string, not a template, so
   * the extractor sees the state JSON with its braces still doubled.
   */
  function ExtractionFor(s: KitchenState, userInput: string, sv: Services): ExtractionRequest {
    ExtractionRequest(sv.today, userInput, Escape(sv.serialise(s)))
  }

  /** The state after `update_state`: what the extractor returned, or the old state if it raised. */
  function NextState(s: KitchenState, userInput: string, sv: Services): KitchenState {
    match sv.extract(ExtractionFor(s, userInput, sv))
    case Returned(t) => t
    case Raised => s
  }

  /**
   * The outcome of `get_response`: an exception from either model call
   * propagates; otherwise the generated text goes through the three
   * post-processing passes.
   */
  function Reply(s: KitchenState, userInput: string, history: seq<Message>, sv: Services): Outcome<string> {
    match sv.extract(ExtractionFor(s, userInput, sv))
    case Raised => Raised
    case Returned(t) =>
      match sv.generate(GenerationRequest(sv.serialise(t), t.numeroPersone, history, userInput))
      case Raised => Raised
      case Returned(raw) => Returned(Enrich(raw, sv.search).text)
  }

  class RecipeAgent {
    var state: KitchenState

    /** A new agent starts from the empty state. */
    constructor()
      ensures state == EmptyKitchenState
    {
      state := EmptyKitchenState;
    }

    /**
     * `update_state`: the state is replaced as a whole by what the extractor
     * returns; if the extractor raises, the exception propagates (reported
     * here as `ok == false`) and the state is left as it was.
     */
    method UpdateState(userInput: string, sv: Services) returns (ok: bool)
      modifies this
      ensures ok == sv.extract(ExtractionFor(old(state), userInput, sv)).Returned?
      ensures state == NextState(old(state), userInput, sv)
    {
      var extracted := sv.extract(ExtractionFor(state, userInput, sv));
      match extracted
      case Raised =>
        ok := false;
      case Returned(t) =>
        state := t;
        ok := true;
    }

    /**
     * `get_response`: update the state, show the reply model the new state
     * (the template turns the doubled braces back into single ones), then
     * rewrite image, video and link directives in that order, each pass
     * working on the text the previous one produced.
     */
    method GetResponse(userInput: string, history: seq<Message>, sv: Services) returns (reply: Outcome<string>)
      modifies this
      ensures state == NextState(old(state), userInput, sv)
      ensures reply == Reply(old(state), userInput, history, sv)
    {
      var ok := UpdateState(userInput, sv);
      if !ok {
        return Raised;
      }
      var json := sv.serialise(state);
      RenderEscape(json);
      var shown := RenderLiteral(Escape(json)).value;
      var generated := sv.generate(GenerationRequest(shown, state.numeroPersone, history, userInput));
      if generated.Raised? {
        return Raised;
      }
      var res := PostProcess(generated.value, sv.search);
      reply := Returned(res);
    }
  }

  /**
   * The post-processing at the end of `get_response`: the text is passed
   * through the image, video and link substitutions in turn, and the video
   * and link searches are numbered in the order they are made.
   */
  method PostProcess(raw: string, search: Search) returns (res: string)
    ensures res == Enrich(raw, search).text
  {
    res := ApplyPasses(raw, PassesWith(search));
  }

  /** The three substitutions in turn, with `pass` standing for one `re.sub` call. */
  method ApplyPasses(raw: string, pass: PassFn) returns (res: string)
    ensures res == ThreePasses(raw, pass).text
  {
    res := raw;
    var img := pass(Img, res, 0);
    res := img.text;
    var video := pass(Video, res, |img.queries|);
    res := video.text;
    var link := pass(Link, res, |img.queries| + |video.queries|);
    res := link.text;
  }

  // ---------------------------------------------------------------------------
  // Properties
  // ---------------------------------------------------------------------------

  /**
   * A reply exists exactly when both model calls return; the search never
   * makes a turn fail.
   */
  lemma ReplyIffBothCallsReturn(s: KitchenState, userInput: string, history: seq<Message>, sv: Services)
    ensures Reply(s, userInput, history, sv).Returned?
      <==> (sv.extract(ExtractionFor(s, userInput, sv)).Returned?
        && sv.generate(GenerationRequest(sv.serialise(NextState(s, userInput, sv)),
             NextState(s, userInput, sv).numeroPersone, history, userInput)).Returned?)
  {
  }

  /** When the extractor raises, the turn fails and the state is kept. */
  lemma FailedExtractionKeepsState(s: KitchenState, userInput: string, history: seq<Message>, sv: Services)
    requires sv.extract(ExtractionFor(s, userInput, sv)).Raised?
    ensures NextState(s, userInput, sv) == s && Reply(s, userInput, history, sv).Raised?
  {
  }

  /** The extractor sees doubled braces, which the template syntax reads back as the state JSON exactly. */
  lemma ExtractionShowsEscapedState(s: KitchenState, userInput: string, sv: Services)
    ensures RenderLiteral(ExtractionFor(s, userInput, sv).stateJson) == Some(sv.serialise(s))
  {
    RenderEscape(sv.serialise(s));
  }

  /** A generated text holding no `[`, such as a clarifying question, is the reply as it is. */
  lemma PlainTextReply(s: KitchenState, userInput: string, history: seq<Message>, sv: Services, raw: string)
    requires sv.extract(ExtractionFor(s, userInput, sv)).Returned?
    requires var t := NextState(s, userInput, sv);
      sv.generate(GenerationRequest(sv.serialise(t), t.numeroPersone, history, userInput)) == Returned(raw)
    requires forall i :: 0 <= i < |raw| ==> raw[i] != '['
    ensures Reply(s, userInput, history, sv) == Returned(raw)
  {
    EnrichWithoutBrackets(raw, sv.search);
  }
}
