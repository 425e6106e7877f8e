/**
 * The chat page's own logic: the colour given to an ingredient's expiry
 * note in the inventory, and the session store that keeps the agent and the
 * transcript across reruns of the page script. Rendering is not modelled.
 */
module ChatApp {
  import opened Wrappers
  import opened Text
  import opened Agent

  /** The three ways an expiry note is shown: as an error, a warning or a success box. */
  datatype Severity = Error | Warning | Success

  /**
   * Ordered, case-sensitive substring tests: "Scaduto" first, then
   * "Scade oggi" or "1 giorni", and anything else is fine.
   */
  function ClassifyExpiry(info: string): Severity {
    if Contains(info, "Scaduto") then Error
    else if Contains(info, "Scade oggi") || Contains(info, "1 giorni") then Warning
    else Success
  }

  /** `p` occurs somewhere in `s`. */
  ghost predicate Occurs(s: string, p: string) {
    exists i :: OccursAt(s, p, i)
  }

  // ---------------------------------------------------------------------------
  // Properties of the classifier
  // ---------------------------------------------------------------------------

  /**
   * The classes in terms of occurrences: error exactly when "Scaduto"
   * occurs, whatever else does; warning exactly when it does not but
   * "Scade oggi" or "1 giorni" does; success exactly when none occurs.
   */
  lemma ClassifyExpirySpec(info: string)
    ensures ClassifyExpiry(info) == Error <==> Occurs(info, "Scaduto")
    ensures ClassifyExpiry(info) == Warning
      <==> !Occurs(info, "Scaduto") && (Occurs(info, "Scade oggi") || Occurs(info, "1 giorni"))
    ensures ClassifyExpiry(info) == Success
      <==> !Occurs(info, "Scaduto") && !Occurs(info, "Scade oggi") && !Occurs(info, "1 giorni")
  {
    ContainsIff(info, "Scaduto");
    ContainsIff(info, "Scade oggi");
    ContainsIff(info, "1 giorni");
  }

  /** Text added around an expired note does not change its class. */
  lemma ExpiredWins(before: string, after: string)
    ensures ClassifyExpiry(before + "Scaduto" + after) == Error
  {
    var s := before + "Scaduto" + after;
    assert s[|before|..|before| + 7] == "Scaduto";
    assert OccursAt(s, "Scaduto", |before|);
    ClassifyExpirySpec(s);
  }

  /** The test is a plain substring test: "11 giorni" contains "1 giorni", so eleven days left is a warning too. */
  lemma ElevenDaysIsWarning(s: string)
    requires s == "Scade tra 11 giorni"
    ensures ClassifyExpiry(s) == Warning
  {
    MissingCharNotContained(s, "Scaduto", 4);
    assert s[11..19] == "1 giorni";
    assert OccursAt(s, "1 giorni", 11);
    ClassifyExpirySpec(s);
  }

  /** The test is case-sensitive: a lower-case "scaduto" alone is not an error. */
  lemma LowerCaseExpiredIsSuccess(s: string)
    requires s == "scaduto"
    ensures ClassifyExpiry(s) == Success
  {
    MissingCharNotContained(s, "Scaduto", 0);
  }

  /**
   * An ingredient whose expiry is unknown, as every ingredient is by
   * default, is shown as fine.
   */
  lemma UnknownExpiryIsSuccess(s: string)
    requires s == DefaultInfoScadenza
    ensures ClassifyExpiry(s) == Success
  {
    UnknownExpiryLacksMarkers(s);
    MissingCharNotContained(s, "Scaduto", 4);
    MissingCharNotContained(s, "Scade oggi", 7);
    MissingCharNotContained(s, "1 giorni", 0);
  }

  /** "Scadenza non nota" has no `u` (so no "Scaduto"), no `g` (so no "Scade oggi") and no `1` (so no "1 giorni"). */
  lemma UnknownExpiryLacksMarkers(s: string)
    requires s == DefaultInfoScadenza
    ensures 'u' !in s && 'g' !in s && '1' !in s
  {
  }

  // ---------------------------------------------------------------------------
  // The session store
  // ---------------------------------------------------------------------------

  /** The per-browser-session store, which survives reruns of the page script. */
  class Session {
    var agent: RecipeAgent?
    var messages: Option<seq<Message>>

    /** A new browser session holds nothing yet. */
    constructor()
      ensures agent == null && messages == None
    {
      agent := null;
      messages := None;
    }

    /** The top of the script: the agent and the transcript are created only when absent. */
    method Init()
      modifies this
      ensures old(agent) != null ==> agent == old(agent)
      ensures old(agent) == null ==> agent != null && fresh(agent) && agent.state == EmptyKitchenState
      ensures messages == if old(messages).Some? then old(messages) else Some([])
    {
      if agent == null {
        agent := new RecipeAgent();
      }
      if messages.None? {
        messages := Some([]);
      }
    }

    /**
     * One chat turn: the user message is appended first, the agent is given
     * the transcript without it as history, and the reply is appended after
     * it. If the agent raises, the exception ends the run and the transcript
     * keeps the user message alone.
     */
    method Turn(prompt: string, sv: Services) returns (reply: Outcome<string>)
      requires agent != null && messages.Some?
      modifies this, agent
      ensures agent == old(agent)
      ensures agent.state == NextState(old(agent.state), prompt, sv)
      ensures reply == Reply(old(agent.state), prompt, old(messages).value, sv)
      ensures messages == Some(old(messages).value + [Human(prompt)] + (if reply.Returned? then [Ai(reply.value)] else []))
    {
      var transcript := messages.value + [Human(prompt)];
      messages := Some(transcript);
      var history := transcript[..|transcript| - 1];
      assert history == old(messages).value;
      reply := agent.GetResponse(prompt, history, sv);
      if reply.Returned? {
        messages := Some(transcript + [Ai(reply.value)]);
      } else {
        assert transcript + [] == transcript;
      }
    }

    /**
     * One run of the page script: set the store up if needed, then handle
     * the message the user submitted, if any. An agent kept from an earlier
     * run answers from the state it has reached.
     */
    method Rerun(input: Option<string>, sv: Services) returns (reply: Option<Outcome<string>>)
      modifies this, agent
      ensures agent != null && (old(agent) != null ==> agent == old(agent)) && (old(agent) == null ==> fresh(agent))
      ensures var before := Stored(old(messages));
        var s0 := if old(agent) != null then old(agent.state) else EmptyKitchenState;
        match input
        case None => reply.None? && messages == Some(before) && agent.state == s0
        case Some(prompt) =>
          reply == Some(Reply(s0, prompt, before, sv))
          && agent.state == NextState(s0, prompt, sv)
          && messages == Some(before + [Human(prompt)] + (if reply.value.Returned? then [Ai(reply.value.value)] else []))
    {
      Init();
      if input.None? {
        return None;
      }
      var r := Turn(input.value, sv);
      reply := Some(r);
    }
  }

  /** The transcript held in the store, empty when there is none yet. */
  function Stored(m: Option<seq<Message>>): seq<Message> {
    match m
    case None => []
    case Some(msgs) => msgs
  }
}
