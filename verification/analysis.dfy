/**
 The analysis step: the image is saved, the agent is asked to analyse it,
 and the reply is shown under a results header; any exception raised on the
 way is classified by its message, a message mentioning "429" selecting the
 rate-limit notice and every other message the generic notice that quotes
 it. The agent's reply and the save's failure are inputs.
 */
module Analysis {
  import opened Wrappers
  import opened Strings
  import opened Session

  /** The HTTP status whose mention in an error marks a rate limit. */
  const RateLimitCode: string := "429"

  const RateLimitMessage: string :=
    RateLimitLead + RateLimitCode + ": Demasiadas solicitudes. Por favor, espere un momento antes de intentar de nuevo o verifique su cuota de API."

  /** What the rate-limit notice says before the code. */
  const RateLimitLead: string := "⚠️ Error "

  /** What the generic notice puts in front of the error's text. */
  const FailurePrefix: string := "Error al analizar la imagen: "

  const ResultsHeader: string := "### 📃 Resultados del análisis"
  const Rule: string := "---"
  const ReviewNote: string :=
    "Nota: Este análisis se genera por IA y debe ser revisado por un profesional de la salud calificado."

  /** The message of the error raised by calling `run` on the missing agent (`None`). */
  const NoAgentError: string := "'NoneType' object has no attribute 'run'"

  /** How an analysis ends: the agent's reply, the rate-limit notice, or the generic notice for an error. */
  datatype Outcome = Shown(content: string) | RateLimited | Failed(error: string)

  /** One element written to the page. */
  datatype Block = Markdown(text: string) | ErrorBox(text: string) | Caption(text: string)

  /** The exception handler: the rate-limit notice exactly when the message contains "429", else the generic notice with the message. */
  function Classify(error: string): (o: Outcome)
    ensures !o.Shown?
    ensures o.RateLimited? <==> Contains(error, RateLimitCode)
    ensures o.Failed? ==> o.error == error
  {
    if Contains(error, RateLimitCode) then RateLimited else Failed(error)
  }

  /** What an outcome writes to the page: the reply framed by header, rules and note, or a single error box. */
  function Render(o: Outcome): (page: seq<Block>)
    ensures o.Shown? ==> |page| == 5 && page[2] == Markdown(o.content)
    ensures o.Shown? ==> page[..2] == [Markdown(ResultsHeader), Markdown(Rule)]
    ensures o.Shown? ==> page[3..] == [Markdown(Rule), Caption(ReviewNote)]
    ensures o.Shown? ==> forall i | 0 <= i < |page| :: !page[i].ErrorBox?
    ensures !o.Shown? ==> |page| == 1 && page[0].ErrorBox?
  {
    match o
    case Shown(c) => [Markdown(ResultsHeader), Markdown(Rule), Markdown(c), Markdown(Rule), Caption(ReviewNote)]
    case RateLimited => [ErrorBox(RateLimitMessage)]
    case Failed(e) => [ErrorBox(FailurePrefix + e)]
  }

  /**
   The body of the `try`: the save fails with `saveError` when that is
   given; then calling `run` on a missing agent raises the attribute error;
   then the agent's `reply` is either its content or the message it failed
   with. Whatever was raised goes to the handler.
   */
  function Analyze(agent: Option<AgentConfig>, saveError: Option<string>, reply: Result<string, string>): (o: Outcome)
    ensures o.Shown? <==> saveError.None? && agent.Some? && reply.Success?
    ensures o.Shown? ==> o.content == reply.value
    ensures saveError.Some? ==> o == Classify(saveError.value)
    ensures saveError.None? && agent.Some? && reply.Failure? ==> o == Classify(reply.error)
  {
    if saveError.Some? then Classify(saveError.value)
    else if agent.None? then Classify(NoAgentError)
    else match reply
      case Success(content) => Shown(content)
      case Failure(e) => Classify(e)
  }

  /**
   Without an agent nothing is ever shown and the reply plays no part: the
   saved image leads to the generic notice about the missing agent.
   */
  lemma NoAgentIgnoresReply(saveError: Option<string>, reply1: Result<string, string>, reply2: Result<string, string>)
    ensures Analyze(None, saveError, reply1) == Analyze(None, saveError, reply2)
    ensures !Analyze(None, saveError, reply1).Shown?
    ensures saveError.None? ==> Analyze(None, saveError, reply1) == Failed(NoAgentError)
  {
    NoAgentErrorIsGeneric();
  }

  /** The missing-agent error does not mention "429". */
  lemma NoAgentErrorIsGeneric()
    ensures Classify(NoAgentError) == Failed(NoAgentError)
  {
    assert '4' !in NoAgentError;
    MissingFirstNotContained(NoAgentError, RateLimitCode);
  }

  /** The generic notice quotes the error's text in full. */
  lemma FailureQuotesError(error: string)
    requires !Contains(error, RateLimitCode)
    ensures Render(Classify(error)) == [ErrorBox(FailurePrefix + error)]
    ensures Contains(Render(Classify(error))[0].text, error)
  {
    assert FailurePrefix + error == FailurePrefix + error + [];
    ContainsMiddle(FailurePrefix, error, []);
  }

  /** Every error mentioning "429" gives the same notice, whatever else it says. */
  lemma RateLimitIgnoresDetails(error1: string, error2: string)
    requires Contains(error1, RateLimitCode) && Contains(error2, RateLimitCode)
    ensures Render(Classify(error1)) == Render(Classify(error2)) == [ErrorBox(RateLimitMessage)]
  {
  }

  /** The error box mentions "429" exactly when the error did: the generic notice's own words never do. */
  lemma NoticeMentionsCodeIff(error: string)
    ensures Contains(Render(Classify(error))[0].text, RateLimitCode) <==> Contains(error, RateLimitCode)
  {
    if Contains(error, RateLimitCode) {
      ContainsMiddle(RateLimitLead, RateLimitCode, RateLimitMessage[|RateLimitLead| + |RateLimitCode|..]);
    } else {
      assert '4' !in FailurePrefix;
      ContainsAfterPrefix(FailurePrefix, error, RateLimitCode);
    }
  }

  /** A reply is written out as received, between the header and rule above it and the rule and note below it. */
  lemma ReplyShownVerbatim(agent: AgentConfig, content: string)
    ensures Render(Analyze(Some(agent), None, Success(content))) ==
      [Markdown(ResultsHeader), Markdown(Rule)] + [Markdown(content)] + [Markdown(Rule), Caption(ReviewNote)]
  {
  }

  /** The page tells the outcomes apart: no two different outcomes write the same blocks. */
  lemma RenderDistinguishes(o1: Outcome, o2: Outcome)
    requires Render(o1) == Render(o2)
    ensures o1 == o2
  {
    if o1.Failed? {
      assert Render(o1)[0].text[0] == 'E';
    }
    if o2.Failed? {
      assert Render(o2)[0].text[0] == 'E';
    }
    assert RateLimitMessage[0] == '⚠';
    if o1.Shown? {
      assert Render(o1)[2] == Render(o2)[2];
    } else if o1.Failed? && o2.Failed? {
      assert (FailurePrefix + o1.error)[|FailurePrefix|..] == o1.error;
      assert (FailurePrefix + o2.error)[|FailurePrefix|..] == o2.error;
    }
  }
}
