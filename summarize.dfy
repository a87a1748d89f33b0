/**
 * The `POST` handler of the summarize route: two early-return checks, a
 * prompt built from a template, one completion request, and a fallback
 * text for an empty completion.
 */
module Summarize {
  import opened Wrappers
  import opened Text
  import opened Http

  const TranscriptRequired := "Transcript is required"
  const ApiKeyMissing := "GROQ_API_KEY not configured"
  const SummarizeFailed := "Failed to generate summary"
  const NoSummary := "No summary generated"

  /** The text between the instruction and the transcript in the prompt. */
  const TranscriptHeader := "\n\nMeeting Transcript:\n"
  /** The text after the transcript in the prompt. */
  const ClosingDirective := "\n\nPlease provide a well-structured summary based on the instruction above."

  /** The destructured request fields; `transcript` is `None` when absent or `null`. */
  datatype Fields = Fields(transcript: Option<string>, instruction: string)

  /** How the completion call ends: the first choice's message content (absent if none), or a throw. */
  datatype Completion = Completed(firstContent: Option<string>) | Failed

  /** The success body `{summary}`. */
  datatype Summary = Summary(summary: string)

  /** The prompt template: instruction, header, transcript, closing directive. */
  function Prompt(instruction: string, transcript: string): (p: string)
    ensures |p| == |instruction| + |TranscriptHeader| + |transcript| + |ClosingDirective|
    ensures p[..|instruction|] == instruction
    ensures p[|instruction|..|instruction| + |TranscriptHeader|] == TranscriptHeader
    ensures p[|instruction| + |TranscriptHeader|..|p| - |ClosingDirective|] == transcript
    ensures p[|p| - |ClosingDirective|..] == ClosingDirective
  {
    instruction + TranscriptHeader + transcript + ClosingDirective
  }

  /** The transcript part of a prompt, given the instruction that starts it. */
  function TranscriptOf(p: string, instruction: string): string
    requires |instruction| + |TranscriptHeader| + |ClosingDirective| <= |p|
  {
    p[|instruction| + |TranscriptHeader|..|p| - |ClosingDirective|]
  }

  /** The transcript can be read back out of the prompt, so different transcripts give different prompts. */
  lemma PromptRoundTrip(instruction: string, transcript: string, transcript': string)
    ensures TranscriptOf(Prompt(instruction, transcript), instruction) == transcript
    ensures Prompt(instruction, transcript) == Prompt(instruction, transcript') ==> transcript == transcript'
  {
  }

  /** `completion.choices[0]?.message?.content || 'No summary generated'`. */
  function SummaryText(content: Option<string>): (s: string)
    ensures s != ""
    ensures TruthyText(content) ==> s == content.value
    ensures !TruthyText(content) ==> s == NoSummary
  {
    if TruthyText(content) then content.value else NoSummary
  }

  /**
   * `POST`. `body` is `None` when `request.json()` throws or yields `null`;
   * `completion` is how the completion call ends if it is made. Every
   * exception is caught and becomes a 500.
   */
  function Handle(body: Option<Fields>, groqApiKey: Option<string>, completion: Completion): (out: Outcome<string, Summary>)
    ensures out.call.Some? <==> body.Some? && TruthyText(body.value.transcript) && TruthyText(groqApiKey)
    ensures out.call.Some? ==> out.call.value == Prompt(body.value.instruction, body.value.transcript.value)
    ensures out.response.BadRequest? <==> body.Some? && !TruthyText(body.value.transcript)
    ensures out.response.BadRequest? ==> out.response.error == TranscriptRequired
    ensures out.response.Ok? <==> out.call.Some? && completion.Completed?
    ensures out.response.Ok? ==> out.response.body.summary != ""
    ensures out.call.Some? && completion.Failed? ==> out.response == ServerError(SummarizeFailed)
    ensures body.None? ==> out == Outcome(None, ServerError(SummarizeFailed))
  {
    match body
    case None => Outcome(None, ServerError(SummarizeFailed))
    case Some(f) =>
      if !TruthyText(f.transcript) then
        Outcome(None, BadRequest(TranscriptRequired))
      else if !TruthyText(groqApiKey) then
        Outcome(None, ServerError(ApiKeyMissing))
      else
        var prompt := Prompt(f.instruction, f.transcript.value);
        match completion
        case Completed(content) => Outcome(Some(prompt), Ok(Summary(SummaryText(content))))
        case Failed => Outcome(Some(prompt), ServerError(SummarizeFailed))
  }

  /** A falsy transcript is reported before the credential is looked at. */
  lemma TranscriptCheckedFirst(f: Fields, key: Option<string>, completion: Completion)
    requires !TruthyText(f.transcript)
    ensures Handle(Some(f), key, completion) == Outcome(None, BadRequest(TranscriptRequired))
  {
  }

  /** A missing credential is a 500, but only for a request that has a transcript. */
  lemma CredentialCheckedSecond(f: Fields, key: Option<string>, completion: Completion)
    requires !TruthyText(key)
    ensures Handle(Some(f), key, completion).response == ServerError(ApiKeyMissing) <==> TruthyText(f.transcript)
  {
  }

  /** A completed request returns the model's text when it has any, the placeholder otherwise. */
  lemma CompletedSummary(f: Fields, key: Option<string>, content: Option<string>)
    requires TruthyText(f.transcript) && TruthyText(key)
    ensures Handle(Some(f), key, Completed(content)).response == Ok(Summary(SummaryText(content)))
  {
  }
}
