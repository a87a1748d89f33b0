/**
 * The page and the two routes together: what a request the page sends
 * meets at the route it is sent to, and what the page does with the answer.
 */
module Flow {
  import opened Wrappers
  import opened Text
  import opened Http
  import opened Documents
  import opened Client
  import Summarize
  import SendEmail

  /** The JSON body `{transcript, instruction}` of a summary request as the route destructures it. */
  function SummaryFields(c: SummaryCall): Summarize.Fields {
    Summarize.Fields(Some(c.transcript), c.instruction)
  }

  /** The JSON body `{summary, emails}` of an e-mail request as the route destructures it. */
  function EmailFields(c: EmailCall): SendEmail.Fields {
    SendEmail.Fields(Some(JString(c.summary)), Some(JArray(seq(|c.emails|, k requires 0 <= k < |c.emails| => JString(c.emails[k])))))
  }

  /** What "generate summary" makes of the route's answer: the `summary` of a 200, a failure otherwise. */
  function ReplyOf(r: Response<Summarize.Summary>): (reply: SummaryReply)
    ensures reply.Summarized? <==> r.Ok?
    ensures reply.Summarized? ==> reply.summary == r.body.summary
  {
    match r
    case Ok(s) => Summarized(s.summary)
    case BadRequest(_) => Failed
    case ServerError(_) => Failed
  }

  /**
   * A summary request the page sends is never refused as malformed: the
   * route builds its prompt from the trimmed content and the instruction
   * the page chose, and a completed call always brings back a summary
   * with some text in it.
   */
  lemma SummaryRequestAccepted(active: Option<Transcript>, instruction: string, key: Option<string>, completion: Summarize.Completion)
    requires SummaryRequest(active, instruction).Some?
    ensures var c := SummaryRequest(active, instruction).value;
      var out := Summarize.Handle(Some(SummaryFields(c)), key, completion);
      && !out.response.BadRequest?
      && out.call == (if TruthyText(key) then Some(Summarize.Prompt(InstructionToSend(instruction), Trim(active.value.content))) else None)
      && (ReplyOf(out.response).Summarized? <==> TruthyText(key) && completion.Completed?)
      && (ReplyOf(out.response).Summarized? ==> ReplyOf(out.response).summary != "")
  {
    var c := SummaryRequest(active, instruction).value;
    assert TruthyText(Some(c.transcript));
  }

  /**
   * An e-mail request the page sends always has a summary the route
   * accepts; it is refused with "Email addresses are required" exactly when
   * the address field held no address, and otherwise it passes every input
   * check and, given the configuration, reaches the provider with the
   * parsed addresses and the body rewritten to HTML.
   */
  lemma EmailRequestAtRoute(active: Option<Transcript>, field: string, env: SendEmail.Env, delivery: SendEmail.Delivery)
    requires EmailRequest(active, field).Some?
    ensures var c := EmailRequest(active, field).value;
      var out := SendEmail.Handle(Some(EmailFields(c)), env, delivery);
      && (out.response.BadRequest? <==> c.emails == [])
      && (out.response.BadRequest? ==> out.response.error == SendEmail.EmailsRequired)
      && (out.call.Some? <==> c.emails != [] && TruthyText(env.resendApiKey) && TruthyText(env.fromEmail))
      && (out.call.Some? ==> |out.call.value.to| == |c.emails| && out.call.value.html == SendEmail.Html(c.summary))
      && (out.call.Some? ==> forall k :: 0 <= k < |c.emails| ==> out.call.value.to[k] == JString(c.emails[k]))
  {
    var c := EmailRequest(active, field).value;
    assert |c.summary| > 0;
    assert Truthy(EmailFields(c).summary);
  }

  /** A field holding only commas and white space, such as ",", gets past the page and is refused by the route. */
  lemma CommaFieldRefused(t: Transcript, field: string, env: SendEmail.Env, delivery: SendEmail.Delivery)
    requires t.summary.Some? && !AllSpace(t.summary.value)
    requires ',' in field
    requires forall i :: 0 <= i < |field| ==> field[i] == ',' || IsSpace(field[i])
    ensures EmailRequest(Some(t), field).Some?
    ensures SendEmail.Handle(Some(EmailFields(EmailRequest(Some(t), field).value)), env, delivery).response
            == BadRequest(SendEmail.EmailsRequired)
  {
    CommaFieldPassesGuard(t, field);
    EmailRequestAtRoute(Some(t), field, env, delivery);
  }
}
