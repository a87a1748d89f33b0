/**
 * The `POST` handler of the e-mail route: an ordered chain of early-return
 * checks on the request fields and the environment, then one call to the
 * e-mail provider with an HTML body built from the summary.
 */
module SendEmail {
  import opened Wrappers
  import opened Text
  import opened Http

  const SummaryRequired := "Summary is required"
  const EmailsRequired := "Email addresses are required"
  const ApiKeyMissing := "RESEND_API_KEY not configured"
  const SenderMissing := "FROM_EMAIL not configured"
  const SendFailed := "Failed to send email"
  const Subject := "Meeting Summary"

  /** The two destructured request fields; `None` is a field the body does not have. */
  datatype Fields = Fields(summary: Option<Json>, emails: Option<Json>)

  /** `process.env.RESEND_API_KEY` and `process.env.FROM_EMAIL`. */
  datatype Env = Env(resendApiKey: Option<string>, fromEmail: Option<string>)

  /** What the handler hands to the provider's `emails.send`. */
  datatype Message = Message(from: string, to: seq<Json>, subject: string, html: string)

  /** How the provider call ends: `{data}` with an optional id, `{error}`, or a thrown exception. */
  datatype Delivery = Delivered(id: Option<string>) | ProviderError | Threw

  /** The success body `{success: true, messageId}`. */
  datatype Sent = Sent(messageId: Option<string>)

  /** `s.replace(/\n/g, '<br>')`. */
  function NewlinesToBr(s: string): (r: string)
    ensures '\n' !in r
    ensures |r| == |s| + 3 * Count('\n', s)
  {
    if s == [] then [] else (if s[0] == '\n' then "<br>" else [s[0]]) + NewlinesToBr(s[1..])
  }

  /** The rewrite works character by character, so it distributes over concatenation. */
  lemma {:induction false} NewlinesToBrAppend(a: string, b: string)
    ensures NewlinesToBr(a + b) == NewlinesToBr(a) + NewlinesToBr(b)
  {
    if a != [] {
      assert (a + b)[0] == a[0] && (a + b)[1..] == a[1..] + b;
      NewlinesToBrAppend(a[1..], b);
    } else {
      assert a + b == b;
    }
  }

  /** Each newline becomes `<br>`: the text up to the first newline is kept, that newline is replaced, and the rest is rewritten. */
  lemma NewlinesToBrLine(a: string, b: string)
    requires '\n' !in a
    ensures NewlinesToBr(a + "\n" + b) == a + "<br>" + NewlinesToBr(b)
  {
    NewlinesToBrAppend(a + "\n", b);
    NewlinesToBrAppend(a, "\n");
    NewlinesToBrUnchanged(a);
    assert NewlinesToBr("\n") == "<br>" by {
      assert "\n"[1..] == [];
    }
  }

  /** A summary is embedded unchanged exactly when it has no newline. */
  lemma {:induction false} NewlinesToBrUnchanged(s: string)
    ensures NewlinesToBr(s) == s <==> '\n' !in s
  {
    CountZero('\n', s);
    if '\n' !in s && s != [] {
      assert '\n' !in s[1..] by {
        forall k | 0 <= k < |s[1..]| ensures s[1..][k] != '\n' {
          assert s[1..][k] == s[k + 1];
        }
      }
      NewlinesToBrUnchanged(s[1..]);
      assert s == [s[0]] + s[1..];
    }
  }

  const HtmlHead := "\n        <h2>Meeting Summary</h2>\n        <div style=\"white-space: pre-wrap; font-family: Arial, sans-serif; line-height: 1.6;\">\n          "
  const HtmlTail := "\n        </div>\n        <hr>\n        <p style=\"color: #666; font-size: 12px;\">\n          This summary was generated using AI and may require review.\n        </p>\n      "

  /** The `html` template literal around the rewritten summary. */
  function Html(summary: string): string {
    HtmlHead + NewlinesToBr(summary) + HtmlTail
  }

  /**
   * The rewritten summary sits between the fixed head and tail of the
   * template, so it can be read back out; a summary without newlines is
   * embedded as it stands.
   */
  lemma HtmlEmbedsSummary(summary: string)
    ensures var h := Html(summary);
      && |h| == |HtmlHead| + |summary| + 3 * Count('\n', summary) + |HtmlTail|
      && h[..|HtmlHead|] == HtmlHead && h[|h| - |HtmlTail|..] == HtmlTail
      && h[|HtmlHead|..|h| - |HtmlTail|] == NewlinesToBr(summary)
      && ('\n' !in summary ==> h[|HtmlHead|..|h| - |HtmlTail|] == summary)
  {
    Framed(HtmlHead, NewlinesToBr(summary), HtmlTail);
    NewlinesToBrUnchanged(summary);
  }

  /** A text framed by a head and a tail can be cut back into the three. */
  lemma Framed(head: string, mid: string, tail: string)
    ensures var h := head + mid + tail;
      && |h| == |head| + |mid| + |tail|
      && h[..|head|] == head && h[|h| - |tail|..] == tail && h[|head|..|h| - |tail|] == mid
  {
    var h := head + mid + tail;
    assert h == head + (mid + tail);
    assert h[|head|..] == mid + tail;
    assert h[|head|..|h| - |tail|] == (mid + tail)[..|mid|];
  }

  /** `emails` gets past `!emails || !Array.isArray(emails) || emails.length === 0`. */
  predicate IsNonEmptyArray(v: Option<Json>) {
    v.Some? && v.value.JArray? && |v.value.items| > 0
  }

  /** `TruthyText` is JavaScript truthiness of a field that, when present, is a string. */
  lemma TruthyTextIsTruthy(v: Option<string>)
    ensures TruthyText(v) <==> Truthy(if v.None? then None else Some(JString(v.value)))
    ensures !TruthyText(v) <==> v == None || v == Some("")
  {
  }

  /** The request gets past every early return and its summary is a string, so `.replace` exists. */
  predicate ReachesProvider(f: Fields, env: Env) {
    && Truthy(f.summary)
    && IsNonEmptyArray(f.emails)
    && TruthyText(env.resendApiKey)
    && TruthyText(env.fromEmail)
    && f.summary.value.JString?
  }

  /**
   * `POST`. `body` is `None` when `request.json()` throws or yields `null`
   * (destructuring then throws); `delivery` is how the provider call ends
   * if it is made. Every exception is caught and becomes a 500.
   */
  function Handle(body: Option<Fields>, env: Env, delivery: Delivery): (out: Outcome<Message, Sent>)
    ensures out.call.Some? <==> body.Some? && ReachesProvider(body.value, env)
    ensures out.call.Some? ==>
      out.call.value == Message(env.fromEmail.value, body.value.emails.value.items, Subject, Html(body.value.summary.value.s))
    ensures out.response.Ok? <==> out.call.Some? && delivery.Delivered?
    ensures out.response.Ok? ==> out.response.body == Sent(delivery.id)
    ensures out.response.BadRequest? <==> body.Some? && (!Truthy(body.value.summary) || !IsNonEmptyArray(body.value.emails))
    ensures out.call.Some? && !delivery.Delivered? ==> out.response == ServerError(SendFailed)
    ensures body.None? ==> out == Outcome(None, ServerError(SendFailed))
    ensures body.Some? && Truthy(body.value.summary) && IsNonEmptyArray(body.value.emails)
            && TruthyText(env.resendApiKey) && TruthyText(env.fromEmail) && !body.value.summary.value.JString?
            ==> out == Outcome(None, ServerError(SendFailed))
  {
    match body
    case None => Outcome(None, ServerError(SendFailed))
    case Some(f) =>
      if !Truthy(f.summary) then
        Outcome(None, BadRequest(SummaryRequired))
      else if !IsNonEmptyArray(f.emails) then
        Outcome(None, BadRequest(EmailsRequired))
      else if !TruthyText(env.resendApiKey) then
        Outcome(None, ServerError(ApiKeyMissing))
      else if !TruthyText(env.fromEmail) then
        Outcome(None, ServerError(SenderMissing))
      else if !f.summary.value.JString? then
        // `summary.replace` is not a function: the TypeError is caught.
        Outcome(None, ServerError(SendFailed))
      else
        var message := Message(env.fromEmail.value, f.emails.value.items, Subject, Html(f.summary.value.s));
        match delivery
        case Delivered(id) => Outcome(Some(message), Ok(Sent(id)))
        case ProviderError => Outcome(Some(message), ServerError(SendFailed))
        case Threw => Outcome(Some(message), ServerError(SendFailed))
  }

  /** A falsy summary is reported first, whatever the other field, the environment and the provider. */
  lemma SummaryCheckedFirst(f: Fields, env: Env, delivery: Delivery)
    requires !Truthy(f.summary)
    ensures Handle(Some(f), env, delivery) == Outcome(None, BadRequest(SummaryRequired))
  {
  }

  /** Past the summary check, a missing, non-array or empty `emails` is the next 400. */
  lemma EmailsCheckedSecond(f: Fields, env: Env, delivery: Delivery)
    requires Truthy(f.summary) && !IsNonEmptyArray(f.emails)
    ensures Handle(Some(f), env, delivery) == Outcome(None, BadRequest(EmailsRequired))
  {
  }

  /** The configuration is looked at only once the input is valid: the API key, then the sender. */
  lemma ConfigurationCheckedAfterInput(f: Fields, env: Env, delivery: Delivery)
    requires Truthy(f.summary) && IsNonEmptyArray(f.emails)
    ensures !TruthyText(env.resendApiKey) ==> Handle(Some(f), env, delivery) == Outcome(None, ServerError(ApiKeyMissing))
    ensures TruthyText(env.resendApiKey) && !TruthyText(env.fromEmail) ==>
      Handle(Some(f), env, delivery) == Outcome(None, ServerError(SenderMissing))
  {
  }

  /** A 400 depends on the request alone, not on the environment or the provider. */
  lemma InputErrorsIgnoreEnvironment(body: Option<Fields>, env1: Env, env2: Env, d1: Delivery, d2: Delivery)
    requires Handle(body, env1, d1).response.BadRequest?
    ensures Handle(body, env2, d2) == Handle(body, env1, d1)
  {
  }

  /** Every run ends in one of the five documented bodies or the success body. */
  lemma ResponsesAreDocumented(body: Option<Fields>, env: Env, delivery: Delivery)
    ensures var r := Handle(body, env, delivery).response;
      || r == BadRequest(SummaryRequired) || r == BadRequest(EmailsRequired)
      || r == ServerError(ApiKeyMissing) || r == ServerError(SenderMissing)
      || r == ServerError(SendFailed) || r.Ok?
  {
  }
}
