/**
 The generation endpoint (`home` in assessment.py, POST branch). A prompt of
 fewer than 20 characters is refused with status 400. Otherwise one draft is
 requested from the completion service, its byline is cleaned away, and if
 the auditor finds the cleaned draft incomplete exactly one continuation is
 requested and appended after a line feed. Whatever the service raises
 turns into status 500 carrying the error's text.

 The completion service is a parameter: `ask` maps each request to the
 reply the service would give, either a text or a failure with its
 description. The result records the HTTP response and, in order, the
 requests that were sent.
 */
module Handler {
  import opened Options
  import Auditor
  import Text
  import Byline

  const ModelName := "openai/gpt-oss-120b:together"
  const MinPromptLength: nat := 20
  const ShortPromptError := "Prompt must be at least 20 characters."

  const DraftInstruction := "Write a detailed, engaging blog of ~1000 words on: "
  const DraftTokens: nat := 1500

  const ContinuationRole := "You are a blog continuation assistant."
  const ContinuationInstruction := "Continue this blog without repeating, and finish it properly:\n\n"
  const ContinuationTokens: nat := 500

  const StatusOk: nat := 200
  const StatusBadRequest: nat := 400
  const StatusServerError: nat := 500

  datatype Role = System | User
  datatype Message = Message(role: Role, content: string)
  datatype Request = Request(model: string, messages: seq<Message>, maxTokens: nat)

  /** What the service gives back for one request: the generated text, or
      the failure it raised (including a reply without any text). */
  datatype Reply = Ok(content: string) | Fault(description: string)

  /** The JSON body: `{"blog": …}` or `{"error": …}`. */
  datatype Body = Blog(blog: string) | Error(error: string)
  datatype Response = Response(status: nat, body: Body)

  /** One POST: the response and the requests sent to the service, in order. */
  datatype Exchange = Exchange(response: Response, requests: seq<Request>)

  /** The first request: one user message naming the topic. */
  function DraftRequest(prompt: string): (q: Request)
    ensures q.model == ModelName && q.maxTokens == DraftTokens
    ensures |q.messages| == 1 && q.messages[0].role == User
    ensures q.messages[0].content == DraftInstruction + prompt
  {
    Request(ModelName, [Message(User, DraftInstruction + prompt)], DraftTokens)
  }

  /** The follow-up request: a system message and a user message carrying
      the cleaned draft. */
  function ContinuationRequest(blog: string): (q: Request)
    ensures q.model == ModelName && q.maxTokens == ContinuationTokens
    ensures |q.messages| == 2
    ensures q.messages[0] == Message(System, ContinuationRole)
    ensures q.messages[1] == Message(User, ContinuationInstruction + blog)
  {
    Request(ModelName, [Message(System, ContinuationRole), Message(User, ContinuationInstruction + blog)],
            ContinuationTokens)
  }

  /** The two kinds of request can never be confused with each other. */
  lemma RequestsDiffer(prompt: string, blog: string)
    ensures DraftRequest(prompt) != ContinuationRequest(blog)
  {
    assert DraftRequest(prompt).maxTokens != ContinuationRequest(blog).maxTokens;
  }

  /** The prompt passes the server's check: present, non-empty and at least
      20 characters long. A missing `prompt` field reads as the empty
      string, and JSON `null` as `None`; both fail. */
  predicate AcceptedPrompt(prompt: Option<string>)
    ensures AcceptedPrompt(prompt) <==> prompt.Some? && |prompt.value| >= MinPromptLength
  {
    prompt.Some? && |prompt.value| > 0 && |prompt.value| >= MinPromptLength
  }

  /** The `try` block: draft, clean, audit, continue at most once. */
  function Generate(prompt: string, ask: Request -> Reply): (x: Exchange)
    ensures 1 <= |x.requests| <= 2 && x.requests[0] == DraftRequest(prompt)
    ensures x.response.status == StatusOk || x.response.status == StatusServerError
    ensures x.response.status == StatusOk <==> x.response.body.Blog?
    ensures ask(DraftRequest(prompt)).Fault? ==>
      x == Exchange(Response(StatusServerError, Error(ask(DraftRequest(prompt)).description)),
                    [DraftRequest(prompt)])
    ensures ask(DraftRequest(prompt)).Ok? ==>
      var blog := Byline.Strip(ask(DraftRequest(prompt)).content);
      && (|x.requests| == 2 <==> Auditor.IsIncomplete(blog))
      && (|x.requests| == 2 ==> x.requests[1] == ContinuationRequest(blog))
      && (x.response.body.Blog? ==> blog <= x.response.body.blog)
  {
    var first := DraftRequest(prompt);
    match ask(first)
    case Fault(e) => Exchange(Response(StatusServerError, Error(e)), [first])
    case Ok(draft) =>
      var blog := Byline.Strip(draft);
      if !Auditor.IsIncomplete(blog) then
        Exchange(Response(StatusOk, Blog(blog)), [first])
      else
        var second := ContinuationRequest(blog);
        match ask(second)
        case Fault(e) => Exchange(Response(StatusServerError, Error(e)), [first, second])
        case Ok(more) => Exchange(Response(StatusOk, Blog(blog + "\n" + more)), [first, second])
  }

  /** The POST handler. */
  function Post(prompt: Option<string>, ask: Request -> Reply): (x: Exchange)
    ensures x.response.status in {StatusOk, StatusBadRequest, StatusServerError}
    ensures x.response.status == StatusBadRequest <==> !AcceptedPrompt(prompt)
    ensures !AcceptedPrompt(prompt) ==> x.requests == [] && x.response.body == Error(ShortPromptError)
    ensures AcceptedPrompt(prompt) ==> 1 <= |x.requests| <= 2 && x.requests[0] == DraftRequest(prompt.value)
    ensures x.response.status == StatusOk <==> x.response.body.Blog?
  {
    if prompt.None? || |prompt.value| == 0 || |prompt.value| < MinPromptLength then
      Exchange(Response(StatusBadRequest, Error(ShortPromptError)), [])
    else
      Generate(prompt.value, ask)
  }

  /** A finished-looking draft is returned, cleaned, after a single request. */
  lemma CompleteDraftReturned(prompt: string, ask: Request -> Reply, draft: string)
    requires |prompt| >= MinPromptLength
    requires ask(DraftRequest(prompt)) == Ok(draft)
    requires !Auditor.IsIncomplete(Byline.Strip(draft))
    ensures Post(Some(prompt), ask)
      == Exchange(Response(StatusOk, Blog(Byline.Strip(draft))), [DraftRequest(prompt)])
  {
  }

  /** An unfinished-looking draft gets exactly one continuation, which is
      appended after a line feed; a failing continuation loses the draft
      and answers 500. */
  lemma IncompleteDraftContinued(prompt: string, ask: Request -> Reply, draft: string)
    requires |prompt| >= MinPromptLength
    requires ask(DraftRequest(prompt)) == Ok(draft)
    requires Auditor.IsIncomplete(Byline.Strip(draft))
    ensures var blog := Byline.Strip(draft);
      var x := Post(Some(prompt), ask);
      && x.requests == [DraftRequest(prompt), ContinuationRequest(blog)]
      && (ask(ContinuationRequest(blog)).Ok? ==>
            x.response == Response(StatusOk, Blog(blog + "\n" + ask(ContinuationRequest(blog)).content)))
      && (ask(ContinuationRequest(blog)).Fault? ==>
            x.response == Response(StatusServerError, Error(ask(ContinuationRequest(blog)).description)))
  {
  }

  /** The continued blog is not audited again: a blank continuation leaves
      a draft that was incomplete just as incomplete, and it is still
      returned with status 200. */
  lemma ContinuationNotReaudited(prompt: string, ask: Request -> Reply, draft: string, more: string)
    requires |prompt| >= MinPromptLength
    requires ask(DraftRequest(prompt)) == Ok(draft)
    requires Auditor.IsIncomplete(Byline.Strip(draft))
    requires ask(ContinuationRequest(Byline.Strip(draft))) == Ok(more)
    requires Text.AllWs(more)
    ensures var x := Post(Some(prompt), ask);
      && x.response.status == StatusOk
      && Auditor.IsIncomplete(x.response.body.blog)
  {
    IncompleteDraftContinued(prompt, ask, draft);
    Auditor.BlankTailKeepsVerdict(Byline.Strip(draft), more);
  }

  /** A failing first request answers 500 with the failure's text and sends
      nothing more. */
  lemma DraftFaultIsServerError(prompt: string, ask: Request -> Reply, e: string)
    requires |prompt| >= MinPromptLength
    requires ask(DraftRequest(prompt)) == Fault(e)
    ensures Post(Some(prompt), ask)
      == Exchange(Response(StatusServerError, Error(e)), [DraftRequest(prompt)])
  {
  }

  /** Whatever is returned starts with the cleaned draft: a continuation
      only ever adds text after it. */
  lemma CleanDraftLeads(prompt: string, ask: Request -> Reply, draft: string)
    requires |prompt| >= MinPromptLength
    requires ask(DraftRequest(prompt)) == Ok(draft)
    ensures var x := Post(Some(prompt), ask);
      x.response.body.Blog? ==> Byline.Strip(draft) <= x.response.body.blog
  {
  }

  /** A draft that opens with a one-character byline block never shows
      it: what comes back starts with the cleaned remainder. */
  lemma LeadingBylineDropped(prompt: string, ask: Request -> Reply, b: Byline.Block, rest: string)
    requires |prompt| >= MinPromptLength
    requires Byline.ValidBlock(b)
    requires |rest| == 0 || rest[0] != '\n'
    requires ask(DraftRequest(prompt)) == Ok(Byline.Render(b) + rest)
    ensures var x := Post(Some(prompt), ask);
      x.response.body.Blog? ==> Byline.Strip(rest) <= x.response.body.blog
  {
    CleanDraftLeads(prompt, ask, Byline.Render(b) + rest);
    Byline.StripRemovesBlock(b, rest);
  }
}
