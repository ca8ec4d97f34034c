/**
 * `POST /api/ai` (app/api/ai/route.ts): choose the provider from the model
 * name, choose the message list, map upstream failures to responses, and
 * re-frame OpenAI's server-sent events as Anthropic `content_block_delta`
 * events, line by line, carrying a partial line from one chunk to the next.
 */
module AiRoute {
  import opened Wrappers
  import opened JsValues
  import Strings

  // ---------------------------------------------------------------------
  // Routing and the request
  // ---------------------------------------------------------------------

  datatype Provider = OpenAI | Anthropic

  /** `isOpenAIModel`. */
  predicate IsOpenAIModel(model: string) {
    Strings.StartsWith(model, "gpt-") || Strings.StartsWith(model, "o1") || Strings.StartsWith(model, "o3")
  }

  /** `handleOpenAI` for the OpenAI model names, `handleAnthropic` for every other name. */
  function Route(model: string): (p: Provider)
    ensures p == OpenAI <==> IsOpenAIModel(model)
    ensures p == Anthropic <==> !IsOpenAIModel(model)
  {
    if IsOpenAIModel(model) then OpenAI else Anthropic
  }

  const DefaultModel := "claude-sonnet-4-5-20250929"
  const DefaultSystemPrompt := "You are a helpful assistant."

  /** The models the route's own documentation lists go where it says, and so does the default. */
  lemma DocumentedModels()
    ensures Route(DefaultModel) == Anthropic
    ensures Route("claude-haiku-3-5-20241022") == Anthropic
    ensures Route("gpt-4o") == OpenAI && Route("gpt-4o-mini") == OpenAI
  {
    assert DefaultModel[0] == 'c' && "claude-haiku-3-5-20241022"[0] == 'c';
    assert "gpt-"[0] == 'g' && "o1"[0] == 'o' && "o3"[0] == 'o';
  }

  datatype Message = Message(role: string, content: JsValue)

  /** The request body's fields; `None` is `undefined`. */
  datatype AiRequest = AiRequest(
    model: Option<string>,
    systemPrompt: Option<string>,
    userContent: Option<JsValue>,
    messages: Option<seq<Message>>)

  /** What the handler hands to `handleOpenAI` or `handleAnthropic`. */
  datatype Plan = Plan(provider: Provider, model: string, systemPrompt: string, messages: seq<Message>)

  const UserContentRequired := "User content is required"

  /**
   * The body's defaults, the 400 check, and the message choice: a non-empty
   * `messages` list wins; otherwise the single user message `userContent`.
   */
  function PlanRequest(req: AiRequest): (r: Result<Plan, string>)
    ensures r.Err? <==> !Truthy(req.userContent) && (req.messages.None? || req.messages.value == [])
    ensures r.Err? ==> r.error == UserContentRequired
    ensures r.Ok? ==>
      r.value.model == req.model.GetOr(DefaultModel)
      && r.value.systemPrompt == req.systemPrompt.GetOr(DefaultSystemPrompt)
      && r.value.provider == Route(r.value.model)
    ensures r.Ok? && req.messages.Some? && req.messages.value != [] ==> r.value.messages == req.messages.value
    ensures r.Ok? && (req.messages.None? || req.messages.value == []) ==>
      r.value.messages == [Message("user", req.userContent.value)]
  {
    var model := req.model.GetOr(DefaultModel);
    var systemPrompt := req.systemPrompt.GetOr(DefaultSystemPrompt);
    if !Truthy(req.userContent) && (req.messages.None? || req.messages.value == []) then
      Err(UserContentRequired)
    else
      var messages :=
        if req.messages.Some? && req.messages.value != [] then req.messages.value
        else [Message("user", req.userContent.value)];
      Ok(Plan(Route(model), model, systemPrompt, messages))
  }

  /**
   * The message list sent upstream: OpenAI gets the system prompt as a
   * leading `system` message; Anthropic gets the list as it is (its system
   * prompt travels in a separate field).
   */
  function UpstreamMessages(plan: Plan): (ms: seq<Message>)
    ensures plan.provider == OpenAI ==>
      |ms| == |plan.messages| + 1 && ms[0] == Message("system", JStr(plan.systemPrompt))
      && ms[1..] == plan.messages
    ensures plan.provider == Anthropic ==> ms == plan.messages
  {
    if plan.provider == OpenAI then [Message("system", JStr(plan.systemPrompt))] + plan.messages
    else plan.messages
  }

  /** The JSON body `fetch` posts upstream; `system` is `undefined` for OpenAI. */
  datatype UpstreamCall = UpstreamCall(
    provider: Provider, model: string, maxTokens: nat, stream: bool,
    system: Option<string>, messages: seq<Message>)

  /**
   * The body each provider handler posts: the plan's model, 4096 tokens,
   * streaming on; the system prompt travels as Anthropic's `system` field
   * or as OpenAI's leading message, and the conversation follows in order.
   */
  function UpstreamBody(plan: Plan): (c: UpstreamCall)
    ensures c.provider == plan.provider && c.model == plan.model
    ensures c.maxTokens == 4096 && c.stream
    ensures c.system.Some? <==> plan.provider == Anthropic
    ensures c.system.Some? ==> c.system.value == plan.systemPrompt
    ensures c.messages == UpstreamMessages(plan)
    ensures c.system == Some(plan.systemPrompt)
      || (|c.messages| > 0 && c.messages[0] == Message("system", JStr(plan.systemPrompt)))
    ensures |plan.messages| <= |c.messages| && c.messages[|c.messages| - |plan.messages|..] == plan.messages
  {
    UpstreamCall(plan.provider, plan.model, 4096, true,
                 if plan.provider == Anthropic then Some(plan.systemPrompt) else None,
                 UpstreamMessages(plan))
  }

  // ---------------------------------------------------------------------
  // Upstream failures
  // ---------------------------------------------------------------------

  /** What the provider's `fetch` returned. */
  datatype Upstream =
    | UpstreamOk(hasBody: bool)
    | UpstreamFailed(status: nat, body: string)   // `body` is '' when reading it failed
    | Unreachable                                 // `fetch` itself rejected

  datatype Reply =
    | EventStream(provider: Provider)              // `text/event-stream`
    | ErrorReply(status: nat, error: string)
    | Unhandled      // a rejection that escapes the handler: the framework's own 500

  function ProviderName(p: Provider): string {
    if p == OpenAI then "OpenAI" else "Anthropic"
  }

  const RateLimited := "Rate limited \U{2014} try again in a moment"

  /** How one provider handler answers, given its API key's presence and the upstream response. */
  function Relay(provider: Provider, apiKeySet: bool, upstream: Upstream): (r: Reply)
    ensures !apiKeySet ==> r == ErrorReply(500, ProviderName(provider) + " API key not configured")
    ensures apiKeySet && upstream.UpstreamFailed? && upstream.status == 429 ==> r == ErrorReply(429, RateLimited)
    ensures apiKeySet && upstream.UpstreamFailed? && upstream.status != 429 ==>
      r.ErrorReply? && r.status == upstream.status
      && var excerpt := Strings.Take(upstream.body, 200);
         |excerpt| <= 200 && Strings.StartsWith(upstream.body, excerpt)
         && (|upstream.body| <= 200 ==> excerpt == upstream.body)
         && r.error == ProviderName(provider) + " API error (" + Strings.Decimal(upstream.status) + "): " + excerpt
    ensures apiKeySet && upstream.Unreachable? ==> r == Unhandled
    ensures apiKeySet && upstream.UpstreamOk? ==>
      r == if upstream.hasBody then EventStream(provider)
           else ErrorReply(500, "No response stream from " + ProviderName(provider))
  {
    if !apiKeySet then ErrorReply(500, ProviderName(provider) + " API key not configured")
    else match upstream
      case UpstreamFailed(status, body) =>
        if status == 429 then ErrorReply(429, RateLimited)
        else ErrorReply(status, ProviderName(provider) + " API error (" + Strings.Decimal(status) + "): " + Strings.Take(body, 200))
      case UpstreamOk(hasBody) =>
        if hasBody then EventStream(provider)
        else ErrorReply(500, "No response stream from " + ProviderName(provider))
      case Unreachable => Unhandled
  }

  const ProcessFailed := "Failed to process request. Please try again."

  /**
   * `POST`: `req` is the parsed body (`None` when it is not JSON or is
   * `null`, which the catch-all turns into a 500), `apiKeySet` says which
   * providers have a key, `call` is the provider's answer to the body it is
   * sent. The provider handler's promise is returned without `await`, so a
   * rejected `fetch` is not caught by the handler's own `catch`.
   */
  function PostAi(req: Option<AiRequest>, apiKeySet: Provider -> bool, call: UpstreamCall -> Upstream): (r: Reply)
    ensures req.None? ==> r == ErrorReply(500, ProcessFailed)
    ensures req.Some? && PlanRequest(req.value).Err? ==> r == ErrorReply(400, UserContentRequired)
    ensures req.Some? && PlanRequest(req.value).Ok? ==>
      var plan := PlanRequest(req.value).value;
      r == Relay(plan.provider, apiKeySet(plan.provider), call(UpstreamBody(plan)))
  {
    if req.None? then ErrorReply(500, ProcessFailed)
    else match PlanRequest(req.value)
      case Err(e) => ErrorReply(400, e)
      case Ok(plan) => Relay(plan.provider, apiKeySet(plan.provider), call(UpstreamBody(plan)))
  }

  /**
   * A stream is only ever opened for an accepted request, from the provider
   * its model routes to, when that provider's key is set and the provider
   * answered with a body.
   */
  lemma PostAiStreams(req: AiRequest, apiKeySet: Provider -> bool, call: UpstreamCall -> Upstream)
    ensures PostAi(Some(req), apiKeySet, call).EventStream? <==>
      PlanRequest(req).Ok? && apiKeySet(PlanRequest(req).value.provider)
      && call(UpstreamBody(PlanRequest(req).value)) == UpstreamOk(true)
    ensures PostAi(Some(req), apiKeySet, call).EventStream? ==>
      PostAi(Some(req), apiKeySet, call).provider == Route(req.model.GetOr(DefaultModel))
  {
  }

  // ---------------------------------------------------------------------
  // Re-framing OpenAI's stream
  // ---------------------------------------------------------------------

  const DoneFrame := "data: [DONE]\n\n"

  /** `{ type: 'content_block_delta', delta: { text: content } }`. */
  function DeltaEvent(content: JsValue): JsValue {
    JObject(map["type" := JStr("content_block_delta"), "delta" := JObject(map["text" := content])])
  }

  /** `parsed.choices?.[0]?.delta?.content`; on `null` the read throws and the line is skipped, which is the same as no content. */
  function DeltaContent(parsed: JsValue): Option<JsValue> {
    Prop(Prop(Prop(Prop(Some(parsed), "choices"), "0"), "delta"), "content")
  }

  /**
   * The frames one complete line produces. `parse` stands for `JSON.parse`
   * (`None` when it throws) and `stringify` for `JSON.stringify`.
   */
  function TransformLine(line: string, parse: string -> Option<JsValue>, stringify: JsValue -> string): (frames: seq<string>)
    ensures |frames| <= 1
    ensures !Strings.StartsWith(line, "data: ") ==> frames == []
  {
    if !Strings.StartsWith(line, "data: ") then []
    else
      var data := Strings.Trim(line[6..]);
      if data == "[DONE]" then [DoneFrame]
      else match parse(data)
        case None => []
        case Some(parsed) =>
          var content := DeltaContent(parsed);
          if Truthy(content) then ["data: " + stringify(DeltaEvent(content.value)) + "\n\n"] else []
  }

  /**
   * Only `data: ` lines produce a frame: `[DONE]` (after trimming) gives the
   * done frame, a parsed chunk with non-empty delta content gives one
   * `content_block_delta` frame, and malformed JSON or empty content gives none.
   */
  lemma TransformLineCases(line: string, parse: string -> Option<JsValue>, stringify: JsValue -> string)
    requires Strings.StartsWith(line, "data: ")
    ensures var data := Strings.Trim(line[6..]);
      var frames := TransformLine(line, parse, stringify);
      (data == "[DONE]" ==> frames == [DoneFrame])
      && (data != "[DONE]" && parse(data).None? ==> frames == [])
      && (data != "[DONE]" && parse(data).Some? ==>
            frames == if Truthy(DeltaContent(parse(data).value))
                      then ["data: " + stringify(DeltaEvent(DeltaContent(parse(data).value).value)) + "\n\n"]
                      else [])
  {
  }

  /**
   * A client that strips `data: ` and the blank line from a delta frame and
   * parses the rest gets back the delta event carrying the chunk's content,
   * provided `JSON.parse` reads back what `JSON.stringify` writes.
   */
  lemma DeltaFrameReadsBack(line: string, parse: string -> Option<JsValue>, stringify: JsValue -> string)
    requires forall v :: parse(stringify(v)) == Some(v)
    requires Strings.StartsWith(line, "data: ")
    requires var data := Strings.Trim(line[6..]);
      data != "[DONE]" && parse(data).Some? && Truthy(DeltaContent(parse(data).value))
    ensures var frame := TransformLine(line, parse, stringify)[0];
      var content := DeltaContent(parse(Strings.Trim(line[6..])).value).value;
      |frame| >= 8 && frame[..6] == "data: " && frame[|frame| - 2..] == "\n\n"
      && parse(frame[6..|frame| - 2]) == Some(DeltaEvent(content))
  {
    var data := Strings.Trim(line[6..]);
    var content := DeltaContent(parse(data).value).value;
    var body := stringify(DeltaEvent(content));
    var frame := "data: " + body + "\n\n";
    assert TransformLine(line, parse, stringify) == [frame];
    assert frame[6..|frame| - 2] == body;
    if |body| == 0 {
      assert parse(stringify(DeltaEvent(content))) == Some(DeltaEvent(content));
    }
  }

  /** Every chunk, concatenated. */
  function Concat(chunks: seq<string>): string
    decreases |chunks|
  {
    if chunks == [] then "" else Concat(chunks[..|chunks| - 1]) + chunks[|chunks| - 1]
  }

  /** The newline-terminated lines of a text; the unterminated tail is not one of them. */
  function CompleteLines(text: string): (lines: seq<string>)
    ensures forall i :: 0 <= i < |lines| ==> '\n' !in lines[i]
  {
    var parts := Strings.Split(text, '\n');
    parts[..|parts| - 1]
  }

  /** The frames a transform gives for a sequence of lines, in order. */
  function Frames(lines: seq<string>, transform: string -> seq<string>): seq<string>
    decreases |lines|
  {
    if lines == [] then []
    else Frames(lines[..|lines| - 1], transform) + transform(lines[|lines| - 1])
  }

  /** The transform the OpenAI stream applies to each complete line. */
  function Transform(parse: string -> Option<JsValue>, stringify: JsValue -> string): string -> seq<string>
  {
    line => TransformLine(line, parse, stringify)
  }

  /**
   * One step of the line buffer: `lines = (buffer + chunk).split('\n')`,
   * `buffer = lines.pop()`. The complete lines, each followed by `\n`, and
   * then the new buffer spell out the old buffer plus the chunk, and the new
   * buffer holds no `\n`.
   */
  lemma BufferStep(buffer: string, chunk: string)
    ensures var parts := Strings.Split(buffer + chunk, '\n');
      var complete, rest := parts[..|parts| - 1], parts[|parts| - 1];
      Strings.Join(complete + [rest], "\n") == buffer + chunk && '\n' !in rest
  {
    var parts := Strings.Split(buffer + chunk, '\n');
    Strings.JoinSplit(buffer + chunk, '\n');
    assert parts[..|parts| - 1] + [parts[|parts| - 1]] == parts;
  }

  lemma FramesSnoc(lines: seq<string>, line: string, transform: string -> seq<string>)
    ensures Frames(lines + [line], transform) == Frames(lines, transform) + transform(line)
  {
    assert (lines + [line])[..|lines|] == lines;
  }

  /** Concatenating one more chunk appends it. */
  lemma ConcatStep(chunks: seq<string>, i: nat)
    requires i < |chunks|
    ensures Concat(chunks[..i + 1]) == Concat(chunks[..i]) + chunks[i]
  {
    assert chunks[..i + 1][..i] == chunks[..i];
  }

  /** Replacing the last piece of `lines + [buffer]` by the pieces `parts`. */
  lemma ReplaceLast<T>(px: seq<T>, lines: seq<T>, buffer: T, parts: seq<T>)
    requires px == lines + [buffer] && |parts| >= 1
    ensures px[|px| - 1] == buffer
    ensures px[..|px| - 1] + parts == (lines + parts[..|parts| - 1]) + [parts[|parts| - 1]]
  {
    assert px[..|px| - 1] == lines;
    Strings.InitLast(parts);
    Strings.AppendAssoc(lines, parts[..|parts| - 1], [parts[|parts| - 1]]);
  }

  /** The buffer invariant survives one chunk. */
  lemma BufferInvariantStep(chunks: seq<string>, i: nat, lines: seq<string>, buffer: string)
    requires i < |chunks|
    requires Strings.Split(Concat(chunks[..i]), '\n') == lines + [buffer]
    ensures var parts := Strings.Split(buffer + chunks[i], '\n');
      Strings.Split(Concat(chunks[..i + 1]), '\n') == (lines + parts[..|parts| - 1]) + [parts[|parts| - 1]]
  {
    var before := Concat(chunks[..i]);
    ConcatStep(chunks, i);
    Strings.SplitAppend(before, chunks[i], '\n');
    ReplaceLast(Strings.Split(before, '\n'), lines, buffer, Strings.Split(buffer + chunks[i], '\n'));
  }

  /** Once every chunk is in, the lines emitted are the complete lines of the whole stream. */
  lemma BufferAtEnd(chunks: seq<string>, lines: seq<string>, buffer: string)
    requires Strings.Split(Concat(chunks), '\n') == lines + [buffer]
    ensures CompleteLines(Concat(chunks)) == lines
  {
    assert (lines + [buffer])[..|lines|] == lines;
  }

  /** Enqueueing the `k`-th complete line of a chunk adds that line's frames. */
  lemma EnqueueStep(done: seq<string>, complete: seq<string>, k: nat, transform: string -> seq<string>)
    requires k < |complete|
    ensures Frames(done + complete[..k + 1], transform) == Frames(done + complete[..k], transform) + transform(complete[k])
  {
    Strings.AppendAssoc(done, complete[..k], [complete[k]]);
    assert complete[..k] + [complete[k]] == complete[..k + 1];
    FramesSnoc(done + complete[..k], complete[k], transform);
  }

  /** `for (const line of lines)`: transform and enqueue each complete line of one chunk. */
  method EnqueueLines(out: seq<string>, ghost done: seq<string>, complete: seq<string>, transform: string -> seq<string>)
    returns (out': seq<string>)
    requires out == Frames(done, transform)
    ensures out' == Frames(done + complete, transform)
  {
    out' := out;
    var k := 0;
    assert done + complete[..0] == done;
    while k < |complete|
      invariant 0 <= k <= |complete|
      invariant out' == Frames(done + complete[..k], transform)
    {
      EnqueueStep(done, complete, k, transform);
      out' := out' + transform(complete[k]);
      k := k + 1;
    }
    assert complete[..k] == complete;
  }

  /**
   * The `start` loop of the OpenAI stream: each chunk is appended to the
   * buffer, the buffer is split at `\n`, the last piece is kept as the new
   * buffer and every other piece is transformed and enqueued. What is
   * enqueued is exactly the frames of the complete lines of the whole
   * stream: where the chunks were cut does not matter, and a final line
   * without `\n` produces nothing.
   */
  method RelayStream(chunks: seq<string>, parse: string -> Option<JsValue>, stringify: JsValue -> string)
    returns (out: seq<string>)
    ensures out == Frames(CompleteLines(Concat(chunks)), Transform(parse, stringify))
  {
    var transform := Transform(parse, stringify);
    var buffer := "";
    ghost var lines: seq<string> := [];
    out := [];
    var i := 0;
    assert chunks[..0] == [];
    while i < |chunks|
      invariant 0 <= i <= |chunks|
      invariant Strings.Split(Concat(chunks[..i]), '\n') == lines + [buffer]
      invariant out == Frames(lines, transform)
    {
      var parts := Strings.Split(buffer + chunks[i], '\n');
      var complete := parts[..|parts| - 1];
      BufferInvariantStep(chunks, i, lines, buffer);
      buffer := parts[|parts| - 1];
      out := EnqueueLines(out, lines, complete, transform);
      lines := lines + complete;
      i := i + 1;
    }
    assert chunks[..i] == chunks;
    BufferAtEnd(chunks, lines, buffer);
  }
}
