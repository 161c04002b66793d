/** The `POST` handler of /api/generate-brochure as one pure function. Its two
    outside collaborators are parameters: the chat-completion call
    (`complete`) and `JSON.parse` (`parse`, which yields None where it throws). */
module Route {
  import opened Wrappers
  import opened Strings
  import opened SectionBuilder
  import opened Prompt
  import opened Fences

  /** A JSON value, object members in insertion order. */
  datatype Json =
    | JNull
    | JBool(b: bool)
    | JNumber(n: real)
    | JString(s: string)
    | JArray(items: seq<Json>)
    | JObject(members: seq<(string, Json)>)

  /** What `NextResponse.json` sends: a status and the serialised value. */
  datatype Response = Response(status: nat, body: Json)

  /** The outcome of the model call: it threw, or it returned a first choice
      whose message content may be absent. */
  datatype Completion = CallFailed | Replied(content: Option<string>)

  const Ok: nat := 200

  const ServerError: nat := 500

  const NoBulletPoints := "No bullet points returned."

  /** The placeholder returned, with status 200, when the reply does not parse. */
  const FallbackBody := JObject([
    ("headline", JString("")),
    ("summary", JString("")),
    ("bulletPoints", JArray([JString(NoBulletPoints)]))
  ])

  const ServerErrorBody := JObject([("error", JString("Server error while generating brochure."))])

  /** Steps 5 and 6: de-fence the completion text and parse it; the parsed value
      is returned as it is, and a parse failure becomes the placeholder. */
  function Interpret(content: Option<string>, parse: string -> Option<Json>): (r: Response)
    ensures r.status == Ok
    ensures parse(DeFence(CompletionText(content))).Some? ==>
              r.body == parse(DeFence(CompletionText(content))).value
    ensures parse(DeFence(CompletionText(content))).None? ==> r.body == FallbackBody
  {
    match parse(DeFence(CompletionText(content)))
    case Some(j) => Response(Ok, j)
    case None => Response(Ok, FallbackBody)
  }

  /** The whole handler. `body` is None when reading the request body as JSON
      (or listing its entries) throws. */
  function Post(body: Option<seq<Entry>>, complete: ChatRequest -> Completion,
                parse: string -> Option<Json>): (r: Response)
    ensures r.status == Ok || r.status == ServerError
    ensures r.status == ServerError <==>
              body.None? || complete(BuildRequest(body.value)).CallFailed?
    ensures r.status == ServerError ==> r.body == ServerErrorBody
  {
    match body
    case None => Response(ServerError, ServerErrorBody)
    case Some(es) =>
      match complete(BuildRequest(es))
      case CallFailed => Response(ServerError, ServerErrorBody)
      case Replied(content) => Interpret(content, parse)
  }

  /** Whatever the model returns and however it parses, a body that could be
      read and a call that did not fail give status 200, and the model saw the
      request built from that body, even when no entry qualified. */
  lemma PostRepliedIsInterpreted(es: seq<Entry>, complete: ChatRequest -> Completion,
                                   parse: string -> Option<Json>)
    requires complete(BuildRequest(es)).Replied?
    ensures Post(Some(es), complete, parse) ==
              Interpret(complete(BuildRequest(es)).content, parse)
    ensures Post(Some(es), complete, parse).status == Ok
  {
  }

  /** The model is consulted only on the request built from the body: two model
      functions that agree there give the same response. */
  lemma PostDependsOnlyOnRequest(es: seq<Entry>, c1: ChatRequest -> Completion,
                                 c2: ChatRequest -> Completion, parse: string -> Option<Json>)
    requires c1(BuildRequest(es)) == c2(BuildRequest(es))
    ensures Post(Some(es), c1, parse) == Post(Some(es), c2, parse)
  {
  }

  /** A failed body read never reaches the model: any two model functions give
      the same 500 response. */
  lemma UnreadableBodySkipsModel(c1: ChatRequest -> Completion, c2: ChatRequest -> Completion,
                                 parse: string -> Option<Json>)
    ensures Post(None, c1, parse) == Post(None, c2, parse) == Response(ServerError, ServerErrorBody)
  {
  }

  /** An absent completion and an empty one are the same input, "" is what the
      parser receives, and if "" does not parse the placeholder comes back. */
  lemma AbsentCompletionIsEmpty(parse: string -> Option<Json>)
    ensures Interpret(None, parse) == Interpret(Some(""), parse)
    ensures parse("").None? ==> Interpret(None, parse) == Response(Ok, FallbackBody)
  {
    assert !StartsWith("", Fence);
  }

  /** A reply that does not start with a fence reaches the parser unchanged. */
  lemma UnfencedReachesParser(text: string, parse: string -> Option<Json>)
    requires !StartsWith(text, Fence)
    ensures Interpret(Some(text), parse) ==
              match parse(text)
              case Some(j) => Response(Ok, j)
              case None => Response(Ok, FallbackBody)
  {
  }

  /** Fence-wrapped JSON is interpreted exactly like its trimmed content sent
      without fences. */
  lemma FencedLikeUnwrapped(c: string, parse: string -> Option<Json>)
    requires !ContainsFence(c)
    ensures Interpret(Some(JsonFence + c + Fence), parse) == Interpret(Some(Trim(c)), parse)
  {
    DeFenceJsonBlock(c);
    TrimNoFence(c);
    var t := Trim(c);
    assert !StartsWith(t, Fence) by {
      if StartsWith(t, Fence) { assert FenceAt(t, 0); }
    }
  }
}
