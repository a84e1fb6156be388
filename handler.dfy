/** The request handler as a pure function from an abstract request and the
    upstream service's behaviour to the HTTP status and `message` it answers
    with. The outbound call is the parameter `upstream`: given the history
    sent, it says how the call ended. */
module Handler {
  import opened JsString
  import opened Wrappers
  import opened History
  import opened Sanitizer

  /** The statuses for which a fetch `Response` has `ok` false. */
  type FailureStatus = s: int | s < 200 || 299 < s witness 500

  /** `req.body`. Destructuring `null` or `undefined` throws a TypeError, whose
      message (worded by the JavaScript engine) is `error`. */
  datatype Body =
    | Unreadable(error: JsStr)
    | Fields(conversation: Option<Conversation>)

  /** `req.method` and `req.body`. */
  datatype Request = Request(verb: JsStr, body: Body)

  /** `responseData.choices?.[0]?.message?.content`: missing or falsy, a
      string, or some other truthy value on which `trim` throws a TypeError
      with message `error`. */
  datatype Content =
    | Absent
    | Str(text: JsStr)
    | NotText(error: JsStr)

  /** How the outbound call ended: with an exception (network failure, a body
      that is no JSON), with a status that is not ok, or with a JSON reply. */
  datatype Upstream =
    | Throws(message: JsStr)
    | NotOk(status: FailureStatus, statusText: JsStr)
    | Ok(content: Content)

  datatype Response = Response(status: int, message: JsStr)

  /** The response, and whether the progress-format warning was logged. */
  datatype Outcome = Outcome(response: Response, progressWarning: bool)

  /** How much of an exception's message reaches the client. */
  const ErrorExcerpt: nat := 200

  const Post: JsStr := Units("POST")
  const InternalErrorTag: JsStr := Units("Internal Error: ")
  const ApiErrorTag: JsStr := Units("API Error: ")

  function MethodNotAllowed(): Response {
    Response(405, Units("Method not allowed"))
  }

  /** The `catch` branch. */
  function InternalError(message: JsStr): (r: Response)
    ensures r.status == 500
    ensures InternalErrorTag <= r.message
    ensures |r.message| == |InternalErrorTag| + Min(ErrorExcerpt, |message|)
    ensures r.message[|InternalErrorTag|..] <= message
  {
    Response(500, InternalErrorTag + Prefix(message, ErrorExcerpt))
  }

  /** The not-ok branch: the upstream status, and its status text. */
  function ApiError(status: FailureStatus, statusText: JsStr): (r: Response)
    ensures r.status == status
    ensures ApiErrorTag <= r.message && r.message[|ApiErrorTag|..] == statusText
  {
    Response(status, ApiErrorTag + statusText)
  }

  /** The not-ok answer loses nothing: the client can read back both the
      upstream status and its status text. */
  lemma ApiErrorFaithful(s1: FailureStatus, t1: JsStr, s2: FailureStatus, t2: JsStr)
    ensures ApiError(s1, t1) == ApiError(s2, t2) <==> s1 == s2 && t1 == t2
  {
    if ApiError(s1, t1) == ApiError(s2, t2) {
      assert t1 == ApiError(s1, t1).message[|ApiErrorTag|..];
    }
  }

  /** The raw text the sanitiser gets on the success path when the content is
      usable. */
  function RawContent(c: Content): JsStr
    requires !c.NotText?
  {
    if c.Str? then c.text else []
  }

  /** The whole handler. `hasProgressMarker` stands for the regular expression
      test of line 117; it decides only whether a warning is logged. */
  function Handle(req: Request, upstream: Conversation -> Upstream, hasProgressMarker: JsStr -> bool): (o: Outcome)
    ensures o.response.status == 200 ==>
      |o.response.message| <= MaxReplyLength && NoReplacement(o.response.message)
    ensures o.progressWarning ==> o.response.status == 200
  {
    if req.verb != Post then Outcome(MethodNotAllowed(), false)
    else
      match req.body
      case Unreadable(e) => Outcome(InternalError(e), false)
      case Fields(conversation) =>
        match upstream(HistoryFor(conversation))
        case Throws(m) => Outcome(InternalError(m), false)
        case NotOk(status, text) => Outcome(ApiError(status, text), false)
        case Ok(NotText(e)) => Outcome(InternalError(e), false)
        case Ok(content) =>
          var clean := Sanitize(RawContent(content));
          Outcome(Response(200, clean), !hasProgressMarker(clean))
  }

  // ---------------------------------------------------------------------
  // Properties of the handler

  /** Any method but POST gets 405 "Method not allowed", whatever the upstream
      service would have done: it is never called. */
  lemma NonPostRejected(req: Request, u1: Conversation -> Upstream, u2: Conversation -> Upstream,
                        p1: JsStr -> bool, p2: JsStr -> bool)
    requires req.verb != Post
    ensures Handle(req, u1, p1).response == MethodNotAllowed()
    ensures Handle(req, u1, p1) == Handle(req, u2, p2)
  {
  }

  /** The upstream service is consulted only on the injected history: two
      services that answer that history alike give the same outcome. */
  lemma UpstreamSeesInjectedHistory(req: Request, u1: Conversation -> Upstream, u2: Conversation -> Upstream,
                                    p: JsStr -> bool)
    requires req.body.Fields? ==> u1(HistoryFor(req.body.conversation)) == u2(HistoryFor(req.body.conversation))
    ensures Handle(req, u1, p) == Handle(req, u2, p)
  {
  }

  /** The progress-format check is diagnostic only: it never changes the
      status or the message. */
  lemma ProgressCheckIsDiagnostic(req: Request, u: Conversation -> Upstream, p1: JsStr -> bool, p2: JsStr -> bool)
    ensures Handle(req, u, p1).response == Handle(req, u, p2).response
  {
  }

  /** For a POST, the status is 200 exactly when the body was readable and
      the upstream call succeeded with usable content. A not-ok upstream
      status is passed through with "API Error: " and the status text. Every
      exception (an unreadable body, a failed call, content on which `trim`
      throws) becomes the `catch` answer: 500 with "Internal Error: " and at
      most 200 code units of its message. Success gives the sanitised
      content. */
  lemma StatusMapping(req: Request, u: Conversation -> Upstream, p: JsStr -> bool)
    requires req.verb == Post
    ensures var r := Handle(req, u, p).response;
      && (200 <= r.status <= 299 ==> r.status == 200)
      && (req.body.Unreadable? ==> r == InternalError(req.body.error))
      && (req.body.Fields? ==>
            var out := u(HistoryFor(req.body.conversation));
            && (r.status == 200 <==> out.Ok? && !out.content.NotText?)
            && (out.NotOk? ==> r == ApiError(out.status, out.statusText))
            && (out.Throws? ==> r == InternalError(out.message))
            && (out.Ok? && out.content.NotText? ==> r == InternalError(out.content.error))
            && (out.Ok? && out.content.Str? ==> r == Response(200, Sanitize(out.content.text))))
  {
  }

  /** A success reply without content is answered with 200 and an empty
      message. */
  lemma MissingContentIsEmpty(req: Request, u: Conversation -> Upstream, p: JsStr -> bool)
    requires req.verb == Post && req.body.Fields?
    requires u(HistoryFor(req.body.conversation)) == Ok(Absent)
    ensures Handle(req, u, p).response == Response(200, [])
  {
    assert RawContent(Absent) == [];
    EmptyReply();
    assert Handle(req, u, p).response == Response(200, Sanitize(RawContent(Absent)));
  }
}
