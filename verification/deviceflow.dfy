/** The device-flow token records of the control plane. A CLI starts a login and gets a
    request id; once a token is recorded under that request it polls the token out, and
    the authentication middlewares accept requests carrying a registered token.
    The identifier generator, the OAuth provider and the JSON encoding of the token
    information are parameters; a store failure inside a transaction (a panic of the
    sugared transaction) is reported with the engine's text, `storeText`. */
module DeviceFlow {
  import opened Wrappers
  import opened Store
  import HttpError

  /** Where a server keeps its open token requests and its registered tokens. */
  datatype Layout = Layout(requests: Path, tokens: Path)

  /** The layout of the server package. */
  const ServerLayout := Layout(["auth", "open_token_requests"], ["auth", "tokens"])

  /** Requests and tokens live in separate subtrees. */
  predicate Apart(lay: Layout) {
    Disjoint(lay.requests, lay.tokens)
  }

  function RequestPath(lay: Layout, id: string): Path { lay.requests + [id] }
  function TokenField(lay: Layout, id: string): Path { lay.requests + [id, "token"] }
  function TokenPath(lay: Layout, token: string): Path { lay.tokens + [token] }

  /** A path below `requests` is disjoint from every token path. */
  lemma RequestsBesideTokens(lay: Layout, rest: Path, token: string)
    requires Apart(lay) && |rest| > 0
    ensures Disjoint(lay.requests + rest, TokenPath(lay, token))
  {
    var p := lay.requests + rest;
    var q := TokenPath(lay, token);
    assert IsPrefix(lay.requests, p) && IsPrefix(lay.tokens, q);
    DisjointBelow(lay.requests, p, lay.tokens);
    DisjointBelow(lay.tokens, q, p);
  }

  lemma ServerApart()
    ensures Apart(ServerLayout)
  {
    assert ServerLayout.requests[1] != ServerLayout.tokens[1];
  }

  /** The transaction that records `token` for request `id` and registers it. */
  function IssueToken(st: Node, lay: Layout, id: string, token: string, info: Bytes): (r: Result<Node, StoreError>)
    requires WF(st)
    ensures r.Ok? ==> WF(r.value)
  {
    var s1 :- Put(st, TokenField(lay, id), token);
    Put(s1, TokenPath(lay, token), info)
  }

  /** A recorded token reads back under the request, and is registered with its info. */
  lemma IssueTokenRecords(st: Node, lay: Layout, id: string, token: string, info: Bytes)
    requires WF(st) && Apart(lay) && IssueToken(st, lay, id, token, info).Ok?
    ensures var s := IssueToken(st, lay, id, token, info).value;
      Get(s, TokenField(lay, id)) == Ok(token) && Get(s, TokenPath(lay, token)) == Ok(info)
  {
    var s1 := Put(st, TokenField(lay, id), token).value;
    WriteHere(st, TokenField(lay, id), Some(Value(token)));
    WriteHere(s1, TokenPath(lay, token), Some(Value(info)));
    assert TokenField(lay, id) == lay.requests + [id, "token"];
    RequestsBesideTokens(lay, [id, "token"], token);
    WriteFrame(s1, TokenPath(lay, token), Some(Value(info)), TokenField(lay, id));
  }

  /* ---------------------------------------------------------------- the OAuth callback */

  /** What a handler leaves behind: the store after its transaction (unchanged when none
      committed) and the error response its deferred `handleHttpError` writes. */
  datatype Reply = Reply(after: Node, response: HttpError.Response) | NilResult

  /** `authOauth2Callback` of the server. `code` is the provider's result (`None` for a
      nil result) and `cbErr` its error; `tokenId` is the identifier generator's answer. */
  function Callback(st: Node, code: Option<string>, cbErr: Option<HttpError.Error>,
                    tokenId: Result<string, HttpError.Error>, info: Bytes,
                    storeText: StoreError -> string): (r: Reply)
    requires WF(st)
    ensures cbErr.Some? && code.None? ==> r == Reply(st, HttpError.HandleHttpError(cbErr))
    ensures cbErr.Some? && code.Some? ==>
      r.Reply? && r.response == HttpError.HandleHttpError(cbErr) &&
      (r.after == st || Get(r.after, TokenField(ServerLayout, code.value)[..3] + ["error"]) == Ok(HttpError.Message(cbErr.value)))
    ensures cbErr.None? && tokenId.Err? ==> r == Reply(st, HttpError.HandleHttpError(Some(tokenId.error)))
    ensures r == NilResult <==> cbErr.None? && tokenId.Ok? && code.None?
    ensures cbErr.None? && code.Some? && tokenId.Ok? ==>
      r.Reply? && (r.response == HttpError.Nothing <==> IssueToken(st, ServerLayout, code.value, tokenId.value, info).Ok?)
    ensures r.Reply? && r.response == HttpError.Nothing ==>
      cbErr.None? && code.Some? && tokenId.Ok? &&
      r.after == IssueToken(st, ServerLayout, code.value, tokenId.value, info).value
  {
    if cbErr.Some? then
      if code.None? then Reply(st, HttpError.HandleHttpError(cbErr))
      else
        var p := ServerLayout.requests + [code.value, "error"];
        assert TokenField(ServerLayout, code.value)[..3] + ["error"] == p;
        match Put(st, p, HttpError.Message(cbErr.value))
        case Ok(s) =>
          WriteHere(st, p, Some(Value(HttpError.Message(cbErr.value))));
          Reply(s, HttpError.HandleHttpError(cbErr))
        // the write's own error is dropped; the provider's error is reported
        case Err(_) => Reply(st, HttpError.HandleHttpError(cbErr))
    // the identifier is drawn before the nil result is dereferenced
    else if tokenId.Err? then Reply(st, HttpError.HandleHttpError(Some(tokenId.error)))
    else if code.None? then NilResult
    else
      match IssueToken(st, ServerLayout, code.value, tokenId.value, info)
      case Ok(s) => Reply(s, HttpError.Nothing)
      case Err(e) => Reply(st, HttpError.HandleHttpError(Some(HttpError.Plain(storeText(e)))))
  }

  /** A provider error never registers a token. */
  lemma CallbackErrorIssuesNoToken(st: Node, code: Option<string>, e: HttpError.Error,
                                   tokenId: Result<string, HttpError.Error>, info: Bytes,
                                   storeText: StoreError -> string, t: string)
    requires WF(st)
    ensures var r := Callback(st, code, Some(e), tokenId, info, storeText);
      r.Reply? && (Exists(r.after, TokenPath(ServerLayout, t)) <==> Exists(st, TokenPath(ServerLayout, t)))
  {
    var r := Callback(st, code, Some(e), tokenId, info, storeText);
    if code.Some? && r.after != st {
      var rest := [code.value, "error"];
      ServerApart();
      RequestsBesideTokens(ServerLayout, rest, t);
      WriteFrame(st, ServerLayout.requests + rest, Some(Value(HttpError.Message(e))), TokenPath(ServerLayout, t));
    }
  }

  /** A successful callback records the token under the request and registers it. */
  lemma CallbackIssues(st: Node, code: string, t: string, info: Bytes, storeText: StoreError -> string)
    requires WF(st) && IssueToken(st, ServerLayout, code, t, info).Ok?
    ensures var r := Callback(st, Some(code), None, Ok(t), info, storeText);
      r.Reply? && r.response == HttpError.Nothing &&
      Get(r.after, TokenField(ServerLayout, code)) == Ok(t) && Get(r.after, TokenPath(ServerLayout, t)) == Ok(info)
  {
    ServerApart();
    IssueTokenRecords(st, ServerLayout, code, t, info);
  }

  /* ---------------------------------------------------------------- login start and poll */

  /** The body of a login start: the request id and where to verify it. */
  datatype StartResponse = StartResponse(tokenRequestId: string, verificationUri: string)

  /** `url.URL{Scheme, Host, Path: "/auth/verify"}.String()`: the authority part is written
      only when there is a scheme or a host (host escaping is not modelled). */
  function VerificationUri(scheme: string, host: string): (r: string)
    ensures scheme == "" && host == "" ==> r == "/auth/verify"
    ensures scheme == "" && host != "" ==> r == "//" + host + "/auth/verify"
  {
    (if scheme != "" then scheme + ":" else "") +
    (if scheme != "" || host != "" then "//" + host else "") +
    "/auth/verify"
  }

  /** What `loginStart` leaves behind: the store, the body it encoded (if any), and the
      error response its deferred handler writes after it. */
  datatype StartReply = StartReply(after: Node, body: Option<StartResponse>, response: HttpError.Response)

  /** The transaction of a login start: the request map, its token, the token's record. */
  function StartTx(st: Node, lay: Layout, rid: string, token: string, info: Bytes): (r: Result<Node, StoreError>)
    requires WF(st)
    ensures r.Ok? ==> WF(r.value)
  {
    var s1 :- CreateMap(st, RequestPath(lay, rid));
    IssueToken(s1, lay, rid, token, info)
  }

  /** `loginStart` of the older control plane. A failed transaction still sends the body,
      with the error written after it. */
  function LoginStart(st: Node, lay: Layout, requestId: Result<string, HttpError.Error>,
                      tokenId: Result<string, HttpError.Error>, info: Bytes, scheme: string, host: string,
                      storeText: StoreError -> string): (r: StartReply)
    requires WF(st)
    ensures requestId.Err? ==> r == StartReply(st, None, HttpError.HandleHttpError(Some(requestId.error)))
    ensures requestId.Ok? && tokenId.Err? ==> r == StartReply(st, None, HttpError.HandleHttpError(Some(tokenId.error)))
    ensures requestId.Ok? && tokenId.Ok? ==>
      r.body == Some(StartResponse(requestId.value, VerificationUri(scheme, host))) &&
      (r.response == HttpError.Nothing <==> StartTx(st, lay, requestId.value, tokenId.value, info).Ok?) &&
      r.after == (if r.response == HttpError.Nothing then StartTx(st, lay, requestId.value, tokenId.value, info).value else st)
  {
    if requestId.Err? then StartReply(st, None, HttpError.HandleHttpError(Some(requestId.error)))
    else if tokenId.Err? then StartReply(st, None, HttpError.HandleHttpError(Some(tokenId.error)))
    else
      var body := Some(StartResponse(requestId.value, VerificationUri(scheme, host)));
      match StartTx(st, lay, requestId.value, tokenId.value, info)
      case Ok(s) => StartReply(s, body, HttpError.Nothing)
      case Err(e) =>
        assert HttpError.HandleHttpError(Some(HttpError.Plain(storeText(e)))) != HttpError.Nothing;
        StartReply(st, body, HttpError.HandleHttpError(Some(HttpError.Plain(storeText(e)))))
  }

  /** The body of a token poll; an empty field is left out of the JSON. */
  datatype TokenResponse = TokenResponse(accessToken: string, error: string)

  datatype PollReply = Answer(resp: TokenResponse) | Refusal(response: HttpError.Response)

  /** `accessToken`. `request` is the decoded request id, or the decoder's error text. */
  function AccessToken(st: Node, lay: Layout, request: Result<string, string>,
                       storeText: StoreError -> string): (r: PollReply)
    ensures request.Err? ==> r == Refusal(HttpError.HandleHttpError(Some(
      HttpError.Coded(HttpError.Wrapped("while decoding request: ", HttpError.Plain(request.error)), 400))))
    ensures request.Ok? && !Exists(st, RequestPath(lay, request.value)) ==>
      r == Refusal(HttpError.Refused(404, "request not found"))
    ensures request.Ok? && Exists(st, RequestPath(lay, request.value)) && !Exists(st, TokenField(lay, request.value)) ==>
      r == Answer(TokenResponse("", "authorization_pending"))
    ensures r.Answer? && r.resp.error == "" ==>
      request.Ok? && Get(st, TokenField(lay, request.value)) == Ok(r.resp.accessToken)
  {
    match request
    case Err(e) =>
      Refusal(HttpError.HandleHttpError(Some(
        HttpError.Coded(HttpError.Wrapped("while decoding request: ", HttpError.Plain(e)), 400))))
    case Ok(rid) =>
      if !Exists(st, RequestPath(lay, rid)) then Refusal(HttpError.Refused(404, "request not found"))
      else if !Exists(st, TokenField(lay, rid)) then Answer(TokenResponse("", "authorization_pending"))
      else
        match Get(st, TokenField(lay, rid))
        case Ok(d) => Answer(TokenResponse(d, ""))
        case Err(e) => Refusal(HttpError.HandleHttpError(Some(HttpError.Plain(storeText(e)))))
  }

  /** An undecodable poll is a 400. */
  lemma UndecodablePollIs400(st: Node, lay: Layout, e: string, storeText: StoreError -> string)
    ensures AccessToken(st, lay, Err(e), storeText).Refusal?
    ensures AccessToken(st, lay, Err(e), storeText).response.status == 400
  {
  }

  /** The login round trip: once a login start has committed, polling its request id
      returns the issued token, and that token is registered. */
  lemma LoginThenPoll(st: Node, lay: Layout, rid: string, token: string, info: Bytes, scheme: string,
                      host: string, storeText: StoreError -> string)
    requires WF(st) && Apart(lay)
    requires LoginStart(st, lay, Ok(rid), Ok(token), info, scheme, host, storeText).response == HttpError.Nothing
    ensures var s := LoginStart(st, lay, Ok(rid), Ok(token), info, scheme, host, storeText).after;
      AccessToken(s, lay, Ok(rid), storeText) == Answer(TokenResponse(token, "")) &&
      Get(s, TokenPath(lay, token)) == Ok(info)
  {
    var s1 := CreateMap(st, RequestPath(lay, rid)).value;
    var s := IssueToken(s1, lay, rid, token, info).value;
    IssueTokenRecords(s1, lay, rid, token, info);
    assert IsPrefix(RequestPath(lay, rid), TokenField(lay, rid)) by {
      assert TokenField(lay, rid)[..|RequestPath(lay, rid)|] == RequestPath(lay, rid);
    }
    PrefixExists(s, RequestPath(lay, rid), TokenField(lay, rid));
  }
}
