/** The two authentication middlewares of the control plane. Both let `/auth...` through,
    extract a token from the Authorization header and accept the request exactly when the
    token is registered in the server's store. */
module Auth {
  import opened Wrappers
  import opened Store
  import Strs
  import Base64

  /** What the middleware does with a request. `Unauthorized(challenge)` is a 401, with a
      `WWW-Authenticate: Basic realm="Kartusche"` header when `challenge`. */
  datatype Verdict = Forward | Unauthorized(challenge: bool) | ServerError(msg: string)

  const AuthPrefix := "/auth"
  const TokensPath: Path := ["auth", "tokens"]

  /** The token carried by a header (the empty string stands for a missing header):
      `Bearer <rest>`, or `Basic <base64 of user:password>` giving the password, with the
      scheme compared case-insensitively. */
  function HeaderToken(header: string): (r: Option<string>)
    ensures header == "" ==> r.None?
    ensures r.Some? ==> Strs.Contains(header, ' ')
  {
    if header == "" then None
    else
      var cut := Strs.Cut(header, ' ');
      if !cut.2 then None
      else
        var scheme := Strs.LowerAscii(cut.0);
        if scheme == "bearer" then Some(cut.1)
        else if scheme == "basic" then
          var decoded :- Base64.Decode(cut.1);
          var up := Strs.Cut(decoded, ':');
          if up.2 then Some(up.1) else None
        else None
  }

  /** `authMiddleware` of the server. `readErr` is the failure, if any, of the read
      transaction that checks the token. */
  function Middleware(urlPath: string, header: string, st: Node, readErr: Option<string>): (r: Verdict)
    ensures Strs.HasPrefix(urlPath, AuthPrefix) ==> r == Forward
    ensures !Strs.HasPrefix(urlPath, AuthPrefix) ==>
      (r == Forward <==> HeaderToken(header).Some? && readErr.None? && Exists(st, TokensPath + [HeaderToken(header).value]))
    ensures r.Unauthorized? ==> r.challenge
    ensures r.ServerError? <==> !Strs.HasPrefix(urlPath, AuthPrefix) && HeaderToken(header).Some? && readErr.Some?
  {
    if Strs.HasPrefix(urlPath, AuthPrefix) then Forward
    else
      match HeaderToken(header)
      case None => Unauthorized(true)
      case Some(tkn) =>
        if readErr.Some? then ServerError(readErr.value)
        else if Exists(st, TokensPath + [tkn]) then Forward
        else Unauthorized(true)
  }

  /** A bearer header carries everything after the first space, spaces included, whatever
      the case of the scheme. */
  lemma BearerToken(scheme: string, t: string)
    requires Strs.LowerAscii(scheme) == "bearer" && !Strs.Contains(scheme, ' ')
    ensures HeaderToken(scheme + " " + t) == Some(t)
  {
    var h := scheme + " " + t;
    assert h == scheme + [' '] + t;
    Strs.CutAt(scheme, ' ', t);
  }

  /** A basic header with user and password joined by `:` carries the password, as long as
      the user name has no colon. */
  lemma BasicToken(scheme: string, user: string, pw: string)
    requires Strs.LowerAscii(scheme) == "basic" && !Strs.Contains(scheme, ' ')
    requires !Strs.Contains(user, ':') && Base64.AllBytes(user + ":" + pw)
    ensures HeaderToken(scheme + " " + Base64.Encode(user + ":" + pw)) == Some(pw)
  {
    var enc := Base64.Encode(user + ":" + pw);
    assert scheme + " " + enc == scheme + [' '] + enc;
    Strs.CutAt(scheme, ' ', enc);
    Base64.RoundTrip(user + ":" + pw);
    assert user + ":" + pw == user + [':'] + pw;
    Strs.CutAt(user, ':', pw);
  }

  /** The older bearer-only `authMiddleware`: the header must split on single spaces into
      exactly two parts, the first `bearer` in any case; 401s carry no challenge. The
      tokens map of that server is a parameter. */
  function OldMiddleware(urlPath: string, header: string, tokens: Path, st: Node, readErr: Option<string>): (r: Verdict)
    ensures Strs.HasPrefix(urlPath, AuthPrefix) ==> r == Forward
    ensures !Strs.HasPrefix(urlPath, AuthPrefix) ==>
      (r == Forward <==>
        (header != "" && |Strs.Split(header, ' ')| == 2 &&
         Strs.LowerAscii(Strs.Split(header, ' ')[0]) == "bearer" && readErr.None? &&
         Exists(st, tokens + [Strs.Split(header, ' ')[1]])))
    ensures r.Unauthorized? ==> !r.challenge
  {
    if Strs.HasPrefix(urlPath, AuthPrefix) then Forward
    else if header == "" then Unauthorized(false)
    else
      var parts := Strs.Split(header, ' ');
      if |parts| != 2 then Unauthorized(false)
      else if Strs.LowerAscii(parts[0]) != "bearer" then Unauthorized(false)
      else if readErr.Some? then ServerError(readErr.value)
      else if Exists(st, tokens + [parts[1]]) then Forward
      else Unauthorized(false)
  }

  /** Where the two differ: the newer middleware takes a bearer token holding a space
      whole, the older one splits it into too many parts and refuses the request. */
  lemma OldRejectsExtraSpace(t: string, tokens: Path, st: Node)
    requires Strs.Contains(t, ' ')
    ensures HeaderToken("Bearer " + t) == Some(t)
    ensures OldMiddleware("/x", "Bearer " + t, tokens, st, None) == Unauthorized(false)
  {
    BearerLower();
    BearerToken("Bearer", t);
    assert "Bearer" + " " == "Bearer ";
    var h := "Bearer " + t;
    SplitSpaced(t);
    assert !Strs.HasPrefix("/x", AuthPrefix) && h != "";
  }

  lemma BearerLower()
    ensures Strs.LowerAscii("Bearer") == "bearer"
  {
    assert "Bearer"[1..] == "earer";
    assert Strs.LowerByte('B') == 'b';
  }

  /** A bearer header whose token holds a space splits into more than two parts. */
  lemma SplitSpaced(t: string)
    requires Strs.Contains(t, ' ')
    ensures |Strs.Split("Bearer " + t, ' ')| > 2
  {
    var h := "Bearer " + t;
    assert h == "Bearer" + [' '] + t;
    Strs.CutAt("Bearer", ' ', t);
    assert Strs.Split(h, ' ') == ["Bearer"] + Strs.Split(t, ' ');
    assert Strs.Cut(t, ' ').2;
  }

  /** The path test is a plain prefix test: `/authx` is let through too. */
  lemma AuthPrefixBypass(header: string, st: Node)
    ensures Middleware("/authx", header, st, None) == Forward
    ensures Middleware("/api", "", st, None) == Unauthorized(true)
  {
    assert Strs.HasPrefix("/authx", AuthPrefix);
    assert !Strs.HasPrefix("/api", AuthPrefix);
  }
}
