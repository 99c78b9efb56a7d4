/** `handleHttpError`: how a handler's error becomes a response. An error carrying a
    status code, found along the wrapping chain, decides the status; any other error is a
    500 with its own text. */
module HttpError {
  import opened Wrappers
  import Strs

  /** An error value: a plain message, an `errorWithCode`, or a `%w` wrap adding a prefix.
      `errorWithCode` has no `Unwrap`, so the chain stops at it. */
  datatype Error = Plain(msg: string) | Coded(inner: Error, code: nat) | Wrapped(prefix: string, inner: Error)

  /** `Error()`: the coded form renders as "code N: " before the inner text. */
  function Message(e: Error): string {
    match e
    case Plain(m) => m
    case Coded(inner, c) => "code " + Strs.NatToString(c) + ": " + Message(inner)
    case Wrapped(p, inner) => p + Message(inner)
  }

  /** The errors `errors.As` visits: `e`, then what `Unwrap` returns, until it has none. */
  function Chain(e: Error): (c: seq<Error>)
    ensures |c| >= 1 && c[0] == e
  {
    match e
    case Wrapped(_, inner) => [e] + Chain(inner)
    case _ => [e]
  }

  /** `c[i]` is the first coded error in `c`. */
  predicate FirstCodedAt(c: seq<Error>, i: int) {
    0 <= i < |c| && c[i].Coded? && forall j :: 0 <= j < i ==> !c[j].Coded?
  }

  /** `errors.As(err, &ec)`: the first `errorWithCode` along the unwrap chain, and none
      exactly when the chain holds none. */
  function FindCoded(e: Error): (r: Option<Error>)
    ensures r.None? <==> forall i :: 0 <= i < |Chain(e)| ==> !Chain(e)[i].Coded?
    ensures r.Some? ==> exists i :: FirstCodedAt(Chain(e), i) && Chain(e)[i] == r.value
  {
    match e
    case Plain(_) => None
    case Coded(_, _) =>
      assert FirstCodedAt(Chain(e), 0);
      Some(e)
    case Wrapped(_, inner) =>
      var r := FindCoded(inner);
      var c := Chain(inner);
      assert Chain(e) == [e] + c;
      assert forall i :: 1 <= i < |Chain(e)| ==> Chain(e)[i] == c[i - 1];
      assert r.Some? ==> exists i :: FirstCodedAt(Chain(e), i) && Chain(e)[i] == r.value by {
        if r.Some? {
          var i :| FirstCodedAt(c, i) && c[i] == r.value;
          assert FirstCodedAt(Chain(e), i + 1);
        }
      }
      r
  }

  /** What the handler does: nothing for a nil error; otherwise log, then answer with a
      status and a body (`http.Error` ends the body with a newline). */
  datatype Response = Nothing | Respond(logged: bool, status: nat, body: string)

  function HandleHttpError(err: Option<Error>): (r: Response)
    ensures err.None? <==> r == Nothing
    ensures r.Respond? ==> r.logged
    ensures err.Some? && FindCoded(err.value).None? ==> r == Respond(true, 500, Message(err.value) + "\n")
  {
    if err.None? then Nothing
    else
      match FindCoded(err.value)
      case Some(ec) => Respond(true, ec.code, Message(ec) + "\n")
      case None => Respond(true, 500, Message(err.value) + "\n")
  }

  /** Wrapping an error with `%w` keeps its status; a coded error's own status and text
      are used however deeply it is wrapped, and an outer code hides inner ones. */
  lemma {:induction false} WrappedKeepsStatus(p: string, e: Error)
    ensures HandleHttpError(Some(Wrapped(p, e))).status == HandleHttpError(Some(e)).status
    ensures FindCoded(e).Some? ==> HandleHttpError(Some(Wrapped(p, e))) == HandleHttpError(Some(e))
  {
  }

  lemma CodedResponse(inner: Error, c: nat)
    ensures HandleHttpError(Some(Coded(inner, c))) ==
      Respond(true, c, "code " + Strs.NatToString(c) + ": " + Message(inner) + "\n")
  {
  }

  /** The status is 500 exactly when no coded error is on the chain or the first one
      carries 500. */
  lemma {:induction false} StatusIs500(e: Error)
    ensures HandleHttpError(Some(e)).status == 500 <==>
      FindCoded(e).None? || FindCoded(e).value.code == 500
  {
  }

  /** A handler's answer to a request it refuses with `code`: the reason wrapped in an
      `errorWithCode`, handed to `HandleHttpError`. */
  function Refused(code: nat, msg: string): (r: Response)
    ensures r.Respond? && r.logged && r.status == code
  {
    CodedResponse(Plain(msg), code);
    HandleHttpError(Some(Coded(Plain(msg), code)))
  }

  /** The body of a refusal: the code, then the reason, then a line end. */
  lemma RefusalText(code: nat, digits: string, msg: string, body: string)
    requires Strs.NatToString(code) == digits && body == "code " + digits + ": " + msg + "\n"
    ensures Refused(code, msg) == Respond(true, code, body)
  {
    CodedResponse(Plain(msg), code);
  }

  lemma Digits40()
    ensures Strs.NatToString(40) == "40"
  {
    assert Strs.NatToString(4) == "4";
  }
}
