/** The dynamic routes of a kartusche (`Open`): every `<METHOD>.js` value below `api`
    becomes a route for that method at the path of its directory, without the `api`
    segment, under the runtime's path prefix. */
module Api {
  import opened Wrappers
  import opened Store
  import opened Walk
  import opened Bundle
  import Strs
  import GoPath
  import HttpError

  const ApiRoot: Path := ["api"]

  /** A handler route; the prefix is matched by the router before the path. */
  datatype ApiRoute = ApiRoute(verb: string, prefix: string, path: string, file: Path)

  /** `Open` fails on a store error (a value at `api`) or on the first script, in walk
      order, that does not compile. */
  datatype OpenError = StoreFailed(err: StoreError) | CompileFailed(file: Path, msg: string)

  /** A leaf that defines a handler: its name ends in `.js`. */
  predicate IsScript(q: Path) {
    |q| >= 2 && Strs.HasSuffix(q[|q| - 1], ".js")
  }

  /** The route of the script at `q`. */
  function RouteOf(q: Path, prefix: string): (r: ApiRoute)
    requires |q| >= 2
    ensures r.file == q && r.prefix == prefix
    ensures IsScript(q) ==> r.verb + ".js" == q[|q| - 1]
    ensures |r.path| >= 1 && r.path[0] == '/'
    ensures |q| == 2 ==> r.path == "/"
  {
    ApiRoute(Strs.TrimSuffix(q[|q| - 1], ".js"), prefix, "/" + GoPath.Join(q[1..|q| - 1]), q)
  }

  /** `leaves[i]` is the first script that does not compile, and `e` reports it. */
  predicate FirstFailure(leaves: seq<Item>, i: nat, compile: (Path, Bytes) -> Option<string>, e: OpenError)
    requires i < |leaves| && forall j :: 0 <= j < |leaves| ==> leaves[j].node.Value?
  {
    e.CompileFailed? && leaves[i].path == e.file && IsScript(leaves[i].path) &&
    compile(leaves[i].path, leaves[i].node.data) == Some(e.msg) &&
    forall j :: 0 <= j < i && IsScript(leaves[j].path) ==> compile(leaves[j].path, leaves[j].node.data).None?
  }

  /** Register the leaves in order; `compile` answers the compiler's error, if any. */
  function Build(leaves: seq<Item>, prefix: string, compile: (Path, Bytes) -> Option<string>): (r: Result<seq<ApiRoute>, OpenError>)
    requires forall i :: 0 <= i < |leaves| ==> leaves[i].node.Value?
    ensures r.Ok? <==> forall i :: 0 <= i < |leaves| && IsScript(leaves[i].path) ==>
      compile(leaves[i].path, leaves[i].node.data).None?
    ensures r.Ok? ==> forall rt :: rt in r.value <==>
      exists i :: 0 <= i < |leaves| && IsScript(leaves[i].path) && rt == RouteOf(leaves[i].path, prefix)
    ensures r.Err? ==> exists i :: 0 <= i < |leaves| && FirstFailure(leaves, i, compile, r.error)
  {
    if |leaves| == 0 then Ok([])
    else
      var it := leaves[0];
      if !IsScript(it.path) then
        var r := Build(leaves[1..], prefix, compile);
        assert forall i :: 1 <= i < |leaves| ==> leaves[i] == leaves[1..][i - 1];
        if r.Err? then FailureShift(leaves, compile, r.error); r else r
      else
        match compile(it.path, it.node.data)
        case Some(msg) =>
          assert FirstFailure(leaves, 0, compile, CompileFailed(it.path, msg));
          Err(CompileFailed(it.path, msg))
        case None =>
          var rest := Build(leaves[1..], prefix, compile);
          assert forall i :: 1 <= i < |leaves| ==> leaves[i] == leaves[1..][i - 1];
          if rest.Err? then FailureShift(leaves, compile, rest.error); Err(rest.error)
          else Ok([RouteOf(it.path, prefix)] + rest.value)
  }

  /** A failure after a leaf that compiles, or is no script, is the first one overall. */
  lemma FailureShift(leaves: seq<Item>, compile: (Path, Bytes) -> Option<string>, e: OpenError)
    requires |leaves| > 0 && forall j :: 0 <= j < |leaves| ==> leaves[j].node.Value?
    requires !IsScript(leaves[0].path) || compile(leaves[0].path, leaves[0].node.data).None?
    requires exists i :: 0 <= i < |leaves[1..]| && FirstFailure(leaves[1..], i, compile, e)
    ensures exists i :: 0 <= i < |leaves| && FirstFailure(leaves, i, compile, e)
  {
    var i :| 0 <= i < |leaves[1..]| && FirstFailure(leaves[1..], i, compile, e);
    assert forall j :: 1 <= j <= i + 1 ==> leaves[j] == leaves[1..][j - 1];
    assert FirstFailure(leaves, i + 1, compile, e);
  }

  /** The route table `Open` builds. */
  function ApiRoutes(st: Node, prefix: string, compile: (Path, Bytes) -> Option<string>): (r: Result<seq<ApiRoute>, OpenError>)
    ensures !Exists(st, ApiRoot) ==> r == Ok([])
    ensures Exists(st, ApiRoot) && !IsMapAt(st, ApiRoot) ==> r.Err? && r.error.StoreFailed?
  {
    match Leaves(st, ApiRoot)
    case Err(e) => Err(StoreFailed(e))
    case Ok(leaves) => Build(leaves, prefix, compile)
  }

  /** When every script compiles, the routes are exactly one per script below `api`, with
      the method its name gives, at its directory; other values make no route. */
  lemma ApiRoutesComplete(st: Node, prefix: string, compile: (Path, Bytes) -> Option<string>, rt: ApiRoute)
    requires WF(st) && ApiRoutes(st, prefix, compile).Ok?
    ensures rt in ApiRoutes(st, prefix, compile).value <==>
      exists q, d :: LeafOf(st, ApiRoot, q, d) && IsScript(q) && rt == RouteOf(q, prefix)
  {
    var leaves := Leaves(st, ApiRoot).value;
    if rt in ApiRoutes(st, prefix, compile).value {
      var i :| 0 <= i < |leaves| && IsScript(leaves[i].path) && rt == RouteOf(leaves[i].path, prefix);
      var q, d := leaves[i].path, leaves[i].node.data;
      assert leaves[i] == Item(q, Value(d)) && leaves[i] in leaves;
      LeavesComplete(st, ApiRoot, q, d);
    }
    if exists q, d :: LeafOf(st, ApiRoot, q, d) && IsScript(q) && rt == RouteOf(q, prefix) {
      var q, d :| LeafOf(st, ApiRoot, q, d) && IsScript(q) && rt == RouteOf(q, prefix);
      LeavesComplete(st, ApiRoot, q, d);
      var i :| 0 <= i < |leaves| && leaves[i] == Item(q, Value(d));
    }
  }

  /** `Open` succeeds exactly when every script below `api` compiles (and `api`, if
      present, is a map). */
  lemma ApiOpens(st: Node, prefix: string, compile: (Path, Bytes) -> Option<string>)
    requires WF(st) && (!Exists(st, ApiRoot) || IsMapAt(st, ApiRoot))
    ensures ApiRoutes(st, prefix, compile).Ok? <==>
      forall q, d :: LeafOf(st, ApiRoot, q, d) && IsScript(q) ==> compile(q, d).None?
  {
    var leaves := Leaves(st, ApiRoot).value;
    if ApiRoutes(st, prefix, compile).Ok? {
      forall q, d | LeafOf(st, ApiRoot, q, d) && IsScript(q) ensures compile(q, d).None? {
        LeavesComplete(st, ApiRoot, q, d);
        var i :| 0 <= i < |leaves| && leaves[i] == Item(q, Value(d));
      }
    } else {
      var e := ApiRoutes(st, prefix, compile).error;
      var i :| 0 <= i < |leaves| && FirstFailure(leaves, i, compile, e);
      var q, d := leaves[i].path, leaves[i].node.data;
      assert leaves[i] == Item(q, Value(d)) && leaves[i] in leaves;
      LeavesComplete(st, ApiRoot, q, d);
    }
  }

  /** A handler whose script fails logs the error and answers 500 with its text. */
  function ScriptResponse(runErr: Option<string>): (r: HttpError.Response)
    ensures runErr.None? <==> r == HttpError.Nothing
    ensures runErr.Some? ==> r == HttpError.Respond(true, 500, runErr.value + "\n")
  {
    HttpError.HandleHttpError(if runErr.Some? then Some(HttpError.Plain(runErr.value)) else None)
  }
}
