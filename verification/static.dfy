/** The static file routes of a kartusche: every value below `static` is served by GET at
    its path without the `static` segment, an `index.html` also at its directory, with a
    strong entity tag made from the content's SHA-1. */
module Static {
  import opened Wrappers
  import opened Store
  import opened Walk
  import opened Bundle
  import GoPath

  const StaticRoot: Path := ["static"]

  /** A SHA-1 sum: twenty bytes. The hash itself is a parameter of the model. */
  type Digest = s: seq<bv8> | |s| == 20 witness seq(20, _ => 0 as bv8)

  predicate IsLowerHex(c: char) {
    '0' <= c <= '9' || 'a' <= c <= 'f'
  }

  function HexDigit(v: nat): (c: char)
    requires v < 16
    ensures IsLowerHex(c)
  {
    if v < 10 then ('0' as int + v) as char else ('a' as int + v - 10) as char
  }

  function HexVal(c: char): Option<nat> {
    if '0' <= c <= '9' then Some(c as int - '0' as int)
    else if 'a' <= c <= 'f' then Some(c as int - 'a' as int + 10)
    else None
  }

  function Hi(b: bv8): (v: nat) ensures v < 16 { b as int / 16 }
  function Lo(b: bv8): (v: nat) ensures v < 16 { b as int % 16 }

  lemma Nibbles(b: bv8)
    ensures (Hi(b) * 16 + Lo(b)) as bv8 == b
  {
  }

  lemma HexValDigit(v: nat)
    requires v < 16
    ensures HexVal(HexDigit(v)) == Some(v)
  {
  }

  /** `%x` of a byte string: two lowercase digits per byte, high nibble first. */
  function Hex(bs: seq<bv8>): (r: string)
    ensures |r| == 2 * |bs|
    ensures forall i :: 0 <= i < |r| ==> IsLowerHex(r[i])
  {
    if |bs| == 0 then ""
    else [HexDigit(Hi(bs[0])), HexDigit(Lo(bs[0]))] + Hex(bs[1..])
  }

  /** Read pairs of lowercase hex digits back into bytes. */
  function Unhex(s: string): Option<seq<bv8>>
    decreases |s|
  {
    if |s| == 0 then Some([])
    else if |s| == 1 then None
    else
      var hi :- HexVal(s[0]);
      var lo :- HexVal(s[1]);
      var rest :- Unhex(s[2..]);
      Some([(hi * 16 + lo) as bv8] + rest)
  }

  lemma {:induction false} UnhexHex(bs: seq<bv8>)
    ensures Unhex(Hex(bs)) == Some(bs)
  {
    if |bs| > 0 {
      UnhexHex(bs[1..]);
      UnhexByte(bs[0], Hex(bs[1..]), bs[1..]);
      assert bs == [bs[0]] + bs[1..];
    }
  }

  /** One byte's two digits read back as that byte, ahead of the rest. */
  lemma UnhexByte(b: bv8, t: string, rest: seq<bv8>)
    requires Unhex(t) == Some(rest)
    ensures Unhex([HexDigit(Hi(b)), HexDigit(Lo(b))] + t) == Some([b] + rest)
  {
    var s := [HexDigit(Hi(b)), HexDigit(Lo(b))] + t;
    var hi, lo := Hi(b), Lo(b);
    HexValDigit(hi);
    HexValDigit(lo);
    assert HexVal(s[0]) == Some(hi) && HexVal(s[1]) == Some(lo);
    assert s[2..] == t;
    assert Unhex(s) == Some([(hi * 16 + lo) as bv8] + rest);
    Nibbles(b);
  }

  /** The `etag` header: the sum in lowercase hex between double quotes, a strong entity
      tag as in section 8.8.3 of RFC 9110. */
  function ETag(d: Digest): (r: string)
    ensures |r| == 42 && r[0] == '"' && r[41] == '"'
    ensures forall i :: 1 <= i < 41 ==> IsLowerHex(r[i])
  {
    "\"" + Hex(d) + "\""
  }

  /** The tag gives the sum back. */
  lemma ETagRoundTrip(d: Digest)
    ensures Unhex(ETag(d)[1..41]) == Some(d)
  {
    assert ETag(d)[1..41] == Hex(d);
    UnhexHex(d);
  }

  /** One handler serves one stored file, with the tag of its content. */
  datatype Handler = Handler(file: Path, etag: string)

  datatype Route = Route(verb: string, path: string, handler: Handler)

  /** The request path of a path below `static`. */
  function RequestPath(rel: Path): string {
    "/" + GoPath.Join(rel)
  }

  /** The routes of one leaf; a leaf named `index.html` also answers at its directory. */
  function LeafRoutes(sha1: Bytes -> Digest, it: Item): seq<Route> {
    if |it.path| < 2 || !it.node.Value? then []
    else
      var rel := it.path[1..];
      var h := Handler(it.path, ETag(sha1(it.node.data)));
      [Route("GET", RequestPath(rel), h)] +
      (if rel[|rel| - 1] == "index.html" then [Route("GET", RequestPath(rel[..|rel| - 1]), h)] else [])
  }

  function RoutesFor(sha1: Bytes -> Digest): Item -> seq<Route> {
    it => LeafRoutes(sha1, it)
  }

  /** `addStaticHandlers`. */
  function StaticRoutes(st: Node, sha1: Bytes -> Digest): (r: Result<seq<Route>, StoreError>)
    ensures !Exists(st, StaticRoot) ==> r == Ok([])
    ensures r.Ok? <==> !Exists(st, StaticRoot) || IsMapAt(st, StaticRoot)
  {
    var leaves :- Leaves(st, StaticRoot);
    Ok(FlatMap(leaves, RoutesFor(sha1)))
  }

  /** The route `rt` serves the file `q` holding `d`. */
  predicate Serves(sha1: Bytes -> Digest, q: Path, d: Bytes, rt: Route) {
    |q| >= 2 && rt.verb == "GET" && rt.handler == Handler(q, ETag(sha1(d))) &&
    (rt.path == RequestPath(q[1..]) ||
     (q[|q| - 1] == "index.html" && rt.path == RequestPath(q[1..|q| - 1])))
  }

  /** The routes of one leaf are the routes that serve it. */
  lemma LeafRoutesServe(sha1: Bytes -> Digest, q: Path, d: Bytes, rt: Route)
    requires |q| >= 2
    ensures rt in RoutesFor(sha1)(Item(q, Value(d))) <==> Serves(sha1, q, d, rt)
  {
    var h := Handler(q, ETag(sha1(d)));
    var main := Route("GET", RequestPath(q[1..]), h);
    var index := Route("GET", RequestPath(q[1..][..|q| - 2]), h);
    assert q[1..][|q| - 2] == q[|q| - 1] && q[1..][..|q| - 2] == q[1..|q| - 1];
    assert RoutesFor(sha1)(Item(q, Value(d))) ==
      [main] + (if q[|q| - 1] == "index.html" then [index] else []);
  }

  /** Every route comes from a file below `static`. */
  lemma RouteSound(st: Node, sha1: Bytes -> Digest, rt: Route)
    requires WF(st) && StaticRoutes(st, sha1).Ok? && rt in StaticRoutes(st, sha1).value
    ensures exists q, d :: LeafOf(st, StaticRoot, q, d) && Serves(sha1, q, d, rt)
  {
    var leaves := Leaves(st, StaticRoot).value;
    FlatMapIn(leaves, RoutesFor(sha1), rt);
    var i :| 0 <= i < |leaves| && rt in RoutesFor(sha1)(leaves[i]);
    var it := leaves[i];
    assert it in leaves;
    var q, d := it.path, it.node.data;
    LeavesComplete(st, StaticRoot, q, d);
    LeafRoutesServe(sha1, q, d, rt);
  }

  /** Every file below `static` has its routes. */
  lemma RouteComplete(st: Node, sha1: Bytes -> Digest, q: Path, d: Bytes, rt: Route)
    requires WF(st) && StaticRoutes(st, sha1).Ok?
    requires LeafOf(st, StaticRoot, q, d) && Serves(sha1, q, d, rt)
    ensures rt in StaticRoutes(st, sha1).value
  {
    var leaves := Leaves(st, StaticRoot).value;
    LeavesComplete(st, StaticRoot, q, d);
    var i :| 0 <= i < |leaves| && leaves[i] == Item(q, Value(d));
    LeafRoutesServe(sha1, q, d, rt);
    FlatMapIn(leaves, RoutesFor(sha1), rt);
  }

  /** The routes are exactly the GET routes of the files below `static`: one at the
      file's path and, for `index.html`, one at its directory, both with the file's own
      handler. */
  lemma StaticRoutesComplete(st: Node, sha1: Bytes -> Digest, rt: Route)
    requires WF(st) && StaticRoutes(st, sha1).Ok?
    ensures rt in StaticRoutes(st, sha1).value <==>
      exists q, d :: LeafOf(st, StaticRoot, q, d) && Serves(sha1, q, d, rt)
  {
    if rt in StaticRoutes(st, sha1).value {
      RouteSound(st, sha1, rt);
    }
    if exists q, d :: LeafOf(st, StaticRoot, q, d) && Serves(sha1, q, d, rt) {
      var q, d :| LeafOf(st, StaticRoot, q, d) && Serves(sha1, q, d, rt);
      RouteComplete(st, sha1, q, d, rt);
    }
  }

  /** Both routes of an `index.html` exist and share its handler; at the top level the
      second one is `/`. */
  lemma IndexRoutes(st: Node, sha1: Bytes -> Digest, q: Path, d: Bytes)
    requires WF(st) && StaticRoutes(st, sha1).Ok?
    requires LeafOf(st, StaticRoot, q, d) && q[|q| - 1] == "index.html"
    ensures var h := Handler(q, ETag(sha1(d)));
      Route("GET", RequestPath(q[1..]), h) in StaticRoutes(st, sha1).value &&
      Route("GET", RequestPath(q[1..|q| - 1]), h) in StaticRoutes(st, sha1).value
    ensures |q| == 2 ==> RequestPath(q[1..|q| - 1]) == "/"
  {
    var h := Handler(q, ETag(sha1(d)));
    RouteComplete(st, sha1, q, d, Route("GET", RequestPath(q[1..]), h));
    RouteComplete(st, sha1, q, d, Route("GET", RequestPath(q[1..|q| - 1]), h));
  }
}
