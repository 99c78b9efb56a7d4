/** The store as scripts see it: every key a script names is re-rooted under `data`, for
    reads, writes, iterators and watches alike. */
module Scoped {
  import opened Wrappers
  import opened Store

  /** The root of everything a script can address. */
  const Data: Path := ["data"]

  function At(p: Path): Path {
    Data + p
  }

  /** The subtree scripts see, when `data` is a map. */
  function View(st: Node): Node
    requires IsMapAt(st, Data)
  {
    Lookup(st, Data).value
  }

  lemma AtLookup(st: Node, p: Path)
    requires IsMapAt(st, Data)
    ensures Lookup(st, At(p)) == Lookup(View(st), p)
  {
    LookupAppend(st, Data, p);
  }

  /** A path outside `data` is disjoint from every script path. */
  lemma OutsideDisjoint(p: Path, q: Path)
    requires |q| > 0 && q[0] != "data"
    ensures Disjoint(At(p), q)
  {
    assert At(p)[0] == "data";
  }

  /** A script's `Get`: the bytes at `p` in its view. */
  function ScriptGet(st: Node, p: Path): (r: Result<Bytes, StoreError>)
    ensures !IsMapAt(st, Data) && |p| > 0 ==> r.Err?
    ensures IsMapAt(st, Data) ==>
      (r.Ok? <==> IsValueAt(View(st), p)) && (r.Ok? ==> Lookup(View(st), p) == Some(Value(r.value)))
  {
    if IsMapAt(st, Data) then AtLookup(st, p); Get(st, At(p))
    else
      if |p| > 0 then BelowLeaf(st, Data, At(p)); Get(st, At(p)) else Get(st, At(p))
  }

  /** A script's `Exists`, `IsMap` and `Size`, read in its view. */
  function ScriptExists(st: Node, p: Path): (r: bool)
    ensures IsMapAt(st, Data) ==> (r <==> Lookup(View(st), p).Some?)
    ensures !IsMapAt(st, Data) && |p| > 0 ==> !r
  {
    if IsMapAt(st, Data) then AtLookup(st, p); Exists(st, At(p))
    else if |p| > 0 then BelowLeaf(st, Data, At(p)); Exists(st, At(p))
    else Exists(st, At(p))
  }

  function ScriptSize(st: Node, p: Path): (r: Result<nat, StoreError>)
    ensures IsMapAt(st, Data) ==> (r.Ok? <==> Lookup(View(st), p).Some?)
    ensures IsMapAt(st, Data) && Lookup(View(st), p).Some? && Lookup(View(st), p).value.Map? ==>
      r == Ok(|Lookup(View(st), p).value.entries|)
  {
    if IsMapAt(st, Data) then AtLookup(st, p); Size(st, At(p)) else Size(st, At(p))
  }

  /** The writes a script can make, each addressed below `data`. */
  datatype Write = CreateMapAt(path: Path) | DeleteAt(path: Path) | PutAt(path: Path, value: string)

  function Apply(st: Node, w: Write): (r: Result<Node, StoreError>)
    requires WF(st)
    ensures r.Ok? ==> WF(r.value)
  {
    match w
    case CreateMapAt(p) => CreateMap(st, At(p))
    case DeleteAt(p) => Delete(st, At(p))
    // the string's bytes are stored as they are
    case PutAt(p, v) => Put(st, At(p), v)
  }

  /** The node a successful write leaves at its path. */
  function Written(w: Write): Option<Node> {
    match w
    case CreateMapAt(_) => Some(Map([]))
    case DeleteAt(_) => None
    case PutAt(_, v) => Some(Value(v))
  }

  /** A script write lands at its path under `data` and nothing outside `data` changes. */
  lemma ScriptWriteFrame(st: Node, w: Write, q: Path)
    requires WF(st) && Apply(st, w).Ok?
    ensures Lookup(Apply(st, w).value, At(w.path)) == Written(w)
    ensures |q| > 0 && q[0] != "data" ==> Lookup(Apply(st, w).value, q) == Lookup(st, q)
  {
    WriteHere(st, At(w.path), Written(w));
    if |q| > 0 && q[0] != "data" {
      OutsideDisjoint(w.path, q);
      WriteFrame(st, At(w.path), Written(w), q);
    }
  }

  /** What a script puts it reads back. */
  lemma ScriptPutGet(st: Node, p: Path, v: string)
    requires WF(st) && Apply(st, PutAt(p, v)).Ok?
    ensures ScriptGet(Apply(st, PutAt(p, v)).value, p) == Ok(v)
  {
    ScriptWriteFrame(st, PutAt(p, v), []);
  }

  /** The older runtime's `Get` inside a write transaction: the raw path, with no `data`
      prefix, so it reaches the whole store. */
  function RawGet(st: Node, p: Path): (r: Result<Bytes, StoreError>)
    ensures r.Ok? <==> IsValueAt(st, p)
    ensures r.Ok? ==> Lookup(st, p) == Some(Value(r.value))
  {
    Get(st, p)
  }

  /** A raw read under `data` is the script's read of the rest of the path, and a raw read
      outside `data` is untouched by any script write. */
  lemma RawGetScope(st: Node, w: Write, p: Path, q: Path)
    requires WF(st) && Apply(st, w).Ok? && |q| > 0 && q[0] != "data"
    ensures RawGet(st, At(p)) == ScriptGet(st, p)
    ensures RawGet(Apply(st, w).value, q) == RawGet(st, q)
  {
    ScriptWriteFrame(st, w, q);
  }

  /** `Watch(m)` observes changes at `data ++ m` and at every path below it. */
  predicate Watches(m: Path, q: Path) {
    IsPrefix(At(m), q)
  }

  /** A watch sees a script's change at `p` exactly when `m` is a prefix of `p`, and never
      sees a change outside `data`. */
  lemma WatchScope(m: Path, p: Path, q: Path)
    ensures Watches(m, At(p)) <==> IsPrefix(m, p)
    ensures |q| > 0 && q[0] != "data" ==> !Watches(m, q)
  {
    if Watches(m, At(p)) {
      assert At(p)[1..|At(m)|] == m;
    }
    if IsPrefix(m, p) {
      assert At(p)[..|At(m)|] == Data + p[..|m|];
    }
  }
}
