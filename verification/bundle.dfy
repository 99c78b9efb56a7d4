/** What every bundle loader shares: the value leaves below a top-level key, in the order
    the breadth-first walk reaches them, and nothing at all when the key is absent. */
module Bundle {
  import opened Wrappers
  import opened Store
  import opened Walk

  /** The items that are values, in order. */
  function ValueItems(xs: seq<Item>): (r: seq<Item>)
    ensures forall x :: x in r <==> x in xs && x.node.Value?
    ensures forall i :: 0 <= i < |r| ==> r[i].node.Value?
  {
    if |xs| == 0 then []
    else if xs[0].node.Value? then [xs[0]] + ValueItems(xs[1..])
    else ValueItems(xs[1..])
  }

  /** The loaders' shape: an absent root gives nothing; otherwise walk it (a value at the
      root fails, as iterating a value does) and keep the leaves. */
  function Leaves(st: Node, root: Path): (r: Result<seq<Item>, StoreError>)
    ensures !Exists(st, root) ==> r == Ok([])
    ensures Exists(st, root) ==> (r.Ok? <==> IsMapAt(st, root))
    ensures r.Ok? ==> forall i :: 0 <= i < |r.value| ==> r.value[i].node.Value?
  {
    if !Exists(st, root) then Ok([])
    else
      var items :- WalkFrom(st, root);
      Ok(ValueItems(items))
  }

  /** A leaf of `root`: a value strictly below it. */
  predicate LeafOf(st: Node, root: Path, q: Path, d: Bytes) {
    |q| > |root| && q[..|root|] == root && Lookup(st, q) == Some(Value(d))
  }

  /** The leaves are exactly the values below the root. */
  lemma LeavesComplete(st: Node, root: Path, q: Path, d: Bytes)
    requires WF(st) && Leaves(st, root).Ok?
    ensures Item(q, Value(d)) in Leaves(st, root).value <==> LeafOf(st, root, q, d)
  {
    if Exists(st, root) {
      WalkFromComplete(st, root, q, Value(d));
    } else if LeafOf(st, root, q, d) {
      assert q == root + q[|root|..];
      LookupAppend(st, root, q[|root|..]);
    }
  }

  /** Map each element to a run and concatenate the runs, in order. */
  function FlatMap<A, B>(xs: seq<A>, f: A -> seq<B>): seq<B> {
    if |xs| == 0 then [] else f(xs[0]) + FlatMap(xs[1..], f)
  }

  lemma {:induction false} FlatMapIn<A, B>(xs: seq<A>, f: A -> seq<B>, y: B)
    ensures y in FlatMap(xs, f) <==> exists i :: 0 <= i < |xs| && y in f(xs[i])
  {
    if |xs| > 0 {
      FlatMapIn(xs[1..], f, y);
      if exists i :: 0 <= i < |xs| && y in f(xs[i]) {
        var i :| 0 <= i < |xs| && y in f(xs[i]);
        if i > 0 { assert xs[1..][i - 1] == xs[i]; }
      }
      if exists i :: 0 <= i < |xs[1..]| && y in f(xs[1..][i]) {
        var i :| 0 <= i < |xs[1..]| && y in f(xs[1..][i]);
        assert xs[i + 1] == xs[1..][i];
      }
    }
  }
}
