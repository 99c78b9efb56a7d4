/** The script iterators `iteratorFor` and `reverseIteratorFor` over the children of
    `data ++ path`. Each `next` reads the key and value at the cursor and then moves it;
    the model is the whole sequence of pairs a script can draw, and how it ends. */
module Iter {
  import opened Wrappers
  import opened Store
  import Strs
  import Scoped

  datatype Pair = Pair(key: string, value: Bytes)

  /** `Done` once the cursor runs off the end; `Failed(k)` when the value at key `k` cannot
      be read because that child is a map. */
  datatype End = Done | Failed(key: string)

  datatype Stream = Stream(pairs: seq<Pair>, end: End)

  /** The engine's `Seek`: the position of the first key not below `s`. */
  function SeekIndex(es: seq<Entry>, s: string): (i: nat)
    ensures i <= |es|
    ensures forall j :: 0 <= j < i ==> Strs.Less(es[j].key, s)
    ensures i < |es| ==> !Strs.Less(es[i].key, s)
  {
    if |es| == 0 || !Strs.Less(es[0].key, s) then 0
    else 1 + SeekIndex(es[1..], s)
  }

  /** Draw pairs from the cursor positions in `es`, in order, until a map child. */
  function Drain(es: seq<Entry>): (r: Stream)
    ensures |r.pairs| <= |es|
    ensures forall i :: 0 <= i < |r.pairs| ==> es[i].node.Value? && r.pairs[i] == Pair(es[i].key, es[i].node.data)
    ensures r.end == Done <==> |r.pairs| == |es|
    ensures r.end.Failed? ==> es[|r.pairs|].node.Map? && r.end.key == es[|r.pairs|].key
  {
    if |es| == 0 then Stream([], Done)
    else match es[0].node
      case Map(_) => Stream([], Failed(es[0].key))
      case Value(d) =>
        var rest := Drain(es[1..]);
        Stream([Pair(es[0].key, d)] + rest.pairs, rest.end)
  }

  function Reverse<T>(s: seq<T>): (r: seq<T>)
    ensures |r| == |s|
    ensures forall i :: 0 <= i < |s| ==> r[i] == s[|s| - 1 - i]
  {
    if |s| == 0 then [] else [s[|s| - 1]] + Reverse(s[..|s| - 1])
  }

  /** The pairs' keys strictly ascend. */
  predicate Ascending(ps: seq<Pair>) {
    forall i, j :: 0 <= i < j < |ps| ==> Strs.Less(ps[i].key, ps[j].key)
  }

  /** The pairs' keys strictly descend. */
  predicate Descending(ps: seq<Pair>) {
    forall i, j :: 0 <= i < j < |ps| ==> Strs.Less(ps[j].key, ps[i].key)
  }

  /** `iteratorFor(path, seek)`: from the first key, or from `Seek(seek)` when `seek` is
      non-empty, forward through the children. Iterating a missing node or a value fails. */
  function IteratorFor(st: Node, path: Path, seek: string): (r: Result<Stream, StoreError>)
    ensures r.Ok? <==> IsMapAt(st, Scoped.At(path))
  {
    var es :- Children(st, Scoped.At(path));
    Ok(Drain(es[Start(es, seek)..]))
  }

  /** Where the forward iterator's cursor starts. */
  function Start(es: seq<Entry>, seek: string): (start: nat)
    ensures start <= |es|
  {
    if seek == "" then 0 else SeekIndex(es, seek)
  }

  /** `reverseIteratorFor(path, seek)`: from `Last()`, or from `Seek(seek)` when `seek` is
      non-empty, backward through the children. */
  function ReverseIteratorFor(st: Node, path: Path, seek: string): (r: Result<Stream, StoreError>)
    ensures r.Ok? <==> IsMapAt(st, Scoped.At(path))
  {
    var es :- Children(st, Scoped.At(path));
    Ok(Drain(Reverse(es[..ReverseStop(es, seek)])))
  }

  /** How many entries the reverse iterator can reach: all of them, or up to and including
      the seek position; a cursor that `Seek` left past the last key is done at once. */
  function ReverseStop(es: seq<Entry>, seek: string): (stop: nat)
    ensures stop <= |es|
  {
    if seek == "" then |es| else if SeekIndex(es, seek) == |es| then 0 else SeekIndex(es, seek) + 1
  }

  /** Drawing from sorted entries yields ascending keys. */
  lemma DrainAscending(es: seq<Entry>)
    requires Sorted(es)
    ensures Ascending(Drain(es).pairs)
  {
  }

  /** A run drawn to the end holds exactly the keys of the entries. */
  lemma DrainKeys(es: seq<Entry>, k: string)
    requires Drain(es).end == Done
    ensures (exists i :: 0 <= i < |Drain(es).pairs| && Drain(es).pairs[i].key == k) <==> k in Keys(es)
  {
    if k in Keys(es) {
      var j :| 0 <= j < |es| && Keys(es)[j] == k;
      assert Drain(es).pairs[j].key == k;
    }
  }

  /** From the seek position on, no key of sorted entries lies below the seek. */
  lemma SeekSuffix(es: seq<Entry>, seek: string, i: nat)
    requires Sorted(es) && SeekIndex(es, seek) <= i < |es|
    ensures !Strs.Less(es[i].key, seek)
  {
    var start := SeekIndex(es, seek);
    if i > start {
      NotBelowStep(seek, es[start].key, es[i].key);
    }
  }

  /** A key is at or after the seek position of sorted entries exactly when it is not below
      the seek. */
  lemma SeekSplit(es: seq<Entry>, seek: string, j: nat)
    requires Sorted(es) && j < |es|
    ensures SeekIndex(es, seek) <= j <==> !Strs.Less(es[j].key, seek)
  {
    if SeekIndex(es, seek) <= j { SeekSuffix(es, seek, j); }
  }

  /** Forward iteration yields strictly ascending keys, none below a non-empty seek, and,
      when it runs to the end, every child at or above the seek. */
  lemma IteratorForOrder(st: Node, path: Path, seek: string, k: string)
    requires WF(st) && IsMapAt(st, Scoped.At(path))
    ensures var s := IteratorFor(st, path, seek).value;
      Ascending(s.pairs) &&
      (seek != "" ==> forall i :: 0 <= i < |s.pairs| ==> !Strs.Less(s.pairs[i].key, seek)) &&
      (s.end == Done ==>
        ((exists i :: 0 <= i < |s.pairs| && s.pairs[i].key == k) <==>
         Exists(st, Scoped.At(path) + [k]) && (seek == "" || !Strs.Less(k, seek))))
  {
    var es := Children(st, Scoped.At(path)).value;
    LookupWF(st, Scoped.At(path));
    assert IteratorFor(st, path, seek) == Ok(Drain(es[Start(es, seek)..]));
    ForwardOrder(es, seek, k);
    LookupAppend(st, Scoped.At(path), [k]);
  }

  /** The forward stream over sorted entries, at the level of the entries. */
  lemma ForwardOrder(es: seq<Entry>, seek: string, k: string)
    requires Sorted(es)
    ensures var s := Drain(es[Start(es, seek)..]);
      Ascending(s.pairs) &&
      (seek != "" ==> forall i :: 0 <= i < |s.pairs| ==> !Strs.Less(s.pairs[i].key, seek)) &&
      (s.end == Done ==>
        ((exists i :: 0 <= i < |s.pairs| && s.pairs[i].key == k) <==>
         Find(es, k).Some? && (seek == "" || !Strs.Less(k, seek))))
  {
    var start := Start(es, seek);
    var tail := es[start..];
    var s := Drain(tail);
    DrainAscending(tail);
    if seek != "" {
      forall i | 0 <= i < |s.pairs| ensures !Strs.Less(s.pairs[i].key, seek) {
        assert s.pairs[i].key == es[start + i].key;
        SeekSuffix(es, seek, start + i);
      }
    }
    if s.end == Done {
      DrainKeys(tail, k);
      KeysSuffix(es, start, k);
      ExistsChildKey(es, start, seek, k);
    }
  }

  /** A key occurs from the start position on exactly when it is a child key not below a
      non-empty seek. */
  lemma ExistsChildKey(es: seq<Entry>, start: nat, seek: string, k: string)
    requires Sorted(es) && start == (if seek == "" then 0 else SeekIndex(es, seek))
    ensures (exists j :: start <= j < |es| && es[j].key == k) <==>
      Find(es, k).Some? && (seek == "" || !Strs.Less(k, seek))
  {
    if Find(es, k).Some? {
      var j :| 0 <= j < |es| && es[j].key == k;
      if seek != "" { SeekSplit(es, seek, j); }
    }
    if exists j :: start <= j < |es| && es[j].key == k {
      var j :| start <= j < |es| && es[j].key == k;
      if seek != "" { SeekSplit(es, seek, j); }
    }
  }

  /** Not below `s` and below a larger key: the larger key is not below `s` either. */
  lemma NotBelowStep(s: string, a: string, b: string)
    requires !Strs.Less(a, s) && Strs.Less(a, b)
    ensures !Strs.Less(b, s)
  {
    if Strs.Less(b, s) {
      Strs.LessTransitive(a, b, s);
    }
  }

  /** Reverse iteration yields strictly descending keys. With a seek it starts at the
      first key at or above the seek (which may lie above it) and runs down to the first
      key; a seek above every key yields nothing. */
  lemma ReverseIteratorForOrder(st: Node, path: Path, seek: string)
    requires WF(st) && IsMapAt(st, Scoped.At(path))
    ensures var es := Children(st, Scoped.At(path)).value;
      var s := ReverseIteratorFor(st, path, seek).value;
      Descending(s.pairs) &&
      (seek != "" && SeekIndex(es, seek) == |es| ==> s == Stream([], Done)) &&
      (seek != "" && SeekIndex(es, seek) < |es| && es[SeekIndex(es, seek)].node.Value? ==>
        s.pairs[0].key == es[SeekIndex(es, seek)].key) &&
      (s.end == Done ==> |s.pairs| == (if seek == "" then |es| else if SeekIndex(es, seek) == |es| then 0 else SeekIndex(es, seek) + 1))
  {
    var es := Children(st, Scoped.At(path)).value;
    LookupWF(st, Scoped.At(path));
    assert ReverseIteratorFor(st, path, seek) == Ok(Drain(Reverse(es[..ReverseStop(es, seek)])));
    ReverseOrder(es, seek);
  }

  /** The reverse stream over sorted entries, at the level of the entries. */
  lemma ReverseOrder(es: seq<Entry>, seek: string)
    requires Sorted(es)
    ensures var s := Drain(Reverse(es[..ReverseStop(es, seek)]));
      Descending(s.pairs) &&
      (seek != "" && SeekIndex(es, seek) == |es| ==> s == Stream([], Done)) &&
      (seek != "" && SeekIndex(es, seek) < |es| && es[SeekIndex(es, seek)].node.Value? ==>
        s.pairs[0].key == es[SeekIndex(es, seek)].key) &&
      (s.end == Done ==> |s.pairs| == ReverseStop(es, seek))
  {
    var stop := ReverseStop(es, seek);
    var rev := Reverse(es[..stop]);
    ReverseDescending(es, stop);
    DrainDescending(rev);
    if seek != "" && SeekIndex(es, seek) < |es| && es[SeekIndex(es, seek)].node.Value? {
      assert rev[0] == es[SeekIndex(es, seek)];
    }
  }

  /** Sorted entries read backwards have strictly descending keys. */
  lemma ReverseDescending(es: seq<Entry>, stop: nat)
    requires Sorted(es) && stop <= |es|
    ensures var rev := Reverse(es[..stop]);
      forall i, j :: 0 <= i < j < |rev| ==> Strs.Less(rev[j].key, rev[i].key)
  {
    var rev := Reverse(es[..stop]);
    forall i, j | 0 <= i < j < |rev| ensures Strs.Less(rev[j].key, rev[i].key) {
      assert rev[i] == es[stop - 1 - i] && rev[j] == es[stop - 1 - j];
    }
  }

  /** Drawing from entries with descending keys yields descending keys. */
  lemma DrainDescending(es: seq<Entry>)
    requires forall i, j :: 0 <= i < j < |es| ==> Strs.Less(es[j].key, es[i].key)
    ensures Descending(Drain(es).pairs)
  {
  }

  /* ---------------------------------------------------------------- examples */

  function Leaf(k: string): Entry {
    Entry(k, Value(""))
  }

  /** `data/m` holding the given children. */
  function Fixture(es: seq<Entry>): Node {
    Map([Entry("data", Map([Entry("m", Map(es))]))])
  }

  function KeysOf(ps: seq<Pair>): (ks: seq<string>)
    ensures |ks| == |ps| && forall i :: 0 <= i < |ps| ==> ks[i] == ps[i].key
  {
    if |ps| == 0 then [] else [ps[0].key] + KeysOf(ps[1..])
  }

  /** The fixture's `m` is the map of the given children. */
  lemma FixtureChildren(es: seq<Entry>)
    ensures Children(Fixture(es), Scoped.At(["m"])) == Ok(es)
  {
    assert Scoped.At(["m"]) == ["data", "m"];
    assert Lookup(Fixture(es), ["data", "m"]) == Some(Map(es));
  }

  /* The scenarios of the runtime's integration tests: an empty map gives nothing, two
     children come out in order, seeking "b" gives "b", reverse gives them backwards. */

  lemma EmptyExample()
    ensures IteratorFor(Fixture([]), ["m"], "") == Ok(Stream([], Done))
  {
    FixtureChildren([]);
  }

  lemma OneExample()
    ensures KeysOf(IteratorFor(Fixture([Leaf("a")]), ["m"], "").value.pairs) == ["a"]
  {
    FixtureChildren([Leaf("a")]);
    assert Drain([Leaf("a")]).pairs == [Pair("a", "")];
  }

  lemma TwoExample()
    ensures KeysOf(IteratorFor(Fixture([Leaf("a"), Leaf("b")]), ["m"], "").value.pairs) == ["a", "b"]
  {
    var two := [Leaf("a"), Leaf("b")];
    FixtureChildren(two);
    assert Drain(two).pairs == [Pair("a", ""), Pair("b", "")];
  }

  lemma SeekExample()
    ensures KeysOf(IteratorFor(Fixture([Leaf("a"), Leaf("b")]), ["m"], "b").value.pairs) == ["b"]
  {
    var two := [Leaf("a"), Leaf("b")];
    FixtureChildren(two);
    assert Strs.Less("a", "b");
    assert SeekIndex(two, "b") == 1;
    assert two[1..] == [Leaf("b")];
    assert Drain([Leaf("b")]).pairs == [Pair("b", "")];
  }

  lemma ReverseExample()
    ensures KeysOf(ReverseIteratorFor(Fixture([Leaf("a"), Leaf("b")]), ["m"], "").value.pairs) == ["b", "a"]
  {
    var two := [Leaf("a"), Leaf("b")];
    FixtureChildren(two);
    assert two[..2] == two;
    assert Reverse(two) == [Leaf("b"), Leaf("a")];
    assert Drain([Leaf("b"), Leaf("a")]).pairs == [Pair("b", ""), Pair("a", "")];
  }

  /** A seek between two keys makes the reverse iterator start at the larger one; a seek
      past every key yields nothing. */
  lemma ReverseSeekExamples()
    ensures KeysOf(ReverseIteratorFor(Fixture([Leaf("a"), Leaf("c")]), ["m"], "b").value.pairs) == ["c", "a"]
    ensures ReverseIteratorFor(Fixture([Leaf("a"), Leaf("c")]), ["m"], "d") == Ok(Stream([], Done))
  {
    ReverseSeekBetween();
    ReverseSeekPast();
  }

  lemma ReverseSeekBetween()
    ensures KeysOf(ReverseIteratorFor(Fixture([Leaf("a"), Leaf("c")]), ["m"], "b").value.pairs) == ["c", "a"]
  {
    var two := [Leaf("a"), Leaf("c")];
    FixtureChildren(two);
    assert Strs.Less("a", "b") && !Strs.Less("c", "b");
    assert SeekIndex(two, "b") == 1;
    assert ReverseStop(two, "b") == 2;
    assert two[..2] == two;
    assert Reverse(two) == [Leaf("c"), Leaf("a")];
    assert Drain([Leaf("c"), Leaf("a")]).pairs == [Pair("c", ""), Pair("a", "")];
  }

  lemma ReverseSeekPast()
    ensures ReverseIteratorFor(Fixture([Leaf("a"), Leaf("c")]), ["m"], "d") == Ok(Stream([], Done))
  {
    var two := [Leaf("a"), Leaf("c")];
    FixtureChildren(two);
    assert Strs.Less("a", "d") && Strs.Less("c", "d");
    assert SeekIndex(two, "d") == 2;
    assert ReverseStop(two, "d") == 0;
    assert Reverse(two[..0]) == [];
  }
}
