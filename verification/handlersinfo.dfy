/** `infoHandlers`: the list of a kartusche's dynamic handlers, one per value leaf under
    `handler/`, sorted by route path and then by verb. */
module HandlersInfo {
  import opened Wrappers
  import opened Store
  import opened Walk
  import opened Bundle
  import Strs
  import HttpError

  /** `HandlerInfo`: the method, the route path and the script source. */
  datatype Info = Info(verb: string, path: string, source: Bytes)

  /** The store engine's rendering of a path (`dbpath.Path.String`), not part of this
      model. */
  type PathText = Path -> string

  const HandlerRoot: Path := ["handler"]

  /** The entry for the value at `handler/d1/…/dk/<leaf>`: the leaf name without a
      trailing `.js`, the rendering of `d1/…/dk` after a `/`, and the value. */
  function InfoOf(it: Item, pathText: PathText): (r: Info)
    requires |it.path| >= 2 && it.node.Value?
    ensures var leaf := it.path[|it.path| - 1];
      (Strs.HasSuffix(leaf, ".js") ==> r.verb + ".js" == leaf) &&
      (!Strs.HasSuffix(leaf, ".js") ==> r.verb == leaf)
    ensures r.path == "/" + pathText(it.path[1..|it.path| - 1]) && r.source == it.node.data
  {
    Info(Strs.TrimSuffix(it.path[|it.path| - 1], ".js"), "/" + pathText(it.path[1..|it.path| - 1]), it.node.data)
  }

  /** The values the walk reaches: nothing when `handler` is absent, `handler` itself when
      it is a value, and otherwise every value below it. */
  function HandlerLeaves(st: Node): (r: seq<Item>)
    ensures !Exists(st, HandlerRoot) ==> r == []
    ensures forall i :: 0 <= i < |r| ==> r[i].node.Value?
  {
    if IsValueAt(st, HandlerRoot) then [Item(HandlerRoot, Lookup(st, HandlerRoot).value)]
    else Leaves(st, HandlerRoot).value
  }

  /** The entries of the leaves, in order; `None` when one of them sits directly at
      `handler`, where taking the segments between `handler` and the leaf panics. */
  function InfosOf(items: seq<Item>, pathText: PathText): (r: Option<seq<Info>>)
    requires forall i :: 0 <= i < |items| ==> items[i].node.Value?
    ensures r.Some? <==> forall i :: 0 <= i < |items| ==> |items[i].path| >= 2
    ensures r.Some? ==> |r.value| == |items|
    ensures r.Some? ==> forall i :: 0 <= i < |items| ==> r.value[i] == InfoOf(items[i], pathText)
  {
    if |items| == 0 then Some([])
    else if |items[0].path| < 2 then None
    else
      var rest :- InfosOf(items[1..], pathText);
      Some([InfoOf(items[0], pathText)] + rest)
  }

  /* ---------------------------------------------------------------- order */

  /** The comparison handed to `sort.Slice`: by path, and by verb for equal paths. */
  predicate InfoLess(a: Info, b: Info) {
    if a.path == b.path then Strs.Less(a.verb, b.verb) else Strs.Less(a.path, b.path)
  }

  predicate SortedInfos(s: seq<Info>) {
    forall i, j :: 0 <= i < j < |s| ==> !InfoLess(s[j], s[i])
  }

  lemma StrNotLessTrans(x: string, y: string, z: string)
    requires !Strs.Less(y, x) && !Strs.Less(z, y)
    ensures !Strs.Less(z, x)
  {
    if x != y && y != z {
      Strs.LessTotal(x, y);
      Strs.LessTotal(y, z);
      Strs.LessTransitive(x, y, z);
      Strs.LessAsymmetric(x, z);
    }
  }

  /** "Not after" is transitive. */
  lemma NotLessTrans(a: Info, b: Info, c: Info)
    requires !InfoLess(b, a) && !InfoLess(c, b)
    ensures !InfoLess(c, a)
  {
    if a.path != b.path { Strs.LessTotal(a.path, b.path); }
    if b.path != c.path { Strs.LessTotal(b.path, c.path); }
    if a.path == b.path && b.path == c.path {
      StrNotLessTrans(a.verb, b.verb, c.verb);
    } else {
      Strs.LessIrreflexive(a.path);
      Strs.LessIrreflexive(b.path);
      StrNotLessTrans(a.path, b.path, c.path);
      if a.path == c.path {
        Strs.LessTransitive(a.path, b.path, c.path);
        Strs.LessIrreflexive(a.path);
      }
    }
  }

  lemma InfoLessAsymmetric(a: Info, b: Info)
    requires InfoLess(a, b)
    ensures !InfoLess(b, a)
  {
    if a.path == b.path { Strs.LessAsymmetric(a.verb, b.verb); }
    else { Strs.LessAsymmetric(a.path, b.path); }
  }

  lemma SortedCons(x: Info, s: seq<Info>)
    requires SortedInfos(s) && forall y :: y in s ==> !InfoLess(y, x)
    ensures SortedInfos([x] + s)
  {
    var r := [x] + s;
    forall i, j | 0 <= i < j < |r| ensures !InfoLess(r[j], r[i]) {
      assert r[j] == s[j - 1];
      if i > 0 { assert r[i] == s[i - 1]; }
    }
  }

  /** Insert into a sorted list. */
  function Insert(x: Info, s: seq<Info>): (r: seq<Info>)
    requires SortedInfos(s)
    ensures multiset(r) == multiset(s) + multiset{x}
    ensures SortedInfos(r)
  {
    if |s| == 0 then [x]
    else if InfoLess(s[0], x) then
      var rest := Insert(x, s[1..]);
      assert s == [s[0]] + s[1..];
      InsertHead(x, s, rest);
      [s[0]] + rest
    else
      assert forall y :: y in s ==> !InfoLess(y, x) by {
        forall y | y in s ensures !InfoLess(y, x) {
          var j :| 0 <= j < |s| && s[j] == y;
          if j > 0 { NotLessTrans(x, s[0], y); }
        }
      }
      SortedCons(x, s);
      [x] + s
  }

  lemma InsertHead(x: Info, s: seq<Info>, rest: seq<Info>)
    requires |s| > 0 && SortedInfos(s) && InfoLess(s[0], x)
    requires SortedInfos(rest) && multiset(rest) == multiset(s[1..]) + multiset{x}
    ensures SortedInfos([s[0]] + rest)
  {
    forall y | y in rest ensures !InfoLess(y, s[0]) {
      assert y in multiset(rest);
      if y == x {
        InfoLessAsymmetric(s[0], x);
      } else {
        assert y in multiset(s[1..]);
        var j :| 0 <= j < |s[1..]| && s[1..][j] == y;
        assert s[j + 1] == y;
      }
    }
    SortedCons(s[0], rest);
  }

  /** `sort.Slice` with that comparison: a sorted permutation. The sort is not stable, so
      the order of entries equal in path and verb is the library's; this is one such
      order. */
  function Sort(xs: seq<Info>): (r: seq<Info>)
    ensures multiset(r) == multiset(xs)
    ensures SortedInfos(r)
  {
    if |xs| == 0 then []
    else
      assert xs == [xs[0]] + xs[1..];
      Insert(xs[0], Sort(xs[1..]))
  }

  /* ---------------------------------------------------------------- handler */

  datatype InfoReply = Listing(infos: seq<Info>) | Refusal(response: HttpError.Response) | Panic

  /** `infoHandlers`. `running` maps each known kartusche to its store, `None` when it has
      no runtime: reading through that missing runtime dereferences nil, outside any
      recover. The listing itself runs inside the runtime's read transaction, which turns
      the slice panic of a value at `handler` into an error; `panicText` is that runtime
      error's text, answered as a 500. */
  function InfoHandlers(name: string, running: map<string, Option<Node>>, pathText: PathText,
                        panicText: string): (r: InfoReply)
    ensures name == "" || name !in running <==> r == Refusal(HttpError.Refused(400, "kartusche not found"))
    ensures r == Panic <==> name != "" && name in running && running[name].None?
    ensures r == Refusal(HttpError.HandleHttpError(Some(HttpError.Plain(panicText)))) <==>
      name != "" && name in running && running[name].Some? && IsValueAt(running[name].value, HandlerRoot)
    ensures r.Listing? ==> SortedInfos(r.infos)
    ensures r.Listing? ==> !IsValueAt(running[name].value, HandlerRoot) && r.infos == Listed(running[name].value, pathText)
    ensures r.Listing? <==>
      name != "" && name in running && running[name].Some? && !IsValueAt(running[name].value, HandlerRoot)
    ensures name != "" && name in running && running[name].Some? && !Exists(running[name].value, HandlerRoot) ==>
      r == Listing([])
  {
    if name == "" || name !in running then Refusal(HttpError.Refused(400, "kartusche not found"))
    else if running[name].None? then Panic
    else
      var st := running[name].value;
      PanicIff(st, pathText);
      match InfosOf(HandlerLeaves(st), pathText)
      case None => Refusal(HttpError.HandleHttpError(Some(HttpError.Plain(panicText))))
      case Some(xs) => Listing(Sort(xs))
  }

  /** The listing panics exactly when `handler` is a value. */
  lemma PanicIff(st: Node, pathText: PathText)
    ensures InfosOf(HandlerLeaves(st), pathText).None? <==> IsValueAt(st, HandlerRoot)
  {
    if !IsValueAt(st, HandlerRoot) && Exists(st, HandlerRoot) {
      var items := HandlerLeaves(st);
      forall i | 0 <= i < |items| ensures |items[i].path| >= 2 {
        var ws := WalkFrom(st, HandlerRoot).value;
        assert items[i] in ws;
        var j :| 0 <= j < |ws| && ws[j] == items[i];
        BfsIsDesc([Item(HandlerRoot, Lookup(st, HandlerRoot).value)]);
        DescLonger(Item(HandlerRoot, Lookup(st, HandlerRoot).value), items[i]);
      }
    }
  }

  /** Descendants sit strictly below their ancestor. */
  lemma {:induction false} DescLonger(it: Item, x: Item)
    requires x in DescQueue([it])
    ensures |x.path| > |it.path|
    decreases it.node
  {
    assert x in Desc(it);
    var es := it.node.entries;
    EntriesDescFrom(it.path, es, x);
    var i :| 0 <= i < |es| && Under(it.path, es[i], x);
    var c := Item(it.path + [es[i].key], es[i].node);
    if x != c {
      assert DescQueue([c]) == Desc(c);
      DescLonger(c, x);
    }
  }

  /** The listing of a store where `handler` is not a value. */
  function Listed(st: Node, pathText: PathText): (r: seq<Info>)
    requires !IsValueAt(st, HandlerRoot)
  {
    PanicIff(st, pathText);
    Sort(InfosOf(HandlerLeaves(st), pathText).value)
  }

  /** Every value below `handler` is listed. */
  lemma LeafListed(st: Node, pathText: PathText, q: Path, d: Bytes)
    requires WF(st) && !IsValueAt(st, HandlerRoot) && LeafOf(st, HandlerRoot, q, d)
    ensures InfoOf(Item(q, Value(d)), pathText) in Listed(st, pathText)
  {
    PanicIff(st, pathText);
    assert q == HandlerRoot + q[1..];
    LookupAppend(st, HandlerRoot, q[1..]);
    var items := HandlerLeaves(st);
    LeavesComplete(st, HandlerRoot, q, d);
    var i :| 0 <= i < |items| && items[i] == Item(q, Value(d));
    var xs := InfosOf(items, pathText).value;
    assert xs[i] == InfoOf(Item(q, Value(d)), pathText);
    assert xs[i] in multiset(xs);
  }

  /** Everything listed comes from a value below `handler`. */
  lemma ListedLeaf(st: Node, pathText: PathText, x: Info) returns (q: Path, d: Bytes)
    requires WF(st) && !IsValueAt(st, HandlerRoot) && x in Listed(st, pathText)
    ensures LeafOf(st, HandlerRoot, q, d) && |q| >= 2 && x == InfoOf(Item(q, Value(d)), pathText)
  {
    PanicIff(st, pathText);
    var items := HandlerLeaves(st);
    var xs := InfosOf(items, pathText).value;
    assert x in multiset(Listed(st, pathText));
    assert x in multiset(xs);
    var i :| 0 <= i < |xs| && xs[i] == x;
    q, d := items[i].path, items[i].node.data;
    assert items[i] == Item(q, Value(d));
    LeavesComplete(st, HandlerRoot, q, d);
  }
}
