/** The breadth-first walk every loader performs over a store subtree: pop the head of
    a work list, enumerate its children in key order, and queue the children that are
    maps. `Bfs` emits each child once, when its parent is enumerated. */
module Walk {
  import opened Wrappers
  import opened Store
  import Strs

  datatype Item = Item(path: Path, node: Node)

  /* ---------------------------------------------------------------- sizes */

  function NodeSize(n: Node): nat
    decreases n, 1
  {
    match n
    case Value(_) => 1
    case Map(es) => 1 + EntriesSize(es)
  }

  function EntriesSize(es: seq<Entry>): nat
    decreases es, 0
  {
    if |es| == 0 then 0 else NodeSize(es[0].node) + EntriesSize(es[1..])
  }

  function QueueSize(q: seq<Item>): nat {
    if |q| == 0 then 0 else NodeSize(q[0].node) + QueueSize(q[1..])
  }

  lemma {:induction false} QueueSizeAppend(a: seq<Item>, b: seq<Item>)
    ensures QueueSize(a + b) == QueueSize(a) + QueueSize(b)
  {
    if |a| > 0 {
      assert (a + b)[1..] == a[1..] + b;
      QueueSizeAppend(a[1..], b);
    } else {
      assert a + b == b;
    }
  }

  /* ---------------------------------------------------------------- children */

  /** The children of the map at `p`, in key order, as items. */
  function ChildItems(p: Path, es: seq<Entry>): (r: seq<Item>)
    ensures |r| == |es|
    ensures forall i :: 0 <= i < |es| ==> r[i] == Item(p + [es[i].key], es[i].node)
  {
    if |es| == 0 then [] else [Item(p + [es[0].key], es[0].node)] + ChildItems(p, es[1..])
  }

  /** The items that are maps, in order. */
  function MapItems(xs: seq<Item>): (r: seq<Item>)
    ensures forall x :: x in r <==> x in xs && x.node.Map?
  {
    if |xs| == 0 then []
    else if xs[0].node.Map? then [xs[0]] + MapItems(xs[1..])
    else MapItems(xs[1..])
  }

  lemma {:induction false} ChildItemsSize(p: Path, es: seq<Entry>)
    ensures QueueSize(ChildItems(p, es)) == EntriesSize(es)
  {
    if |es| > 0 {
      assert ChildItems(p, es)[1..] == ChildItems(p, es[1..]);
      ChildItemsSize(p, es[1..]);
    }
  }

  lemma {:induction false} MapItemsSize(xs: seq<Item>)
    ensures QueueSize(MapItems(xs)) <= QueueSize(xs)
  {
    if |xs| > 0 {
      MapItemsSize(xs[1..]);
      if xs[0].node.Map? { assert MapItems(xs)[1..] == MapItems(xs[1..]); }
    }
  }

  function Kids(it: Item): seq<Item> {
    match it.node
    case Value(_) => []
    case Map(es) => ChildItems(it.path, es)
  }

  /** The walk itself: every descendant of the queued maps, level by level. */
  function Bfs(queue: seq<Item>): seq<Item>
    decreases QueueSize(queue)
  {
    if |queue| == 0 then []
    else
      var kids := Kids(queue[0]);
      var next := queue[1..] + MapItems(kids);
      assert QueueSize(next) < QueueSize(queue) by {
        QueueSizeAppend(queue[1..], MapItems(kids));
        MapItemsSize(kids);
        if queue[0].node.Map? { ChildItemsSize(queue[0].path, queue[0].node.entries); }
      }
      kids + Bfs(next)
  }

  /** Walk the subtree under `root`; iterating a missing node or a value fails. */
  function WalkFrom(st: Node, root: Path): (r: Result<seq<Item>, StoreError>)
    ensures r.Ok? <==> IsMapAt(st, root)
    ensures r.Ok? ==> r.value == Bfs([Item(root, Lookup(st, root).value)])
  {
    match Lookup(st, root)
    case None => Err(NotFound(root))
    case Some(Value(_)) => Err(NotAMap(root))
    case Some(n) => Ok(Bfs([Item(root, n)]))
  }

  /* ---------------------------------------------------------------- reference */

  /** Reference definition: the strict descendants of an item, by structural recursion. */
  function Desc(it: Item): set<Item>
    decreases it.node, 1
  {
    match it.node
    case Value(_) => {}
    case Map(es) => EntriesDesc(it.path, es)
  }

  function EntriesDesc(p: Path, es: seq<Entry>): set<Item>
    decreases es, 0
  {
    if |es| == 0 then {}
    else
      var c := Item(p + [es[0].key], es[0].node);
      {c} + Desc(c) + EntriesDesc(p, es[1..])
  }

  function DescQueue(q: seq<Item>): set<Item> {
    if |q| == 0 then {} else Desc(q[0]) + DescQueue(q[1..])
  }

  lemma {:induction false} DescQueueAppend(a: seq<Item>, b: seq<Item>)
    ensures DescQueue(a + b) == DescQueue(a) + DescQueue(b)
  {
    if |a| > 0 {
      assert (a + b)[1..] == a[1..] + b;
      DescQueueAppend(a[1..], b);
    } else {
      assert a + b == b;
    }
  }

  lemma {:induction false} DescQueueMaps(xs: seq<Item>)
    ensures DescQueue(MapItems(xs)) == DescQueue(xs)
  {
    if |xs| > 0 {
      DescQueueMaps(xs[1..]);
      if xs[0].node.Map? { assert MapItems(xs)[1..] == MapItems(xs[1..]); }
    }
  }

  lemma {:induction false} EntriesDescSplit(p: Path, es: seq<Entry>)
    ensures EntriesDesc(p, es) == (set x | x in ChildItems(p, es)) + DescQueue(ChildItems(p, es))
  {
    if |es| > 0 {
      var cs := ChildItems(p, es);
      assert cs == [cs[0]] + ChildItems(p, es[1..]);
      EntriesDescSplit(p, es[1..]);
    }
  }

  /** The walk emits exactly the descendants of the queued items. */
  lemma {:induction false} BfsIsDesc(queue: seq<Item>)
    ensures forall x :: x in Bfs(queue) <==> x in DescQueue(queue)
    decreases QueueSize(queue)
  {
    if |queue| > 0 {
      var kids := Kids(queue[0]);
      var next := queue[1..] + MapItems(kids);
      QueueSizeAppend(queue[1..], MapItems(kids));
      MapItemsSize(kids);
      if queue[0].node.Map? { ChildItemsSize(queue[0].path, queue[0].node.entries); }
      BfsIsDesc(next);
      DescQueueAppend(queue[1..], MapItems(kids));
      DescQueueMaps(kids);
      if queue[0].node.Map? { EntriesDescSplit(queue[0].path, queue[0].node.entries); }
      assert Bfs(queue) == kids + Bfs(next);
    }
  }

  /* ---------------------------------------------------------------- descendants and lookup */

  lemma {:induction false} EntriesDescHas(p: Path, es: seq<Entry>, i: nat)
    requires i < |es|
    ensures Item(p + [es[i].key], es[i].node) in EntriesDesc(p, es)
    ensures Desc(Item(p + [es[i].key], es[i].node)) <= EntriesDesc(p, es)
  {
    if i > 0 { EntriesDescHas(p, es[1..], i - 1); }
  }

  /** `x` is the child at entry `e` of the map at `p`, or lies below it. */
  predicate Under(p: Path, e: Entry, x: Item) {
    x == Item(p + [e.key], e.node) || x in Desc(Item(p + [e.key], e.node))
  }

  lemma {:induction false} EntriesDescFrom(p: Path, es: seq<Entry>, x: Item)
    requires x in EntriesDesc(p, es)
    ensures exists i :: 0 <= i < |es| && Under(p, es[i], x)
  {
    var c := Item(p + [es[0].key], es[0].node);
    if x != c && x !in Desc(c) {
      EntriesDescFrom(p, es[1..], x);
      var i :| 0 <= i < |es[1..]| && Under(p, es[1..][i], x);
      assert es[1..][i] == es[i + 1];
    } else {
      assert Under(p, es[0], x);
    }
  }

  /** A path that starts with `p + [k]` continues past `p` with `k`. */
  lemma PathStep(q: Path, p: Path, k: string)
    requires |q| > |p| && q[..|p| + 1] == p + [k]
    ensures q[..|p|] == p
    ensures q[|p|..][0] == k && q[|p|..][1..] == q[|p| + 1..]
  {
    assert q[..|p|] == q[..|p| + 1][..|p|];
  }

  /** Every descendant lies strictly below the item and is what `Lookup` finds there. */
  lemma {:induction false} DescSound(it: Item, x: Item)
    requires WF(it.node) && x in Desc(it)
    ensures |x.path| > |it.path| && x.path[..|it.path|] == it.path
    ensures Lookup(it.node, x.path[|it.path|..]) == Some(x.node)
    decreases it.node
  {
    var p := it.path;
    var es := it.node.entries;
    EntriesDescFrom(p, es, x);
    var i :| 0 <= i < |es| && Under(p, es[i], x);
    var c := Item(p + [es[i].key], es[i].node);
    FindSorted(es, i);
    WFIn(es, es[i]);
    var k := es[i].key;
    if x == c {
      assert x.path[|p|..] == [k];
    } else {
      DescSound(c, x);
      PathStep(x.path, p, k);
    }
  }

  lemma AppendStep(p: Path, r: Path)
    requires |r| > 0
    ensures (p + [r[0]]) + r[1..] == p + r
    ensures |r| == 1 ==> p + [r[0]] == p + r
  {
    assert r == [r[0]] + r[1..];
  }

  /** Every node `Lookup` reaches strictly below the item is one of its descendants. */
  lemma {:induction false} DescComplete(it: Item, r: Path, m: Node)
    requires |r| > 0 && Lookup(it.node, r) == Some(m)
    ensures Item(it.path + r, m) in Desc(it)
    decreases |r|
  {
    var es := it.node.entries;
    var c := Find(es, r[0]).value;
    var i :| 0 <= i < |es| && es[i].key == r[0] && es[i].node == c;
    EntriesDescHas(it.path, es, i);
    var ci := Item(it.path + [r[0]], c);
    AppendStep(it.path, r);
    if |r| > 1 {
      DescComplete(ci, r[1..], m);
    }
  }

  /** The walk from `root` emits exactly the nodes strictly below `root`. */
  lemma WalkFromComplete(st: Node, root: Path, q: Path, m: Node)
    requires WF(st) && IsMapAt(st, root)
    ensures Item(q, m) in WalkFrom(st, root).value <==>
      |q| > |root| && q[..|root|] == root && Lookup(st, q) == Some(m)
  {
    var n := Lookup(st, root).value;
    LookupWF(st, root);
    BfsIsDesc([Item(root, n)]);
    assert DescQueue([Item(root, n)]) == Desc(Item(root, n));
    if Item(q, m) in Desc(Item(root, n)) {
      DescSound(Item(root, n), Item(q, m));
      assert q == root + q[|root|..];
      LookupAppend(st, root, q[|root|..]);
    }
    if |q| > |root| && q[..|root|] == root && Lookup(st, q) == Some(m) {
      assert q == root + q[|root|..];
      LookupAppend(st, root, q[|root|..]);
      DescComplete(Item(root, n), q[|root|..], m);
    }
  }

  /* ---------------------------------------------------------------- order */

  /** Some queued item sits at the parent path of `x`. */
  predicate ParentQueued(queue: seq<Item>, x: Item) {
    |x.path| > 0 && exists i :: 0 <= i < |queue| && queue[i].path == Parent(x.path)
  }

  /** The parent of `out[j]` is a map emitted before it. */
  predicate ParentBefore(out: seq<Item>, j: nat)
    requires j < |out|
  {
    |out[j].path| > 0 &&
    exists i :: 0 <= i < j && out[i].path == Parent(out[j].path) && out[i].node.Map?
  }

  predicate AllMaps(q: seq<Item>) {
    forall i :: 0 <= i < |q| ==> q[i].node.Map?
  }

  lemma NextAllMaps(queue: seq<Item>)
    requires |queue| > 0 && AllMaps(queue)
    ensures AllMaps(queue[1..] + MapItems(Kids(queue[0])))
  {
    var next := queue[1..] + MapItems(Kids(queue[0]));
    forall i | 0 <= i < |next| ensures next[i].node.Map? {
      if i >= |queue| - 1 { assert next[i] in MapItems(Kids(queue[0])); }
    }
  }

  lemma KidsParent(it: Item, k: nat)
    requires it.node.Map? && k < |Kids(it)|
    ensures |Kids(it)[k].path| > 0 && Parent(Kids(it)[k].path) == it.path
  {
    assert Kids(it)[k].path == it.path + [it.node.entries[k].key];
  }

  /** A parent queued for the next round was either queued now or emitted in this round. */
  lemma NextParent(queue: seq<Item>, x: Item) returns (k: int)
    requires |queue| > 0 && ParentQueued(queue[1..] + MapItems(Kids(queue[0])), x)
    ensures ParentQueued(queue, x) ||
      (0 <= k < |Kids(queue[0])| && Kids(queue[0])[k].path == Parent(x.path) && Kids(queue[0])[k].node.Map?)
  {
    var kids := Kids(queue[0]);
    var next := queue[1..] + MapItems(kids);
    var i :| 0 <= i < |next| && next[i].path == Parent(x.path);
    k := -1;
    if i < |queue| - 1 {
      assert queue[i + 1] == next[i];
    } else {
      assert next[i] in MapItems(kids);
      k :| 0 <= k < |kids| && kids[k] == next[i];
    }
  }

  function Next(queue: seq<Item>): seq<Item>
    requires |queue| > 0
  {
    queue[1..] + MapItems(Kids(queue[0]))
  }

  /** One round of the walk: emit the head's children, then walk the next queue. */
  lemma BfsStep(queue: seq<Item>)
    requires |queue| > 0
    ensures QueueSize(Next(queue)) < QueueSize(queue)
    ensures Bfs(queue) == Kids(queue[0]) + Bfs(Next(queue))
  {
    QueueSizeAppend(queue[1..], MapItems(Kids(queue[0])));
    MapItemsSize(Kids(queue[0]));
    if queue[0].node.Map? { ChildItemsSize(queue[0].path, queue[0].node.entries); }
  }

  /** Each emitted node's parent is either a queued item or a map emitted earlier. */
  lemma {:induction false} BfsParentFirst(queue: seq<Item>, j: nat)
    requires AllMaps(queue)
    requires j < |Bfs(queue)|
    ensures ParentQueued(queue, Bfs(queue)[j]) || ParentBefore(Bfs(queue), j)
    decreases QueueSize(queue)
  {
    BfsStep(queue);
    var kids := Kids(queue[0]);
    var next := Next(queue);
    var out := Bfs(queue);
    if j < |kids| {
      KidsParent(queue[0], j);
      assert out[j] == kids[j];
      assert ParentQueued(queue, out[j]);
    } else {
      NextAllMaps(queue);
      BfsParentFirst(next, j - |kids|);
      ShiftParent(queue, kids, Bfs(next), out, j);
    }
  }

  lemma ParentAt(out: seq<Item>, j: nat, i: nat)
    requires i < j < |out| && |out[j].path| > 0
    requires out[i].path == Parent(out[j].path) && out[i].node.Map?
    ensures ParentBefore(out, j)
  {
  }

  /** A parent found for the rest of the walk is found for the whole walk. */
  lemma ShiftParent(queue: seq<Item>, kids: seq<Item>, rest: seq<Item>, out: seq<Item>, j: nat)
    requires |queue| > 0 && kids == Kids(queue[0]) && out == kids + rest
    requires |kids| <= j < |out|
    requires ParentQueued(Next(queue), rest[j - |kids|]) || ParentBefore(rest, j - |kids|)
    ensures ParentQueued(queue, out[j]) || ParentBefore(out, j)
  {
    assert out[j] == rest[j - |kids|];
    if ParentQueued(Next(queue), out[j]) {
      ShiftQueued(queue, kids, out, j);
    } else {
      ShiftBefore(kids, rest, out, j);
    }
  }

  /** A parent queued next is queued now or is one of the head's children, emitted first. */
  lemma ShiftQueued(queue: seq<Item>, kids: seq<Item>, out: seq<Item>, j: nat)
    requires |queue| > 0 && kids == Kids(queue[0])
    requires |kids| <= j < |out| && out[..|kids|] == kids
    requires ParentQueued(Next(queue), out[j])
    ensures ParentQueued(queue, out[j]) || ParentBefore(out, j)
  {
    var k := NextParent(queue, out[j]);
    if !ParentQueued(queue, out[j]) {
      assert out[k] == out[..|kids|][k] == kids[k];
      ParentAt(out, j, k);
    }
  }

  /** A parent emitted earlier in the rest is emitted earlier in the whole. */
  lemma ShiftBefore(kids: seq<Item>, rest: seq<Item>, out: seq<Item>, j: nat)
    requires out == kids + rest && |kids| <= j < |out|
    requires ParentBefore(rest, j - |kids|)
    ensures ParentBefore(out, j)
  {
    var j' := j - |kids|;
    assert out[j] == rest[j'];
    var i :| 0 <= i < j' && rest[i].path == Parent(rest[j'].path) && rest[i].node.Map?;
    assert out[|kids| + i] == rest[i];
    ParentAt(out, j, |kids| + i);
  }

  /* ---------------------------------------------------------------- distinctness */

  /** No queued path lies at or below another. */
  predicate Apart(q: seq<Item>) {
    forall i, j :: 0 <= i < j < |q| ==> Disjoint(q[i].path, q[j].path)
  }

  predicate AllWF(q: seq<Item>) {
    forall i :: 0 <= i < |q| ==> WF(q[i].node)
  }

  /** No path is emitted twice. */
  predicate Distinct(out: seq<Item>) {
    forall i, j :: 0 <= i < j < |out| ==> out[i].path != out[j].path
  }

  lemma ApartConsIntro(a: Item, rest: seq<Item>)
    requires Apart(rest) && forall y :: y in rest ==> Disjoint(a.path, y.path)
    ensures Apart([a] + rest)
  {
    var q := [a] + rest;
    forall i, j | 0 <= i < j < |q| ensures Disjoint(q[i].path, q[j].path) {
      assert q[j] == rest[j - 1];
      if i > 0 { assert q[i] == rest[i - 1]; }
    }
  }

  lemma ApartConsElim(q: seq<Item>)
    requires |q| > 0 && Apart(q)
    ensures Apart(q[1..]) && forall y :: y in q[1..] ==> Disjoint(q[0].path, y.path)
  {
    var rest := q[1..];
    forall i, j | 0 <= i < j < |rest| ensures Disjoint(rest[i].path, rest[j].path) {
      assert rest[i] == q[i + 1] && rest[j] == q[j + 1];
    }
    forall y | y in rest ensures Disjoint(q[0].path, y.path) {
      var j :| 0 <= j < |rest| && rest[j] == y;
      assert q[j + 1] == y;
    }
  }

  /** Keeping only the maps keeps the queue apart. */
  lemma {:induction false} MapItemsApart(xs: seq<Item>)
    requires Apart(xs)
    ensures Apart(MapItems(xs))
  {
    if |xs| > 0 {
      ApartConsElim(xs);
      MapItemsApart(xs[1..]);
      if xs[0].node.Map? {
        assert MapItems(xs) == [xs[0]] + MapItems(xs[1..]);
        ApartConsIntro(xs[0], MapItems(xs[1..]));
      }
    }
  }

  lemma ApartAppend(a: seq<Item>, b: seq<Item>)
    requires Apart(a) && Apart(b)
    requires forall x, y :: x in a && y in b ==> Disjoint(x.path, y.path)
    ensures Apart(a + b)
  {
    var q := a + b;
    forall i, j | 0 <= i < j < |q| ensures Disjoint(q[i].path, q[j].path) {
      if j < |a| {
        assert q[i] == a[i] && q[j] == a[j];
      } else if i >= |a| {
        assert q[i] == b[i - |a|] && q[j] == b[j - |a|];
      } else {
        assert q[i] in a && q[j] in b;
      }
    }
  }

  /** The children of a well-formed map sit one level below it, at distinct keys. */
  lemma KidsApart(it: Item)
    requires WF(it.node)
    ensures Apart(Kids(it)) && AllWF(Kids(it))
    ensures forall x :: x in Kids(it) ==> |x.path| == |it.path| + 1 && IsPrefix(it.path, x.path)
  {
    if it.node.Map? {
      var es := it.node.entries;
      var ks := Kids(it);
      forall i, j | 0 <= i < j < |ks| ensures Disjoint(ks[i].path, ks[j].path) {
        Strs.LessIrreflexive(es[i].key);
        assert ks[i].path[|it.path|] == es[i].key;
        DisjointSameLength(ks[i].path, ks[j].path);
      }
      forall i | 0 <= i < |ks| ensures WF(ks[i].node) { WFIn(es, es[i]); }
      forall x | x in ks ensures |x.path| == |it.path| + 1 && IsPrefix(it.path, x.path) {
        var i :| 0 <= i < |ks| && ks[i] == x;
        assert x.path[..|it.path|] == it.path;
      }
    }
  }

  /** The queue of the next round keeps the invariant. */
  lemma NextApart(queue: seq<Item>)
    requires |queue| > 0 && AllWF(queue) && Apart(queue)
    ensures AllWF(Next(queue)) && Apart(Next(queue))
  {
    var kids := Kids(queue[0]);
    var maps := MapItems(kids);
    var rest := queue[1..];
    KidsApart(queue[0]);
    MapItemsApart(kids);
    ApartConsElim(queue);
    forall x, y | x in rest && y in maps ensures Disjoint(x.path, y.path) {
      DisjointBelow(queue[0].path, y.path, x.path);
    }
    ApartAppend(rest, maps);
    var next := Next(queue);
    forall i | 0 <= i < |next| ensures WF(next[i].node) {
      if i < |rest| { assert next[i] == queue[i + 1]; } else { assert next[i] in kids; }
    }
  }

  lemma {:induction false} DescQueueFrom(q: seq<Item>, x: Item)
    requires x in DescQueue(q)
    ensures exists j :: 0 <= j < |q| && x in Desc(q[j])
  {
    if x !in Desc(q[0]) {
      DescQueueFrom(q[1..], x);
      var j :| 0 <= j < |q[1..]| && x in Desc(q[1..][j]);
      assert q[j + 1] == q[1..][j];
    }
  }

  /** A child emitted now is not emitted again by the later rounds. */
  lemma KidNotLater(queue: seq<Item>, k: nat, x: Item)
    requires |queue| > 0 && AllWF(queue) && Apart(queue)
    requires k < |Kids(queue[0])| && x in Bfs(Next(queue))
    ensures Kids(queue[0])[k].path != x.path
  {
    var kid := Kids(queue[0])[k];
    var next := Next(queue);
    var p := queue[0].path;
    KidsApart(queue[0]);
    assert kid in Kids(queue[0]);
    NextApart(queue);
    BfsIsDesc(next);
    DescQueueFrom(next, x);
    var j :| 0 <= j < |next| && x in Desc(next[j]);
    DescSound(next[j], x);
    if j < |queue| - 1 {
      assert next[j] == queue[j + 1];
      assert queue[j + 1] in queue[1..];
      ApartConsElim(queue);
      DisjointBelow(p, kid.path, next[j].path);
    } else {
      assert next[j] in Kids(queue[0]);
    }
  }

  lemma DistinctAppend(a: seq<Item>, b: seq<Item>)
    requires Distinct(a) && Distinct(b)
    requires forall i, j :: 0 <= i < |a| && 0 <= j < |b| ==> a[i].path != b[j].path
    ensures Distinct(a + b)
  {
    var q := a + b;
    forall i, j | 0 <= i < j < |q| ensures q[i].path != q[j].path {
      if j < |a| {
        assert q[i] == a[i] && q[j] == a[j];
      } else if i >= |a| {
        assert q[i] == b[i - |a|] && q[j] == b[j - |a|];
      } else {
        assert q[i] == a[i] && q[j] == b[j - |a|];
      }
    }
  }

  /** Apart paths are distinct paths. */
  lemma ApartDistinct(q: seq<Item>)
    requires Apart(q)
    ensures Distinct(q)
  {
    forall i, j | 0 <= i < j < |q| ensures q[i].path != q[j].path {
      assert q[i].path[..|q[i].path|] == q[i].path;
    }
  }

  /** Started from well-formed, mutually apart items, the walk emits every path once. */
  lemma {:induction false} BfsDistinct(queue: seq<Item>)
    requires AllWF(queue) && Apart(queue)
    ensures Distinct(Bfs(queue))
    decreases QueueSize(queue)
  {
    if |queue| > 0 {
      BfsStep(queue);
      var kids := Kids(queue[0]);
      var next := Next(queue);
      NextApart(queue);
      BfsDistinct(next);
      KidsApart(queue[0]);
      ApartDistinct(kids);
      var rest := Bfs(next);
      forall i, j | 0 <= i < |kids| && 0 <= j < |rest| ensures kids[i].path != rest[j].path {
        KidNotLater(queue, i, rest[j]);
      }
      DistinctAppend(kids, rest);
    }
  }

  /** The walk from `root` emits no path twice. */
  lemma WalkFromDistinct(st: Node, root: Path)
    requires WF(st) && IsMapAt(st, root)
    ensures Distinct(WalkFrom(st, root).value)
  {
    LookupWF(st, root);
    BfsDistinct([Item(root, Lookup(st, root).value)]);
  }
}
