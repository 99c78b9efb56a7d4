/** `moveAll` of the WebDAV file system: a breadth-first walk from the source path over the
    live write transaction. Each visited node is recreated at the same relative position
    under the destination path (a value by `Put`, a map by `CreateMap`, after which the map's
    children are queued), and finally the source path is deleted. The loop has no bound of
    its own; `fuel` counts the rounds the model lets it run. */
module Move {
  import opened Wrappers
  import opened Store
  import Walk
  import Strs

  /** Where `p`, at or below `src`, lands below `dst`. */
  function Moved(src: Path, dst: Path, p: Path): Path
    requires IsPrefix(src, p)
  {
    dst + p[|src|..]
  }

  predicate AllUnder(src: Path, q: seq<Path>) {
    forall i :: 0 <= i < |q| ==> IsPrefix(src, q[i])
  }

  /** The paths of the children of the map at `p`, in key order. */
  function ChildPaths(p: Path, es: seq<Entry>): (r: seq<Path>)
    ensures |r| == |es|
    ensures forall i :: 0 <= i < |es| ==> r[i] == p + [es[i].key]
  {
    if |es| == 0 then [] else [p + [es[0].key]] + ChildPaths(p, es[1..])
  }

  lemma ChildPathsUnder(src: Path, p: Path, es: seq<Entry>)
    requires IsPrefix(src, p)
    ensures AllUnder(src, ChildPaths(p, es))
  {
    var cs := ChildPaths(p, es);
    forall i | 0 <= i < |cs| ensures IsPrefix(src, cs[i]) {
      assert cs[i][..|src|] == p[..|src|];
    }
  }

  datatype Loop = Loop(st: Node, queue: seq<Path>)

  /** One round: pop the head, recreate it under `dst`, and queue its children as the
      live transaction sees them after the write. */
  function Step(src: Path, dst: Path, l: Loop): (r: Result<Loop, StoreError>)
    requires WF(l.st) && |l.queue| > 0 && AllUnder(src, l.queue)
    ensures r.Ok? ==> WF(r.value.st) && AllUnder(src, r.value.queue)
  {
    var head := l.queue[0];
    var nh := Moved(src, dst, head);
    assert AllUnder(src, l.queue[1..]) by {
      forall i | 0 <= i < |l.queue[1..]| ensures IsPrefix(src, l.queue[1..][i]) {
        assert l.queue[1..][i] == l.queue[i + 1];
      }
    }
    if !IsMapAt(l.st, head) then
      var d :- Get(l.st, head);
      var st' :- Put(l.st, nh, d);
      Ok(Loop(st', l.queue[1..]))
    else
      var st' :- CreateMap(l.st, nh);
      var es :- Children(st', head);
      ChildPathsUnder(src, head, es);
      Ok(Loop(st', l.queue[1..] + ChildPaths(head, es)))
  }

  /** How a move ends: the loop drains its queue, a store call fails (the transaction is
      rolled back), or it is still running when the fuel is spent. `Invalid` is the
      checked move's refusal to move a path below itself. */
  datatype Outcome = Finished(st: Node) | Failed(err: StoreError) | OutOfFuel | Invalid

  /** The loop of `moveAll` with `fuel` rounds to go: it ends when the queue is empty. */
  function Run(src: Path, dst: Path, l: Loop, fuel: nat): (r: Outcome)
    requires WF(l.st) && AllUnder(src, l.queue)
    ensures r.Finished? ==> WF(r.st)
    decreases fuel, 2
  {
    if |l.queue| == 0 then Finished(l.st)
    else Round(src, dst, l, fuel)
  }

  /** A round of the loop, unless the fuel is spent. */
  function Round(src: Path, dst: Path, l: Loop, fuel: nat): (r: Outcome)
    requires WF(l.st) && |l.queue| > 0 && AllUnder(src, l.queue)
    ensures r.Finished? ==> WF(r.st)
    decreases fuel, 1
  {
    if fuel == 0 then OutOfFuel
    else Advance(src, dst, l, fuel)
  }

  /** One step, then the rest of the loop; a failing store call ends it. */
  function Advance(src: Path, dst: Path, l: Loop, fuel: nat): (r: Outcome)
    requires WF(l.st) && |l.queue| > 0 && AllUnder(src, l.queue) && fuel > 0
    ensures r.Finished? ==> WF(r.st)
    decreases fuel, 0
  {
    match Step(src, dst, l)
    case Err(e) => Failed(e)
    case Ok(l') => Run(src, dst, l', fuel - 1)
  }

  /** `moveAll(tx, src, dst)` as written. */
  function MoveAll(st: Node, src: Path, dst: Path, fuel: nat): (r: Outcome)
    requires WF(st)
    ensures r.Finished? ==> WF(r.st) && !Exists(r.st, src)
  {
    assert AllUnder(src, [src]) by { assert src[..|src|] == src; }
    match Run(src, dst, Loop(st, [src]), fuel)
    case Finished(s) =>
      (match Delete(s, src)
       case Ok(f) =>
         DeleteExists(s, src, src);
         assert src[..|src|] == src;
         Finished(f)
       case Err(e) => Failed(e))
    case o => o
  }

  /* ---------------------------------------------------------------- shapes */

  /** What a copy must agree on: presence, kind, and the bytes of a value. */
  function Shape(o: Option<Node>): Option<Node> {
    match o
    case None => None
    case Some(Map(_)) => Some(Map([]))
    case Some(Value(d)) => Some(Value(d))
  }

  /** At relative path `r`, the tree `s` holds below `dst` what `st0` holds below `src`,
      in shape. */
  predicate Copied(st0: Node, src: Path, s: Node, dst: Path, r: Path) {
    Shape(Lookup(s, dst + r)) == Shape(Lookup(st0, src + r))
  }

  /** Writing an empty map or a value where nothing was leaves the shape of every other
      path as it was. */
  lemma FreshWrite(s: Node, p: Path, sub: Node, q: Path)
    requires WF(s) && |p| > 0 && Replace(s, p, Some(sub)).Some? && !Exists(s, p)
    requires sub == Map([]) || sub.Value?
    ensures q == p ==> Lookup(Replace(s, p, Some(sub)).value, q) == Some(sub)
    ensures q != p ==> Shape(Lookup(Replace(s, p, Some(sub)).value, q)) == Shape(Lookup(s, q))
  {
    var s' := Replace(s, p, Some(sub)).value;
    if IsPrefix(p, q) {
      ReplaceBelow(s, p, Some(sub), q);
      if q != p {
        assert |q| > |p| by { assert q[..|q|] == q; }
        BelowLeaf(s, p, q);
      } else {
        assert q[|p|..] == [];
      }
    } else if IsPrefix(q, p) {
      AboveWrite(s, p, Some(sub), q);
      ReplaceSucceeds(s, p, Some(sub));
      PrefixesNest(q, Parent(p), p);
      MapAbove(s, q, Parent(p));
    } else {
      WriteFrame(s, p, Some(sub), q);
    }
  }

  /** An ancestor of a map is a map. */
  lemma MapAbove(s: Node, q: Path, p: Path)
    requires IsPrefix(q, p) && IsMapAt(s, p)
    ensures IsMapAt(s, q)
  {
    if |q| < |p| && !IsMapAt(s, q) {
      BelowLeaf(s, q, p);
    }
    if |q| == |p| { assert q == p[..|q|]; assert p[..|p|] == p; }
  }

  /* ---------------------------------------------------------------- moved paths */

  lemma PrefixShift(x: Path, a: Path, b: Path)
    ensures IsPrefix(x + a, x + b) <==> IsPrefix(a, b)
  {
    if IsPrefix(a, b) { assert (x + b)[..|x + a|] == x + b[..|a|]; }
    if IsPrefix(x + a, x + b) { assert b[..|a|] == (x + b)[..|x + a|][|x|..]; }
  }

  /** Moving keeps the prefix order among paths below the source. */
  lemma MovedPrefix(src: Path, dst: Path, p: Path, q: Path)
    requires IsPrefix(src, p) && IsPrefix(src, q)
    ensures IsPrefix(Moved(src, dst, p), Moved(src, dst, q)) <==> IsPrefix(p, q)
  {
    var a, b := p[|src|..], q[|src|..];
    assert p == src + a && q == src + b;
    PrefixShift(src, a, b);
    PrefixShift(dst, a, b);
  }

  lemma MovedDisjoint(src: Path, dst: Path, p: Path, q: Path)
    requires IsPrefix(src, p) && IsPrefix(src, q) && Disjoint(p, q)
    ensures Disjoint(Moved(src, dst, p), Moved(src, dst, q))
  {
    MovedPrefix(src, dst, p, q);
    MovedPrefix(src, dst, q, p);
  }

  lemma MovedInjective(src: Path, dst: Path, p: Path, q: Path)
    requires IsPrefix(src, p) && IsPrefix(src, q) && p != q
    ensures Moved(src, dst, p) != Moved(src, dst, q)
  {
    var a, b := p[|src|..], q[|src|..];
    assert p == src + a && q == src + b;
    assert (dst + a)[|dst|..] == a && (dst + b)[|dst|..] == b;
  }

  lemma MovedRel(src: Path, dst: Path, r: Path)
    ensures IsPrefix(src, src + r) && Moved(src, dst, src + r) == dst + r
  {
    assert (src + r)[..|src|] == src;
    assert (src + r)[|src|..] == r;
  }

  lemma MovedChild(src: Path, dst: Path, h: Path, k: string)
    requires IsPrefix(src, h)
    ensures IsPrefix(src, h + [k]) && Moved(src, dst, h + [k]) == Moved(src, dst, h) + [k]
  {
    assert (h + [k])[..|src|] == h[..|src|];
    assert (h + [k])[|src|..] == h[|src|..] + [k];
  }

  /** A path below the source reads the same wherever the loop writes only beside the
      source. */
  lemma SourceIntact(st0: Node, s: Node, src: Path, dst: Path, q: Path)
    requires Disjoint(src, dst) && SameBeside(st0, s, dst) && IsPrefix(src, q)
    ensures Lookup(s, q) == Lookup(st0, q)
  {
    DisjointBelow(src, q, dst);
  }

  /* ---------------------------------------------------------------- the loop invariant */

  /** Paths pairwise neither at nor below each other. */
  predicate Apart(q: seq<Path>) {
    forall i, j :: 0 <= i < j < |q| ==> Disjoint(q[i], q[j])
  }

  /** Some queued path is at or above `p`: its subtree is still to be copied. */
  predicate Pending(q: seq<Path>, p: Path) {
    exists i :: 0 <= i < |q| && IsPrefix(q[i], p)
  }

  /** The nodes still to be copied from a queued path. */
  function Weight(st0: Node, p: Path): nat {
    match Lookup(st0, p)
    case None => 0
    case Some(n) => Walk.NodeSize(n)
  }

  function Measure(st0: Node, q: seq<Path>): nat {
    if |q| == 0 then 0 else Weight(st0, q[0]) + Measure(st0, q[1..])
  }

  lemma {:induction false} MeasureAppend(st0: Node, a: seq<Path>, b: seq<Path>)
    ensures Measure(st0, a + b) == Measure(st0, a) + Measure(st0, b)
  {
    if |a| > 0 {
      assert (a + b)[1..] == a[1..] + b;
      MeasureAppend(st0, a[1..], b);
    } else {
      assert a + b == b;
    }
  }

  lemma {:induction false} ChildMeasure(st0: Node, h: Path, es: seq<Entry>)
    requires forall j :: 0 <= j < |es| ==> Lookup(st0, h + [es[j].key]) == Some(es[j].node)
    ensures Measure(st0, ChildPaths(h, es)) == Walk.EntriesSize(es)
  {
    if |es| > 0 {
      assert ChildPaths(h, es)[1..] == ChildPaths(h, es[1..]);
      assert Weight(st0, h + [es[0].key]) == Walk.NodeSize(es[0].node);
      ChildMeasure(st0, h, es[1..]);
    }
  }

  /** What holds before every round of a move from `src` to the disjoint `dst`, started
      on `st0`:
      - the queue holds existing source paths, none at or below another;
      - nothing beside `dst` has changed;
      - the copy of every queued path is missing and its parent is a map;
      - every path that no queued path covers is already copied, in shape. */
  ghost predicate Inv(st0: Node, src: Path, dst: Path, l: Loop) {
    && WF(st0) && Disjoint(src, dst)
    && WF(l.st) && AllUnder(src, l.queue)
    && Apart(l.queue)
    && SameBeside(st0, l.st, dst)
    && (forall i {:trigger Exists(st0, l.queue[i])} :: 0 <= i < |l.queue| ==> Exists(st0, l.queue[i]))
    && (forall i {:trigger Moved(src, dst, l.queue[i])} :: 0 <= i < |l.queue| ==>
          !Exists(l.st, Moved(src, dst, l.queue[i])) && IsMapAt(l.st, Parent(Moved(src, dst, l.queue[i]))))
    && (forall r {:trigger Pending(l.queue, src + r)} ::
          !Pending(l.queue, src + r) ==> Copied(st0, src, l.st, dst, r))
  }

  /** Writing the copy of the head, an empty map or a value, disturbs neither the rest of
      the queue nor what is already copied. */
  lemma WriteKeeps(st0: Node, src: Path, dst: Path, l: Loop, sub: Node)
    requires Inv(st0, src, dst, l) && |l.queue| > 0
    requires sub == Map([]) || sub.Value?
    requires Replace(l.st, Moved(src, dst, l.queue[0]), Some(sub)).Some?
    ensures var s' := Replace(l.st, Moved(src, dst, l.queue[0]), Some(sub)).value;
      SameBeside(st0, s', dst)
    ensures var s' := Replace(l.st, Moved(src, dst, l.queue[0]), Some(sub)).value;
      forall i :: 1 <= i < |l.queue| ==>
        !Exists(s', Moved(src, dst, l.queue[i])) && IsMapAt(s', Parent(Moved(src, dst, l.queue[i])))
    ensures var s' := Replace(l.st, Moved(src, dst, l.queue[0]), Some(sub)).value;
      forall r :: !Pending(l.queue, src + r) ==> Copied(st0, src, s', dst, r)
  {
    var h := l.queue[0];
    var nh := Moved(src, dst, h);
    var s' := Replace(l.st, nh, Some(sub)).value;
    WriteUnderDst(st0, l.st, dst, nh, Some(sub));
    forall i | 1 <= i < |l.queue|
      ensures !Exists(s', Moved(src, dst, l.queue[i])) && IsMapAt(s', Parent(Moved(src, dst, l.queue[i])))
    {
      MovedDisjoint(src, dst, h, l.queue[i]);
      WriteBesideQueued(l.st, nh, sub, Moved(src, dst, l.queue[i]));
    }
    forall r | !Pending(l.queue, src + r)
      ensures Copied(st0, src, s', dst, r)
    {
      assert IsPrefix(h, h);
      WriteBesideCopied(st0, src, dst, l.st, h, sub, r);
    }
  }

  /** A write at or below `dst` leaves everything beside `dst` as it was in `st0`. */
  lemma WriteUnderDst(st0: Node, s: Node, dst: Path, p: Path, sub: Option<Node>)
    requires WF(s) && |p| > 0 && Replace(s, p, sub).Some?
    requires SameBeside(st0, s, dst) && IsPrefix(dst, p)
    ensures SameBeside(st0, Replace(s, p, sub).value, dst)
  {
    forall q | Disjoint(dst, q) ensures Lookup(st0, q) == Lookup(Replace(s, p, sub).value, q) {
      DisjointBelow(dst, p, q);
      WriteFrame(s, p, sub, q);
    }
  }

  /** A queued path beside the written one stays fresh with its parent a map. */
  lemma WriteBesideQueued(s: Node, nh: Path, sub: Node, m: Path)
    requires WF(s) && |nh| > 0 && Replace(s, nh, Some(sub)).Some? && !Exists(s, nh)
    requires sub == Map([]) || sub.Value?
    requires Disjoint(nh, m) && !Exists(s, m) && IsMapAt(s, Parent(m))
    ensures var s' := Replace(s, nh, Some(sub)).value;
      !Exists(s', m) && IsMapAt(s', Parent(m))
  {
    FreshWrite(s, nh, sub, m);
    assert IsPrefix(Parent(m), m);
    FreshWrite(s, nh, sub, Parent(m));
  }

  /** A copied path other than the head's copy stays copied. */
  lemma WriteBesideCopied(st0: Node, src: Path, dst: Path, s: Node, h: Path, sub: Node, r: Path)
    requires IsPrefix(src, h) && h != src + r && Copied(st0, src, s, dst, r)
    requires WF(s) && |Moved(src, dst, h)| > 0 && !Exists(s, Moved(src, dst, h))
    requires Replace(s, Moved(src, dst, h), Some(sub)).Some?
    requires sub == Map([]) || sub.Value?
    ensures Copied(st0, src, Replace(s, Moved(src, dst, h), Some(sub)).value, dst, r)
  {
    MovedRel(src, dst, r);
    MovedInjective(src, dst, src + r, h);
    FreshWrite(s, Moved(src, dst, h), sub, dst + r);
  }

  lemma ApartTail(q: seq<Path>)
    requires |q| > 0 && Apart(q)
    ensures Apart(q[1..])
  {
    forall i, j | 0 <= i < j < |q[1..]| ensures Disjoint(q[1..][i], q[1..][j]) {
      assert q[1..][i] == q[i + 1] && q[1..][j] == q[j + 1];
    }
  }

  /** Nothing queued behind the head covers `p` unless `p` lies under the head. */
  lemma PendingTail(q: seq<Path>, p: Path)
    requires |q| > 0 && !Pending(q[1..], p) && !IsPrefix(q[0], p)
    ensures !Pending(q, p)
  {
    forall i | 0 < i < |q| ensures !IsPrefix(q[i], p) {
      assert q[i] == q[1..][i - 1];
    }
  }

  /** A round on a value: its bytes are written at the copy and the head is dropped. */
  lemma StepValue(st0: Node, src: Path, dst: Path, l: Loop, d: Bytes)
    requires Inv(st0, src, dst, l) && |l.queue| > 0
    requires Lookup(st0, l.queue[0]) == Some(Value(d))
    ensures Step(src, dst, l).Ok?
    ensures Inv(st0, src, dst, Step(src, dst, l).value)
    ensures Measure(st0, Step(src, dst, l).value.queue) + 1 == Measure(st0, l.queue)
  {
    var q := l.queue;
    var h := q[0];
    var nh := Moved(src, dst, h);
    SourceIntact(st0, l.st, src, dst, h);
    var s' := Put(l.st, nh, d).value;
    assert Step(src, dst, l) == Ok(Loop(s', q[1..]));
    WriteKeeps(st0, src, dst, l, Value(d));
    WriteHere(l.st, nh, Some(Value(d)));
    ApartTail(q);
    forall r | !Pending(q[1..], src + r)
      ensures Copied(st0, src, s', dst, r)
    {
      MovedRel(src, dst, r);
      if IsPrefix(h, src + r) {
        MovedPrefix(src, dst, h, src + r);
        if |src + r| > |h| {
          BelowLeaf(st0, h, src + r);
          BelowLeaf(s', nh, dst + r);
        } else {
          assert src + r == h;
        }
      } else {
        PendingTail(q, src + r);
      }
    }
    assert forall i :: 0 <= i < |q[1..]| ==> q[1..][i] == q[i + 1];
  }

  /** The children of a map read back through their paths. */
  lemma ChildrenExist(st0: Node, h: Path, es: seq<Entry>)
    requires WF(st0) && Lookup(st0, h) == Some(Map(es))
    ensures forall j :: 0 <= j < |es| ==> Lookup(st0, h + [es[j].key]) == Some(es[j].node)
  {
    LookupWF(st0, h);
    forall j | 0 <= j < |es| ensures Lookup(st0, h + [es[j].key]) == Some(es[j].node) {
      LookupAppend(st0, h, [es[j].key]);
      FindSorted(es, j);
    }
  }

  /** Below an empty map nothing exists. */
  lemma BelowEmpty(s: Node, p: Path, q: Path)
    requires Lookup(s, p) == Some(Map([])) && IsPrefix(p, q) && |q| > |p|
    ensures Lookup(s, q) == None
  {
    assert q == p + q[|p|..];
    LookupAppend(s, p, q[|p|..]);
  }

  /** The children queued after a map are apart from each other and from the rest of the
      queue. */
  lemma ChildQueueApart(q: seq<Path>, es: seq<Entry>)
    requires |q| > 0 && Apart(q) && Sorted(es)
    ensures Apart(q[1..] + ChildPaths(q[0], es))
  {
    var h := q[0];
    var c := ChildPaths(h, es);
    var r := q[1..] + c;
    forall i, j | 0 <= i < j < |r| ensures Disjoint(r[i], r[j]) {
      if j < |q| - 1 {
        assert r[i] == q[i + 1] && r[j] == q[j + 1];
      } else if i < |q| - 1 {
        assert r[i] == q[i + 1] && r[j] == c[j - |q| + 1];
        assert r[j][..|h|] == h;
        DisjointBelow(h, r[j], r[i]);
      } else {
        var a, b := i - |q| + 1, j - |q| + 1;
        assert r[i] == c[a] && r[j] == c[b];
        Strs.LessIrreflexive(es[a].key);
        assert c[a][|h|] == es[a].key && c[b][|h|] == es[b].key;
        DisjointSameLength(c[a], c[b]);
      }
    }
  }

  /** After the empty map is written, every child of the head is fresh and has its parent. */
  lemma ChildrenFresh(src: Path, dst: Path, h: Path, es: seq<Entry>, s': Node)
    requires IsPrefix(src, h) && Lookup(s', Moved(src, dst, h)) == Some(Map([]))
    ensures forall j :: 0 <= j < |es| ==>
      IsPrefix(src, h + [es[j].key]) &&
      !Exists(s', Moved(src, dst, h + [es[j].key])) &&
      IsMapAt(s', Parent(Moved(src, dst, h + [es[j].key])))
  {
    var nh := Moved(src, dst, h);
    forall j | 0 <= j < |es|
      ensures IsPrefix(src, h + [es[j].key])
      ensures !Exists(s', Moved(src, dst, h + [es[j].key]))
      ensures IsMapAt(s', Parent(Moved(src, dst, h + [es[j].key])))
    {
      var k := es[j].key;
      MovedChild(src, dst, h, k);
      assert (nh + [k])[..|nh|] == nh;
      BelowEmpty(s', nh, nh + [k]);
    }
  }

  /** After a map's round, everything no longer covered by the queue is copied. */
  lemma MapDone(st0: Node, src: Path, dst: Path, q: seq<Path>, es: seq<Entry>, s': Node)
    requires |q| > 0 && IsPrefix(src, q[0])
    requires Lookup(st0, q[0]) == Some(Map(es))
    requires Lookup(s', Moved(src, dst, q[0])) == Some(Map([]))
    requires forall r :: !Pending(q, src + r) ==> Copied(st0, src, s', dst, r)
    ensures forall r :: !Pending(q[1..] + ChildPaths(q[0], es), src + r) ==>
      Copied(st0, src, s', dst, r)
  {
    var h := q[0];
    var nh := Moved(src, dst, h);
    var c := ChildPaths(h, es);
    var q' := q[1..] + c;
    forall r | !Pending(q', src + r)
      ensures Copied(st0, src, s', dst, r)
    {
      var p := src + r;
      MovedRel(src, dst, r);
      if IsPrefix(h, p) {
        MovedPrefix(src, dst, h, p);
        if |p| > |h| {
          MissingChild(st0, q, es, p);
          BelowEmpty(s', nh, dst + r);
        } else {
          assert p == h;
        }
      } else {
        forall i | 0 <= i < |q[1..]| ensures !IsPrefix(q[1..][i], p) {
          assert q'[i] == q[1..][i];
        }
        PendingTail(q, p);
      }
    }
  }

  /** A path strictly under the head that no queued child covers does not exist. */
  lemma MissingChild(st0: Node, q: seq<Path>, es: seq<Entry>, p: Path)
    requires |q| > 0 && Lookup(st0, q[0]) == Some(Map(es))
    requires IsPrefix(q[0], p) && |p| > |q[0]|
    requires !Pending(q[1..] + ChildPaths(q[0], es), p)
    ensures Lookup(st0, p) == None
  {
    var h := q[0];
    var c := ChildPaths(h, es);
    var all := q[1..] + c;
    var k := p[|h|];
    var ch := h + [k];
    assert IsPrefix(ch, p) by { assert p[..|ch|] == ch; }
    forall j | 0 <= j < |es| ensures es[j].key != k {
      assert all[|q| - 1 + j] == c[j];
      assert !IsPrefix(c[j], p);
    }
    assert Find(es, k) == None;
    LookupAppend(st0, h, [k]);
    assert Lookup(st0, ch) == None;
    var rest := p[|ch|..];
    assert ch + rest == p;
    LookupAppend(st0, ch, rest);
  }

  /** A round on a map: an empty map is created at the copy and the map's children, read
      back through the live transaction, are queued. */
  lemma StepMap(st0: Node, src: Path, dst: Path, l: Loop, es: seq<Entry>)
    requires Inv(st0, src, dst, l) && |l.queue| > 0
    requires Lookup(st0, l.queue[0]) == Some(Map(es))
    ensures Step(src, dst, l).Ok?
    ensures Inv(st0, src, dst, Step(src, dst, l).value)
    ensures Measure(st0, Step(src, dst, l).value.queue) + 1 == Measure(st0, l.queue)
  {
    var q := l.queue;
    var h := q[0];
    var nh := Moved(src, dst, h);
    SourceIntact(st0, l.st, src, dst, h);
    var s' := CreateMap(l.st, nh).value;
    DisjointBelow(src, h, dst);
    DisjointBelow(dst, nh, h);
    WriteFrame(l.st, nh, Some(Map([])), h);
    var c := ChildPaths(h, es);
    var q' := q[1..] + c;
    assert Step(src, dst, l) == Ok(Loop(s', q'));
    WriteKeeps(st0, src, dst, l, Map([]));
    WriteHere(l.st, nh, Some(Map([])));
    LookupWF(st0, h);
    ChildQueueApart(q, es);
    ChildrenExist(st0, h, es);
    ChildrenFresh(src, dst, h, es, s');
    MapDone(st0, src, dst, q, es, s');
    forall i | 0 <= i < |q'|
      ensures Exists(st0, q'[i]) && !Exists(s', Moved(src, dst, q'[i])) && IsMapAt(s', Parent(Moved(src, dst, q'[i])))
    {
      if i < |q| - 1 {
        assert q'[i] == q[i + 1];
      } else {
        assert q'[i] == h + [es[i - |q| + 1].key];
      }
    }
    MeasureAppend(st0, q[1..], c);
    ChildMeasure(st0, h, es);
  }

  /** Every round from an invariant state succeeds, keeps the invariant and uses up one
      unit of the remaining work. */
  lemma StepKeeps(st0: Node, src: Path, dst: Path, l: Loop)
    requires Inv(st0, src, dst, l) && |l.queue| > 0
    ensures Step(src, dst, l).Ok?
    ensures Inv(st0, src, dst, Step(src, dst, l).value)
    ensures Measure(st0, Step(src, dst, l).value.queue) + 1 == Measure(st0, l.queue)
  {
    assert Exists(st0, l.queue[0]);
    match Lookup(st0, l.queue[0]).value
    case Value(d) => StepValue(st0, src, dst, l, d);
    case Map(es) => StepMap(st0, src, dst, l, es);
  }

  /** With fuel for every node below the source, the loop drains its queue. */
  lemma {:induction false} RunFinishes(st0: Node, src: Path, dst: Path, l: Loop, fuel: nat)
    requires Inv(st0, src, dst, l) && fuel >= Measure(st0, l.queue)
    ensures Drained(st0, src, dst, Run(src, dst, l, fuel))
    decreases fuel
  {
    if |l.queue| > 0 {
      var l' := Next(st0, src, dst, l, fuel);
      RunFinishes(st0, src, dst, l', fuel - 1);
    } else {
      Done(st0, src, dst, l, fuel);
    }
  }

  /** A round from an invariant state, as the loop runs it: it succeeds, keeps the
      invariant and spends one unit of fuel out of the measure. */
  lemma Next(st0: Node, src: Path, dst: Path, l: Loop, fuel: nat) returns (l': Loop)
    requires Inv(st0, src, dst, l) && |l.queue| > 0 && fuel >= Measure(st0, l.queue)
    ensures fuel >= 1 && Inv(st0, src, dst, l') && fuel - 1 >= Measure(st0, l'.queue)
    ensures Run(src, dst, l, fuel) == Run(src, dst, l', fuel - 1)
  {
    WorkLeft(st0, src, dst, l);
    StepKeeps(st0, src, dst, l);
    l' := Step(src, dst, l).value;
    RunStep(src, dst, l, fuel);
  }

  /** With the queue drained, the loop stops with everything copied. */
  lemma Done(st0: Node, src: Path, dst: Path, l: Loop, fuel: nat)
    requires Inv(st0, src, dst, l) && |l.queue| == 0
    ensures Drained(st0, src, dst, Run(src, dst, l, fuel))
  {
    assert l == Loop(l.st, []);
    DrainedQueue(st0, src, dst, l.st);
  }

  /** A non-empty queue holds work. */
  lemma WorkLeft(st0: Node, src: Path, dst: Path, l: Loop)
    requires Inv(st0, src, dst, l) && |l.queue| > 0
    ensures Measure(st0, l.queue) >= 1
  {
    assert Exists(st0, l.queue[0]);
  }

  /** A round with fuel left: the loop goes on from the stepped state, or fails with the
      step's error. */
  lemma RunStep(src: Path, dst: Path, l: Loop, fuel: nat)
    requires WF(l.st) && AllUnder(src, l.queue) && |l.queue| > 0 && fuel > 0
    ensures Step(src, dst, l).Ok? ==> Run(src, dst, l, fuel) == Run(src, dst, Step(src, dst, l).value, fuel - 1)
    ensures Step(src, dst, l).Err? ==> Run(src, dst, l, fuel) == Failed(Step(src, dst, l).error)
  {
    assert Run(src, dst, l, fuel) == Round(src, dst, l, fuel) == Advance(src, dst, l, fuel);
  }

  /** The loop starts in an invariant state with work for every node below the source. */
  lemma StartInv(st0: Node, src: Path, dst: Path)
    requires WF(st0) && Disjoint(src, dst)
    requires Exists(st0, src) && !Exists(st0, dst) && IsMapAt(st0, Parent(dst))
    ensures Inv(st0, src, dst, Loop(st0, [src]))
    ensures Measure(st0, [src]) == Walk.NodeSize(Lookup(st0, src).value)
  {
    var l := Loop(st0, [src]);
    MovedRel(src, dst, []);
    assert src + [] == src && dst + [] == dst;
    forall r ensures Pending(l.queue, src + r) {
      assert IsPrefix(l.queue[0], src + r) by { assert (src + r)[..|src|] == src; }
    }
    assert [src][1..] == [];
  }

  /** The loop has drained its queue with everything copied and nothing beside the
      destination changed. */
  ghost predicate Drained(st0: Node, src: Path, dst: Path, o: Outcome) {
    && o.Finished? && WF(o.st)
    && SameBeside(st0, o.st, dst)
    && forall r :: Copied(st0, src, o.st, dst, r)
  }

  lemma DrainedQueue(st0: Node, src: Path, dst: Path, s: Node)
    requires Inv(st0, src, dst, Loop(s, []))
    ensures Drained(st0, src, dst, Finished(s))
  {
    forall r ensures Copied(st0, src, s, dst, r) {
      assert !Pending([], src + r);
    }
  }

  lemma MoveAllFinished(st0: Node, src: Path, dst: Path, fuel: nat)
    requires WF(st0) && Disjoint(src, dst)
    requires Run(src, dst, Loop(st0, [src]), fuel).Finished?
    requires Exists(Run(src, dst, Loop(st0, [src]), fuel).st, src)
    ensures var s := Run(src, dst, Loop(st0, [src]), fuel).st;
      MoveAll(st0, src, dst, fuel) == Finished(Delete(s, src).value)
  {
  }

  /* ---------------------------------------------------------------- shapes decide trees */

  lemma NotBoth(x: string, y: string)
    ensures !(Strs.Less(x, y) && Strs.Less(y, x))
  {
    if Strs.Less(x, y) { Strs.LessAsymmetric(x, y); }
  }

  /** Sorted child lists with the same keys start with the same key. */
  lemma SameFirstKey(a: seq<Entry>, b: seq<Entry>)
    requires Sorted(a) && Sorted(b) && KeySet(a) == KeySet(b) && |a| > 0 && |b| > 0
    ensures a[0].key == b[0].key
  {
    var x, y := a[0].key, b[0].key;
    NotBoth(x, y);
    assert x in KeySet(b);
    var j :| 0 <= j < |b| && b[j].key == x;
    FirstLeast(b, j);
    assert y in KeySet(a);
    var i :| 0 <= i < |a| && a[i].key == y;
    FirstLeast(a, i);
  }

  lemma FirstLeast(es: seq<Entry>, j: nat)
    requires Sorted(es) && j < |es|
    ensures j == 0 || Strs.Less(es[0].key, es[j].key)
  {
  }

  /** Dropping the first entry of a sorted list drops exactly its key. */
  lemma TailKeys(a: seq<Entry>)
    requires Sorted(a) && |a| > 0
    ensures Sorted(a[1..]) && KeySet(a[1..]) == KeySet(a) - {a[0].key}
  {
    SortedHead(a);
    Strs.LessIrreflexive(a[0].key);
    assert a[0] !in a[1..];
    assert KeySet(a) == {a[0].key} + KeySet(a[1..]);
  }

  /** Sorted child lists with the same keys agree key by key. */
  lemma {:induction false} SortedSameKeys(a: seq<Entry>, b: seq<Entry>)
    requires Sorted(a) && Sorted(b) && KeySet(a) == KeySet(b)
    ensures |a| == |b| && forall i :: 0 <= i < |a| ==> a[i].key == b[i].key
  {
    SortedKeyCount(a);
    SortedKeyCount(b);
    if |a| > 0 {
      SameFirstKey(a, b);
      TailKeys(a);
      TailKeys(b);
      SortedSameKeys(a[1..], b[1..]);
      forall k | 0 < k < |a| ensures a[k].key == b[k].key {
        assert a[k] == a[1..][k - 1] && b[k] == b[1..][k - 1];
      }
    }
  }

  /** Two well-formed trees with the same shape at every path are the same tree. */
  lemma {:induction false} SameShapes(a: Node, b: Node)
    requires WF(a) && WF(b)
    requires forall r :: Shape(Lookup(a, r)) == Shape(Lookup(b, r))
    ensures a == b
    decreases a
  {
    assert Shape(Lookup(a, [])) == Shape(Lookup(b, []));
    if a.Map? {
      var ea, eb := a.entries, b.entries;
      forall k ensures k in KeySet(ea) <==> k in KeySet(eb) {
        assert Shape(Lookup(a, [k])) == Shape(Lookup(b, [k]));
        assert [k][1..] == [];
      }
      SortedSameKeys(ea, eb);
      forall i | 0 <= i < |ea| ensures ea[i] == eb[i] {
        ChildShapes(a, b, i);
        SameShapes(ea[i].node, eb[i].node);
      }
    }
  }

  /** Children under the same key of two trees of the same shape have the same shape. */
  lemma ChildShapes(a: Node, b: Node, i: nat)
    requires a.Map? && b.Map? && Sorted(a.entries) && Sorted(b.entries)
    requires i < |a.entries| && i < |b.entries| && a.entries[i].key == b.entries[i].key
    requires forall r :: Shape(Lookup(a, r)) == Shape(Lookup(b, r))
    ensures WF(a) ==> WF(a.entries[i].node)
    ensures forall r :: Shape(Lookup(a.entries[i].node, r)) == Shape(Lookup(b.entries[i].node, r))
  {
    var k := a.entries[i].key;
    FindSorted(a.entries, i);
    FindSorted(b.entries, i);
    assert [k][1..] == [];
    forall r ensures Shape(Lookup(a.entries[i].node, r)) == Shape(Lookup(b.entries[i].node, r)) {
      assert Shape(Lookup(a, [k] + r)) == Shape(Lookup(b, [k] + r));
      LookupAppend(a, [k], r);
      LookupAppend(b, [k], r);
    }
  }

  /** A copy that matches the source in shape at every depth is the source node itself. */
  lemma ExactCopy(st0: Node, f: Node, src: Path, dst: Path)
    requires WF(st0) && WF(f) && Exists(st0, src)
    requires forall r :: Copied(st0, src, f, dst, r)
    ensures Lookup(f, dst) == Lookup(st0, src)
  {
    assert dst + [] == dst && src + [] == src;
    assert Copied(st0, src, f, dst, []);
    var n := Lookup(st0, src).value;
    var m := Lookup(f, dst).value;
    LookupWF(st0, src);
    LookupWF(f, dst);
    forall r ensures Shape(Lookup(m, r)) == Shape(Lookup(n, r)) {
      assert Copied(st0, src, f, dst, r);
      LookupAppend(st0, src, r);
      LookupAppend(f, dst, r);
    }
    SameShapes(m, n);
  }

  /** Moving a path to a missing destination beside it, whose parent is a map: the move
      finishes, the destination holds exactly the node the source held, the source is
      gone, and everything beside both is unchanged. */
  lemma MoveAllCopies(st0: Node, src: Path, dst: Path, fuel: nat)
    requires WF(st0) && Disjoint(src, dst)
    requires Exists(st0, src) && !Exists(st0, dst) && IsMapAt(st0, Parent(dst))
    requires fuel >= Walk.NodeSize(Lookup(st0, src).value)
    ensures MoveAll(st0, src, dst, fuel).Finished?
    ensures Lookup(MoveAll(st0, src, dst, fuel).st, dst) == Lookup(st0, src)
    ensures !Exists(MoveAll(st0, src, dst, fuel).st, src)
    ensures forall q :: Disjoint(q, src) && Disjoint(q, dst) ==> Lookup(MoveAll(st0, src, dst, fuel).st, q) == Lookup(st0, q)
  {
    var l := Loop(st0, [src]);
    StartInv(st0, src, dst);
    RunFinishes(st0, src, dst, l, fuel);
    var s := Run(src, dst, l, fuel).st;
    SourceIntact(st0, s, src, dst, src);
    MoveAllFinished(st0, src, dst, fuel);
    var f := Delete(s, src).value;
    DeleteKeepsCopy(st0, s, src, dst);
    forall q | Disjoint(q, src) && Disjoint(q, dst) ensures Lookup(f, q) == Lookup(st0, q) {
      WriteFrame(s, src, None, q);
    }
    ExactCopy(st0, f, src, dst);
  }

  /** Deleting the source leaves its copy alone. */
  lemma DeleteKeepsCopy(st0: Node, s: Node, src: Path, dst: Path)
    requires WF(s) && Disjoint(src, dst) && Exists(s, src) && |src| > 0
    requires forall r :: Copied(st0, src, s, dst, r)
    ensures forall r :: Copied(st0, src, Delete(s, src).value, dst, r)
  {
    var f := Delete(s, src).value;
    forall r ensures Copied(st0, src, f, dst, r) {
      assert Copied(st0, src, s, dst, r);
      assert (dst + r)[..|dst|] == dst;
      DisjointBelow(dst, dst + r, src);
      WriteFrame(s, src, None, dst + r);
    }
  }

  /* ---------------------------------------------------------------- when the first round decides */

  lemma AncestorExists(st: Node, q: Path, p: Path)
    ensures IsPrefix(q, p) && Exists(st, p) ==> Exists(st, q)
  {
    if IsPrefix(q, p) && Exists(st, p) { PrefixExists(st, q, p); }
  }

  /** When the destination is the root, exists, or has no map above it, the first round
      either fails or (a value written over a value) leaves nothing queued. */
  lemma FirstRoundEnds(st: Node, src: Path, dst: Path)
    requires WF(st) && Exists(st, src)
    requires |dst| == 0 || Exists(st, dst) || !IsMapAt(st, Parent(dst))
    ensures AllUnder(src, [src])
    ensures Step(src, dst, Loop(st, [src])).Err? || Step(src, dst, Loop(st, [src])).value.queue == []
  {
    assert src[..|src|] == src;
    MovedRel(src, dst, []);
    assert src + [] == src && dst + [] == dst;
  }

  /** A move whose first round fails or drains the queue ends, whatever the fuel left. */
  lemma MoveAllEnds(st: Node, src: Path, dst: Path, fuel: nat)
    requires WF(st) && fuel >= 1 && AllUnder(src, [src])
    requires Step(src, dst, Loop(st, [src])).Err? || Step(src, dst, Loop(st, [src])).value.queue == []
    ensures MoveAll(st, src, dst, fuel) != OutOfFuel
  {
    var l := Loop(st, [src]);
    RunStep(src, dst, l, fuel);
    if Step(src, dst, l).Ok? {
      var l' := Step(src, dst, l).value;
      assert Run(src, dst, l', fuel - 1) == Finished(l'.st);
    }
  }

  /** Moving a value onto its own path writes the bytes back and then deletes them: the
      value is gone. */
  lemma MoveOntoItselfDeletes(st: Node, p: Path, fuel: nat)
    requires WF(st) && |p| > 0 && IsValueAt(st, p) && fuel >= 1
    ensures MoveAll(st, p, p, fuel).Finished?
    ensures !Exists(MoveAll(st, p, p, fuel).st, p)
  {
    assert p[..|p|] == p;
    assert p[|p|..] == [];
    assert p + [] == p;
    ExistsParentIsMap(st, p);
    ReplaceSame(st, p);
    var l := Loop(st, [p]);
    var d := Lookup(st, p).value.data;
    assert Moved(p, p, p) == p;
    assert Get(st, p) == Ok(d);
    assert Put(st, p, d) == Ok(st);
    assert l.queue[1..] == [];
    assert Step(p, p, l) == Ok(Loop(st, []));
    RunStep(p, p, l, fuel);
    assert Run(p, p, Loop(st, []), fuel - 1) == Finished(st);
  }

  /** Writing a node back where it already sits changes nothing. */
  lemma ReplaceSame(st: Node, p: Path)
    requires WF(st) && |p| > 0 && IsValueAt(st, p)
    ensures Put(st, p, Lookup(st, p).value.data) == Ok(st)
  {
    var d := Lookup(st, p).value.data;
    ExistsParentIsMap(st, p);
    var s' := Put(st, p, d).value;
    LookupWF(s', []);
    forall r ensures Shape(Lookup(s', r)) == Shape(Lookup(st, r)) {
      if r == p {
        WriteHere(st, p, Some(Value(d)));
      } else if IsPrefix(p, r) {
        assert |r| > |p| by { assert r[..|r|] == r; }
        ReplaceBelow(st, p, Some(Value(d)), r);
        BelowLeaf(st, p, r);
      } else if IsPrefix(r, p) {
        AboveWrite(st, p, Some(Value(d)), r);
        PrefixesNest(r, Parent(p), p);
        ExistsParentIsMap(st, p);
        MapAbove(st, r, Parent(p));
      } else {
        WriteFrame(st, p, Some(Value(d)), r);
      }
    }
    SameShapes(s', st);
  }

  /* ---------------------------------------------------------------- moving below itself */

  /** `n` nested maps, each the only child `b` of the one above. */
  function BChain(n: nat): (r: Node)
    ensures WF(r)
  {
    if n == 0 then Map([]) else Map([Entry("b", BChain(n - 1))])
  }

  function Bs(n: nat): (r: Path)
    ensures |r| == n && forall i :: 0 <= i < n ==> r[i] == "b"
  {
    seq(n, _ => "b")
  }

  /** The store after `k` rounds of moving `a` to `a/b`, starting from an empty map `a`. */
  function Grown(k: nat): Node {
    Map([Entry("a", BChain(k))])
  }

  lemma {:induction false} LookupChain(n: nat, m: nat)
    requires m <= n
    ensures Lookup(BChain(n), Bs(m)) == Some(BChain(n - m))
  {
    if m > 0 {
      assert Bs(m)[1..] == Bs(m - 1);
      LookupChain(n - 1, m - 1);
    }
  }

  lemma {:induction false} ReplaceChain(n: nat)
    ensures Replace(BChain(n), Bs(n + 1), Some(Map([]))) == Some(BChain(n + 1))
  {
    var p := Bs(n + 1);
    if n > 0 {
      assert p[1..] == Bs(n);
      ReplaceChain(n - 1);
      var es := [Entry("b", BChain(n - 1))];
      assert Find(es, p[0]) == Some(BChain(n - 1));
      assert SetEntry(es, "b", BChain(n)) == [Entry("b", BChain(n))];
    } else {
      assert SetEntry([], p[0], Map([])) == [Entry("b", Map([]))];
    }
  }

  /** Each round copies the innermost map one level deeper and queues that copy. */
  /** The round's write: the new innermost map one level deeper. */
  lemma GrowWrite(k: nat)
    ensures Lookup(Grown(k), ["a"] + Bs(k)) == Some(Map([]))
    ensures CreateMap(Grown(k), ["a"] + Bs(k + 1)) == Ok(Grown(k + 1))
  {
    var h := ["a"] + Bs(k);
    var nh := ["a"] + Bs(k + 1);
    assert Parent(nh) == h;
    LookupChain(k, k);
    assert Lookup(Grown(k), h) == Lookup(BChain(k), Bs(k));
    assert Bs(k + 1) == Bs(k) + ["b"];
    LookupAppend(BChain(k), Bs(k), ["b"]);
    assert Lookup(Grown(k), nh) == Lookup(BChain(k), Bs(k + 1)) == None;
    ReplaceChain(k);
    assert nh[0] == "a" && nh[1..] == Bs(k + 1);
    var es := [Entry("a", BChain(k))];
    assert Find(es, nh[0]) == Some(BChain(k));
    assert SetEntry(es, "a", BChain(k + 1)) == [Entry("a", BChain(k + 1))];
    assert Replace(Grown(k), nh, Some(Map([]))) == Some(Grown(k + 1));
  }

  /** After the write, the copied map has the one child the next round copies. */
  lemma GrowKids(k: nat)
    ensures Children(Grown(k + 1), ["a"] + Bs(k)) == Ok([Entry("b", Map([]))])
  {
    var h := ["a"] + Bs(k);
    LookupChain(k + 1, k);
    assert h[0] == "a" && h[1..] == Bs(k);
    assert Lookup(Grown(k + 1), h) == Lookup(BChain(k + 1), Bs(k));
  }

  /** Each round copies the innermost map one level deeper and queues that copy. */
  lemma GrowStep(k: nat)
    ensures AllUnder(["a"], [["a"] + Bs(k)])
    ensures Step(["a"], ["a", "b"], Loop(Grown(k), [["a"] + Bs(k)])) == Ok(Loop(Grown(k + 1), [["a"] + Bs(k + 1)]))
  {
    var h := ["a"] + Bs(k);
    assert h[..1] == ["a"];
    assert h[1..] == Bs(k);
    assert Moved(["a"], ["a", "b"], h) == ["a"] + Bs(k + 1);
    GrowWrite(k);
    GrowKids(k);
    var kids := [Entry("b", Map([]))];
    assert ChildPaths(h, kids) == [h + ["b"]];
    assert h + ["b"] == ["a"] + Bs(k + 1);
    assert [h][1..] + ChildPaths(h, kids) == [["a"] + Bs(k + 1)];
  }

  lemma {:induction false} GrowForever(k: nat, fuel: nat)
    ensures AllUnder(["a"], [["a"] + Bs(k)])
    ensures Run(["a"], ["a", "b"], Loop(Grown(k), [["a"] + Bs(k)]), fuel) == OutOfFuel
    decreases fuel
  {
    GrowStep(k);
    if fuel > 0 {
      RunStep(["a"], ["a", "b"], Loop(Grown(k), [["a"] + Bs(k)]), fuel);
      GrowForever(k + 1, fuel - 1);
    }
  }

  /** Moving the empty map `a` to `a/b` never finishes: each round creates the map the next
      round copies, so no amount of fuel drains the queue. */
  lemma MoveBelowItselfRunsForever(fuel: nat)
    ensures MoveAll(Map([Entry("a", Map([]))]), ["a"], ["a", "b"], fuel) == OutOfFuel
  {
    assert Grown(0) == Map([Entry("a", Map([]))]);
    assert ["a"] + Bs(0) == ["a"];
    GrowForever(0, fuel);
  }

  /* ---------------------------------------------------------------- the checked move */

  /** The move with the checks the loop needs: a path moved onto itself stays where it is,
      and a path cannot move below itself (`Invalid`, as the standard in-memory WebDAV
      file system answers). */
  function MoveChecked(st: Node, src: Path, dst: Path, fuel: nat): (r: Outcome)
    requires WF(st)
    ensures src == dst ==> r == Finished(st)
    ensures IsPrefix(src, dst) && src != dst ==> r == Invalid
    ensures !IsPrefix(src, dst) ==> r == MoveAll(st, src, dst, fuel)
  {
    if src == dst then Finished(st)
    else if IsPrefix(src, dst) then Invalid
    else MoveAll(st, src, dst, fuel)
  }

  /** The checked move of an existing path always ends with fuel for each node below it. */
  lemma MoveCheckedEnds(st: Node, src: Path, dst: Path, fuel: nat)
    requires WF(st) && Exists(st, src) && fuel >= Walk.NodeSize(Lookup(st, src).value)
    ensures MoveChecked(st, src, dst, fuel) != OutOfFuel
  {
    assert fuel >= 1;
    if src != dst && !IsPrefix(src, dst) {
      AncestorExists(st, dst, src);
      if |dst| > 0 && !Exists(st, dst) && IsMapAt(st, Parent(dst)) {
        MoveAllCopies(st, src, dst, fuel);
      } else {
        FirstRoundEnds(st, src, dst);
        MoveAllEnds(st, src, dst, fuel);
      }
    }
  }
}
