/** The hierarchical, ordered store every component reads and writes.

    A node is either a map (its children, strictly ascending by key in bytewise order,
    which is the order the store's iterators enumerate) or a value (a byte string).
    The root is a map. Operations are pure: a write transaction body becomes a function
    from the store it starts with to the store it commits, or an error. */
module Store {
  import opened Wrappers
  import Strs

  type Bytes = string
  type Path = seq<string>

  datatype Node = Value(data: Bytes) | Map(entries: seq<Entry>)
  datatype Entry = Entry(key: string, node: Node)

  /** What the store engine reports when an operation cannot be carried out. */
  datatype StoreError =
    | NotFound(path: Path)      // the path (or the parent of a new node) does not exist
    | NotAMap(path: Path)       // a map was needed (to iterate, or as a parent)
    | IsAMap(path: Path)        // a value was needed
    | AlreadyExists(path: Path) // CreateMap on an existing node

  /* ---------------------------------------------------------------- entries */

  predicate Sorted(es: seq<Entry>) {
    forall i, j :: 0 <= i < j < |es| ==> Strs.Less(es[i].key, es[j].key)
  }

  function Keys(es: seq<Entry>): (ks: seq<string>)
    ensures |ks| == |es|
    ensures forall i :: 0 <= i < |es| ==> ks[i] == es[i].key
  {
    if |es| == 0 then [] else [es[0].key] + Keys(es[1..])
  }

  /** Well-formed: every map's keys strictly ascend, at every depth. */
  predicate WF(n: Node) {
    match n
    case Value(_) => true
    case Map(es) => Sorted(es) && forall i :: 0 <= i < |es| ==> WF(es[i].node)
  }

  function Find(es: seq<Entry>, k: string): (r: Option<Node>)
    ensures r.Some? <==> exists i :: 0 <= i < |es| && es[i].key == k
    ensures r.Some? ==> exists i :: 0 <= i < |es| && es[i].key == k && es[i].node == r.value
  {
    if |es| == 0 then None
    else if es[0].key == k then Some(es[0].node)
    else
      var r := Find(es[1..], k);
      assert forall i :: 1 <= i < |es| ==> es[i] == es[1..][i - 1];
      r
  }

  lemma FindSorted(es: seq<Entry>, i: nat)
    requires Sorted(es) && i < |es|
    ensures Find(es, es[i].key) == Some(es[i].node)
  {
    if i > 0 {
      Strs.LessIrreflexive(es[0].key);
      FindSorted(es[1..], i - 1);
    }
  }

  lemma SortedCons(e: Entry, rest: seq<Entry>)
    requires Sorted(rest)
    requires forall x :: x in rest ==> Strs.Less(e.key, x.key)
    ensures Sorted([e] + rest)
  {
    var r := [e] + rest;
    forall i, j | 0 <= i < j < |r| ensures Strs.Less(r[i].key, r[j].key) {
      if i == 0 { assert r[j] in rest; } else { assert r[i] == rest[i - 1] && r[j] == rest[j - 1]; }
    }
  }

  lemma SortedHead(es: seq<Entry>)
    requires Sorted(es) && |es| > 0
    ensures Sorted(es[1..])
    ensures forall x :: x in es[1..] ==> Strs.Less(es[0].key, x.key)
  {
    forall x | x in es[1..] ensures Strs.Less(es[0].key, x.key) {
      var m :| 0 <= m < |es[1..]| && es[1..][m] == x;
      assert es[m + 1] == x;
    }
  }

  /** Insert or replace the child `k`, keeping the keys ascending. */
  function SetEntry(es: seq<Entry>, k: string, v: Node): (r: seq<Entry>)
    requires Sorted(es)
    ensures Sorted(r)
    ensures forall e :: e in r ==> e == Entry(k, v) || e in es
  {
    if |es| == 0 then [Entry(k, v)]
    else if es[0].key == k then
      SortedHead(es);
      SortedCons(Entry(k, v), es[1..]);
      [Entry(k, v)] + es[1..]
    else if Strs.Less(k, es[0].key) then
      SortedHead(es);
      forall x | x in es ensures Strs.Less(k, x.key) {
        if x != es[0] { Strs.LessTransitive(k, es[0].key, x.key); }
      }
      SortedCons(Entry(k, v), es);
      [Entry(k, v)] + es
    else
      SortedHead(es);
      Strs.LessTotal(k, es[0].key);
      var rest := SetEntry(es[1..], k, v);
      SortedCons(es[0], rest);
      [es[0]] + rest
  }

  lemma {:induction false} SetEntryFind(es: seq<Entry>, k: string, v: Node, k': string)
    requires Sorted(es)
    ensures Find(SetEntry(es, k, v), k') == if k' == k then Some(v) else Find(es, k')
  {
    if |es| > 0 && es[0].key != k && !Strs.Less(k, es[0].key) {
      SortedHead(es);
      SetEntryFind(es[1..], k, v, k');
    } else if |es| > 0 && es[0].key == k && k' != k {
      assert SetEntry(es, k, v)[1..] == es[1..];
    }
  }

  /** Remove the child `k` if present. */
  function RemoveEntry(es: seq<Entry>, k: string): (r: seq<Entry>)
    requires Sorted(es)
    ensures Sorted(r)
    ensures forall e :: e in r ==> e in es && e.key != k
    ensures |r| <= |es|
  {
    if |es| == 0 then []
    else if es[0].key == k then
      SortedHead(es);
      forall x | x in es[1..] ensures x.key != k { Strs.LessIrreflexive(k); }
      es[1..]
    else
      SortedHead(es);
      var rest := RemoveEntry(es[1..], k);
      SortedCons(es[0], rest);
      [es[0]] + rest
  }

  lemma {:induction false} RemoveEntryFind(es: seq<Entry>, k: string, k': string)
    requires Sorted(es)
    ensures Find(RemoveEntry(es, k), k') == if k' == k then None else Find(es, k')
  {
    var r := RemoveEntry(es, k);
    if k' == k {
      forall i | 0 <= i < |r| ensures r[i].key != k { assert r[i] in r; }
    } else if |es| > 0 && es[0].key != k {
      SortedHead(es);
      RemoveEntryFind(es[1..], k, k');
    }
  }

  /* ---------------------------------------------------------------- paths */

  predicate IsPrefix(p: Path, q: Path) {
    |p| <= |q| && q[..|p|] == p
  }

  function Parent(p: Path): Path
    requires |p| > 0
  {
    p[..|p| - 1]
  }

  /** The node at `p`, if any. */
  function Lookup(n: Node, p: Path): Option<Node>
    decreases |p|
  {
    if |p| == 0 then Some(n)
    else match n
      case Value(_) => None
      case Map(es) =>
        match Find(es, p[0])
        case None => None
        case Some(c) => Lookup(c, p[1..])
  }

  lemma LookupWF(n: Node, p: Path)
    requires WF(n)
    ensures Lookup(n, p).Some? ==> WF(Lookup(n, p).value)
    decreases |p|
  {
    if |p| > 0 && n.Map? && Find(n.entries, p[0]).Some? {
      var c := Find(n.entries, p[0]).value;
      LookupWF(c, p[1..]);
    }
  }

  /** Looking up `p + q` is looking up `q` under the node at `p`. */
  lemma {:induction false} LookupAppend(n: Node, p: Path, q: Path)
    ensures Lookup(n, p + q) == (match Lookup(n, p) case None => None case Some(m) => Lookup(m, q))
    decreases |p|
  {
    if |p| > 0 {
      assert (p + q)[0] == p[0] && (p + q)[1..] == p[1..] + q;
      if n.Map? && Find(n.entries, p[0]).Some? {
        LookupAppend(Find(n.entries, p[0]).value, p[1..], q);
      }
    } else {
      assert p + q == q;
    }
  }

  /** Set (Some) or remove (None) the node at the non-empty path `p`; fails when the
      parent of `p` is not an existing map. */
  function Replace(n: Node, p: Path, sub: Option<Node>): Option<Node>
    requires |p| > 0
    requires WF(n)
    decreases |p|
  {
    match n
    case Value(_) => None
    case Map(es) =>
      if |p| == 1 then
        Some(Map(if sub.Some? then SetEntry(es, p[0], sub.value) else RemoveEntry(es, p[0])))
      else
        match Find(es, p[0])
        case None => None
        case Some(c) =>
          assert WF(c) by { var i :| 0 <= i < |es| && es[i].key == p[0] && es[i].node == c; }
          match Replace(c, p[1..], sub)
          case None => None
          case Some(c') => Some(Map(SetEntry(es, p[0], c')))
  }

  lemma {:induction false} ReplaceSucceeds(n: Node, p: Path, sub: Option<Node>)
    requires |p| > 0 && WF(n)
    ensures Replace(n, p, sub).Some? <==> Lookup(n, Parent(p)).Some? && Lookup(n, Parent(p)).value.Map?
    decreases |p|
  {
    if n.Map? && |p| > 1 {
      assert Parent(p)[0] == p[0] && Parent(p)[1..] == Parent(p[1..]);
      var es := n.entries;
      if Find(es, p[0]).Some? {
        var c := Find(es, p[0]).value;
        assert WF(c) by { var i :| 0 <= i < |es| && es[i].key == p[0] && es[i].node == c; }
        ReplaceSucceeds(c, p[1..], sub);
      }
    }
  }

  lemma WFIn(es: seq<Entry>, e: Entry)
    requires WF(Map(es)) && e in es
    ensures WF(e.node)
  {
    var i :| 0 <= i < |es| && es[i] == e;
  }

  lemma {:induction false} ReplaceWF(n: Node, p: Path, sub: Option<Node>)
    requires |p| > 0 && WF(n)
    requires sub.Some? ==> WF(sub.value)
    ensures Replace(n, p, sub).Some? ==> WF(Replace(n, p, sub).value)
    decreases |p|
  {
    if n.Map? && Replace(n, p, sub).Some? {
      var es := n.entries;
      var r := Replace(n, p, sub).value.entries;
      var v: Node;
      if |p| == 1 {
        if sub.Some? { v := sub.value; } else { v := n; }
      } else {
        var c := Find(es, p[0]).value;
        assert WF(c) by { var i :| 0 <= i < |es| && es[i].key == p[0] && es[i].node == c; }
        ReplaceWF(c, p[1..], sub);
        v := Replace(c, p[1..], sub).value;
      }
      forall i | 0 <= i < |r| ensures WF(r[i].node) {
        assert r[i] in r;
        if r[i] in es { WFIn(es, r[i]); }
      }
    }
  }

  lemma {:induction false} PrefixTail(p: Path, q: Path)
    requires |p| > 0 && |q| > 0 && p[0] == q[0]
    ensures IsPrefix(p, q) <==> IsPrefix(p[1..], q[1..])
  {
    if IsPrefix(p[1..], q[1..]) { assert q[..|p|] == [q[0]] + q[1..][..|p| - 1]; }
    if IsPrefix(p, q) { assert q[1..][..|p| - 1] == q[..|p|][1..]; }
  }

  lemma DropStep(p: Path, q: Path)
    requires 0 < |p| <= |q|
    ensures q[|p|..] == q[1..][|p[1..]|..]
  {
  }

  /** Below the replaced path the store reads as `sub`. */
  lemma {:induction false} ReplaceBelow(n: Node, p: Path, sub: Option<Node>, q: Path)
    requires |p| > 0 && WF(n)
    requires Replace(n, p, sub).Some?
    requires IsPrefix(p, q)
    ensures Lookup(Replace(n, p, sub).value, q) ==
      (match sub case None => None case Some(s) => Lookup(s, q[|p|..]))
    decreases |p|
  {
    var es := n.entries;
    if |p| == 1 {
      assert q[|p|..] == q[1..];
      if sub.Some? { SetEntryFind(es, p[0], sub.value, q[0]); } else { RemoveEntryFind(es, p[0], q[0]); }
    } else {
      var c := Find(es, p[0]).value;
      assert WF(c) by { var i :| 0 <= i < |es| && es[i].key == p[0] && es[i].node == c; }
      var c' := Replace(c, p[1..], sub).value;
      SetEntryFind(es, p[0], c', q[0]);
      PrefixTail(p, q);
      ReplaceBelow(c, p[1..], sub, q[1..]);
      DropStep(p, q);
    }
  }

  /** Paths that neither lie below nor above the replaced one read as before. */
  lemma {:induction false} ReplaceBeside(n: Node, p: Path, sub: Option<Node>, q: Path)
    requires |p| > 0 && WF(n)
    requires Replace(n, p, sub).Some?
    requires !IsPrefix(p, q) && !IsPrefix(q, p)
    ensures Lookup(Replace(n, p, sub).value, q) == Lookup(n, q)
    decreases |p|
  {
    var es := n.entries;
    if q[0] != p[0] || |p| == 1 {
      assert q[0] != p[0] by { assert |p| == 1 && q[0] == p[0] ==> IsPrefix(p, q); }
      if |p| == 1 {
        if sub.Some? { SetEntryFind(es, p[0], sub.value, q[0]); } else { RemoveEntryFind(es, p[0], q[0]); }
      } else {
        var c := Find(es, p[0]).value;
        assert WF(c) by { var i :| 0 <= i < |es| && es[i].key == p[0] && es[i].node == c; }
        SetEntryFind(es, p[0], Replace(c, p[1..], sub).value, q[0]);
      }
    } else {
      var c := Find(es, p[0]).value;
      assert WF(c) by { var i :| 0 <= i < |es| && es[i].key == p[0] && es[i].node == c; }
      var c' := Replace(c, p[1..], sub).value;
      SetEntryFind(es, p[0], c', q[0]);
      PrefixTail(p, q);
      PrefixTail(q, p);
      ReplaceBeside(c, p[1..], sub, q[1..]);
    }
  }

  /** The strict ancestors of the replaced path stay maps. */
  lemma {:induction false} ReplaceAbove(n: Node, p: Path, sub: Option<Node>, q: Path)
    requires |p| > 0 && WF(n)
    requires Replace(n, p, sub).Some?
    requires IsPrefix(q, p) && |q| < |p|
    ensures IsMapAt(Replace(n, p, sub).value, q)
    decreases |p|
  {
    if |q| > 0 {
      var es := n.entries;
      var c := Find(es, p[0]).value;
      assert WF(c) by { var i :| 0 <= i < |es| && es[i].key == p[0] && es[i].node == c; }
      var c' := Replace(c, p[1..], sub).value;
      SetEntryFind(es, p[0], c', q[0]);
      PrefixTail(q, p);
      ReplaceAbove(c, p[1..], sub, q[1..]);
    }
  }

  /* ---------------------------------------------------------------- operations */

  predicate Exists(st: Node, p: Path) {
    Lookup(st, p).Some?
  }

  predicate IsMapAt(st: Node, p: Path) {
    Lookup(st, p).Some? && Lookup(st, p).value.Map?
  }

  predicate IsValueAt(st: Node, p: Path) {
    Lookup(st, p).Some? && Lookup(st, p).value.Value?
  }

  /** Read the bytes of a value node. */
  function Get(st: Node, p: Path): (r: Result<Bytes, StoreError>)
    ensures r.Ok? <==> IsValueAt(st, p)
    ensures r.Ok? ==> Lookup(st, p) == Some(Value(r.value))
  {
    match Lookup(st, p)
    case None => Err(NotFound(p))
    case Some(Map(_)) => Err(IsAMap(p))
    case Some(Value(d)) => Ok(d)
  }

  /** Child count of a map, byte length of a value. */
  function Size(st: Node, p: Path): (r: Result<nat, StoreError>)
    ensures r.Ok? <==> Exists(st, p)
    ensures IsMapAt(st, p) ==> r == Ok(|Lookup(st, p).value.entries|)
    ensures IsValueAt(st, p) ==> r == Ok(|Lookup(st, p).value.data|)
  {
    match Lookup(st, p)
    case None => Err(NotFound(p))
    case Some(Map(es)) => Ok(|es|)
    case Some(Value(d)) => Ok(|d|)
  }

  /** The children of a map in iteration (ascending key) order. */
  function Children(st: Node, p: Path): (r: Result<seq<Entry>, StoreError>)
    ensures r.Ok? <==> IsMapAt(st, p)
    ensures r.Ok? ==> Lookup(st, p) == Some(Map(r.value))
  {
    match Lookup(st, p)
    case None => Err(NotFound(p))
    case Some(Value(_)) => Err(NotAMap(p))
    case Some(Map(es)) => Ok(es)
  }

  function Set(st: Node, p: Path, sub: Option<Node>, onFail: StoreError): (r: Result<Node, StoreError>)
    requires |p| > 0 && WF(st)
    requires sub.Some? ==> WF(sub.value)
    ensures r.Ok? ==> WF(r.value)
    ensures r.Ok? <==> IsMapAt(st, Parent(p))
    ensures r.Ok? ==> Replace(st, p, sub) == Some(r.value)
  {
    ReplaceSucceeds(st, p, sub);
    ReplaceWF(st, p, sub);
    match Replace(st, p, sub)
    case None => Err(onFail)
    case Some(n) => Ok(n)
  }

  /** Write a value; fails when the parent is not a map or the path holds a map
      (the root is a map, so it cannot be written). */
  function Put(st: Node, p: Path, v: Bytes): (r: Result<Node, StoreError>)
    requires WF(st)
    ensures r.Ok? ==> WF(r.value)
    ensures r.Ok? <==> |p| > 0 && IsMapAt(st, Parent(p)) && !IsMapAt(st, p)
    ensures r.Ok? ==> Replace(st, p, Some(Value(v))) == Some(r.value)
  {
    if |p| == 0 then Err(IsAMap(p))
    else if IsMapAt(st, p) then Err(IsAMap(p))
    else Set(st, p, Some(Value(v)), NotFound(Parent(p)))
  }

  /** Create an empty map; fails when the path exists or its parent is not a map. */
  function CreateMap(st: Node, p: Path): (r: Result<Node, StoreError>)
    requires WF(st)
    ensures r.Ok? ==> WF(r.value)
    ensures r.Ok? <==> |p| > 0 && IsMapAt(st, Parent(p)) && !Exists(st, p)
    ensures r.Ok? ==> Replace(st, p, Some(Map([]))) == Some(r.value)
  {
    if |p| == 0 then Err(AlreadyExists(p))
    else if Exists(st, p) then Err(AlreadyExists(p))
    else Set(st, p, Some(Map([])), NotFound(Parent(p)))
  }

  /** Delete the node at `p` together with its whole subtree; fails when it is missing. */
  function Delete(st: Node, p: Path): (r: Result<Node, StoreError>)
    requires WF(st)
    ensures r.Ok? ==> WF(r.value)
    ensures r.Ok? <==> |p| > 0 && Exists(st, p)
    ensures r.Ok? ==> Replace(st, p, None) == Some(r.value)
  {
    if |p| == 0 then Err(NotFound(p))
    else if !Exists(st, p) then Err(NotFound(p))
    else
      assert IsMapAt(st, Parent(p)) by { ExistsParentIsMap(st, p); }
      Set(st, p, None, NotFound(p))
  }

  lemma {:induction false} ExistsParentIsMap(st: Node, p: Path)
    requires |p| > 0 && Exists(st, p)
    ensures IsMapAt(st, Parent(p))
  {
    assert p == Parent(p) + [p[|p| - 1]];
    LookupAppend(st, Parent(p), [p[|p| - 1]]);
  }

  /** Every path beside the written one reads as before. */
  lemma WriteFrame(st: Node, p: Path, sub: Option<Node>, q: Path)
    requires |p| > 0 && WF(st)
    requires Replace(st, p, sub).Some?
    requires !IsPrefix(p, q) && !IsPrefix(q, p)
    ensures Lookup(Replace(st, p, sub).value, q) == Lookup(st, q)
  {
    ReplaceBeside(st, p, sub, q);
  }

  /** The node written is found at its path afterwards. */
  lemma WriteHere(st: Node, p: Path, sub: Option<Node>)
    requires |p| > 0 && WF(st)
    requires Replace(st, p, sub).Some?
    ensures Lookup(Replace(st, p, sub).value, p) == sub
  {
    ReplaceBelow(st, p, sub, p);
    assert p[|p|..] == [];
  }

  /** The parent of the replaced path holds the updated child list. */
  lemma {:induction false} ReplaceParent(n: Node, p: Path, sub: Option<Node>)
    requires |p| > 0 && WF(n)
    requires Replace(n, p, sub).Some?
    ensures IsMapAt(n, Parent(p)) && WF(Lookup(n, Parent(p)).value)
    ensures Lookup(Replace(n, p, sub).value, Parent(p)) ==
      var es := Lookup(n, Parent(p)).value.entries;
      Some(Map(if sub.Some? then SetEntry(es, p[|p| - 1], sub.value) else RemoveEntry(es, p[|p| - 1])))
    decreases |p|
  {
    ReplaceSucceeds(n, p, sub);
    LookupWF(n, Parent(p));
    if |p| > 1 {
      var es := n.entries;
      var c := Find(es, p[0]).value;
      assert WF(c) by { var i :| 0 <= i < |es| && es[i].key == p[0] && es[i].node == c; }
      var c' := Replace(c, p[1..], sub).value;
      SetEntryFind(es, p[0], c', p[0]);
      assert Parent(p)[0] == p[0] && Parent(p)[1..] == Parent(p[1..]);
      assert p[1..][|p[1..]| - 1] == p[|p| - 1];
      assert Replace(n, p, sub).value == Map(SetEntry(es, p[0], c'));
      assert Lookup(n, Parent(p)) == Lookup(c, Parent(p[1..]));
      assert Lookup(Map(SetEntry(es, p[0], c')), Parent(p)) == Lookup(c', Parent(p[1..]));
      ReplaceParent(c, p[1..], sub);
    }
  }

  /** Neither path lies at or below the other. */
  predicate Disjoint(p: Path, q: Path) {
    !IsPrefix(p, q) && !IsPrefix(q, p)
  }

  /** Two prefixes of one path are prefixes of each other, the shorter of the longer. */
  lemma PrefixesNest(a: Path, b: Path, c: Path)
    ensures IsPrefix(a, c) && IsPrefix(b, c) && |a| <= |b| ==> IsPrefix(a, b)
  {
    if IsPrefix(a, c) && IsPrefix(b, c) && |a| <= |b| { assert b[..|a|] == c[..|a|]; }
  }

  lemma PrefixTrans(a: Path, b: Path, c: Path)
    ensures IsPrefix(a, b) && IsPrefix(b, c) ==> IsPrefix(a, c)
  {
    if IsPrefix(a, b) && IsPrefix(b, c) { assert c[..|a|] == b[..|a|]; }
  }

  /** Disjoint from a path means disjoint from everything below it. */
  lemma DisjointBelow(p: Path, p': Path, q: Path)
    requires Disjoint(p, q) && IsPrefix(p, p')
    ensures Disjoint(p', q)
  {
    PrefixesNest(q, p, p');
    PrefixesNest(p, q, p');
    PrefixTrans(p, p', q);
  }

  /** Two distinct paths of the same length are disjoint. */
  lemma DisjointSameLength(p: Path, q: Path)
    requires |p| == |q| && p != q
    ensures Disjoint(p, q)
  {
    assert p[..|p|] == p && q[..|q|] == q;
  }

  /** Every path disjoint from `p` reads the same in `a` and `b`. */
  ghost predicate SameBeside(a: Node, b: Node, p: Path) {
    forall q :: Disjoint(p, q) ==> Lookup(a, q) == Lookup(b, q)
  }

  /** What a successful `Replace` does: `sub` at `p`, the parent's child list updated,
      every disjoint path unchanged. */
  lemma ReplaceEffect(st: Node, p: Path, sub: Option<Node>)
    requires |p| > 0 && WF(st)
    requires Replace(st, p, sub).Some?
    ensures Lookup(Replace(st, p, sub).value, p) == sub
    ensures IsMapAt(st, Parent(p)) && WF(Lookup(st, Parent(p)).value)
    ensures Lookup(Replace(st, p, sub).value, Parent(p)) ==
      var es := Lookup(st, Parent(p)).value.entries;
      Some(Map(if sub.Some? then SetEntry(es, p[|p| - 1], sub.value) else RemoveEntry(es, p[|p| - 1])))
    ensures SameBeside(st, Replace(st, p, sub).value, p)
  {
    WriteHere(st, p, sub);
    ReplaceParent(st, p, sub);
    forall q | Disjoint(p, q) ensures Lookup(st, q) == Lookup(Replace(st, p, sub).value, q) {
      ReplaceBeside(st, p, sub, q);
    }
  }

  /* ---------------------------------------------------------------- existence after a write */

  /** Every ancestor of an existing node exists. */
  lemma PrefixExists(n: Node, q: Path, p: Path)
    requires IsPrefix(q, p) && Exists(n, p)
    ensures Exists(n, q)
  {
    assert p == q + p[|q|..];
    LookupAppend(n, q, p[|q|..]);
  }

  /** Nothing lies strictly below a value or below a missing node. */
  lemma BelowLeaf(n: Node, p: Path, q: Path)
    requires IsPrefix(p, q) && |q| > |p| && !IsMapAt(n, p)
    ensures !Exists(n, q)
  {
    assert q == p + q[|p|..];
    LookupAppend(n, p, q[|p|..]);
  }

  lemma AboveWrite(st: Node, p: Path, sub: Option<Node>, q: Path)
    requires |p| > 0 && WF(st) && Replace(st, p, sub).Some?
    requires IsPrefix(q, p) && q != p
    ensures Exists(st, q) && IsMapAt(Replace(st, p, sub).value, q)
  {
    ReplaceSucceeds(st, p, sub);
    PrefixesNest(q, Parent(p), p);
    PrefixExists(st, q, Parent(p));
    ReplaceAbove(st, p, sub, q);
  }

  /** After `CreateMap(p)` exactly the nodes that existed before, and `p`, exist. */
  lemma CreateMapExists(st: Node, p: Path, q: Path)
    requires WF(st) && CreateMap(st, p).Ok?
    ensures Exists(CreateMap(st, p).value, q) <==> Exists(st, q) || q == p
  {
    var sub := Some(Map([]));
    if IsPrefix(p, q) {
      ReplaceBelow(st, p, sub, q);
      if |q| > |p| { BelowLeaf(st, p, q); } else { assert q == p; }
    } else if IsPrefix(q, p) {
      AboveWrite(st, p, sub, q);
    } else {
      WriteFrame(st, p, sub, q);
    }
  }

  /** After `Put(p)` exactly the nodes that existed before, and `p`, exist. */
  lemma PutExists(st: Node, p: Path, v: Bytes, q: Path)
    requires WF(st) && Put(st, p, v).Ok?
    ensures Exists(Put(st, p, v).value, q) <==> Exists(st, q) || q == p
  {
    var sub := Some(Value(v));
    if IsPrefix(p, q) {
      ReplaceBelow(st, p, sub, q);
      if |q| > |p| { BelowLeaf(st, p, q); } else { assert q == p; }
    } else if IsPrefix(q, p) {
      AboveWrite(st, p, sub, q);
    } else {
      WriteFrame(st, p, sub, q);
    }
  }

  /** After `Delete(p)` exactly the nodes that existed before and are not at or below `p` exist. */
  lemma DeleteExists(st: Node, p: Path, q: Path)
    requires WF(st) && Delete(st, p).Ok?
    ensures Exists(Delete(st, p).value, q) <==> Exists(st, q) && !IsPrefix(p, q)
  {
    if IsPrefix(p, q) {
      ReplaceBelow(st, p, None, q);
    } else if IsPrefix(q, p) {
      AboveWrite(st, p, None, q);
    } else {
      WriteFrame(st, p, None, q);
    }
  }

  /** The keys of a child list. */
  function KeySet(es: seq<Entry>): (ks: set<string>)
    ensures forall k :: k in ks <==> exists i :: 0 <= i < |es| && es[i].key == k
  {
    if |es| == 0 then {}
    else
      var rest := KeySet(es[1..]);
      assert forall i :: 1 <= i < |es| ==> es[i] == es[1..][i - 1];
      {es[0].key} + rest
  }

  /** A key occurs in a suffix of the entries exactly when some entry from there on has it. */
  lemma KeysSuffix(es: seq<Entry>, n: nat, x: string)
    requires n <= |es|
    ensures x in Keys(es[n..]) <==> exists i :: n <= i < |es| && es[i].key == x
  {
    if x in Keys(es[n..]) {
      var i :| 0 <= i < |es[n..]| && Keys(es[n..])[i] == x;
      assert es[n + i].key == x;
    }
    if exists i :: n <= i < |es| && es[i].key == x {
      var i :| n <= i < |es| && es[i].key == x;
      assert Keys(es[n..])[i - n] == x;
    }
  }

  /** The keys of the children of the map at `p`. */
  function ChildKeys(st: Node, p: Path): set<string>
    requires IsMapAt(st, p)
  {
    KeySet(Lookup(st, p).value.entries)
  }

  lemma ChildKeysExists(st: Node, p: Path, k: string)
    requires IsMapAt(st, p)
    ensures k in ChildKeys(st, p) <==> Exists(st, p + [k])
  {
    LookupAppend(st, p, [k]);
  }

  lemma {:induction false} SortedKeyCount(es: seq<Entry>)
    requires Sorted(es)
    ensures |KeySet(es)| == |es|
  {
    if |es| > 0 {
      SortedHead(es);
      SortedKeyCount(es[1..]);
      Strs.LessIrreflexive(es[0].key);
      assert es[0].key !in KeySet(es[1..]);
    }
  }

  /** The size of a map is the number of distinct child keys. */
  lemma SizeIsKeyCount(st: Node, p: Path)
    requires WF(st) && IsMapAt(st, p)
    ensures Size(st, p) == Ok(|ChildKeys(st, p)|)
  {
    LookupWF(st, p);
    SortedKeyCount(Lookup(st, p).value.entries);
  }

  /** Two maps whose children exist under the same keys have the same size. */
  lemma SameChildrenSameSize(a: Node, b: Node, p: Path)
    requires WF(a) && WF(b) && IsMapAt(a, p) && IsMapAt(b, p)
    requires forall k :: Exists(a, p + [k]) <==> Exists(b, p + [k])
    ensures Size(a, p) == Size(b, p)
  {
    forall k ensures k in ChildKeys(a, p) <==> k in ChildKeys(b, p) {
      ChildKeysExists(a, p, k);
      ChildKeysExists(b, p, k);
    }
    assert ChildKeys(a, p) == ChildKeys(b, p);
    SizeIsKeyCount(a, p);
    SizeIsKeyCount(b, p);
  }

  /** Creating a new child of a map grows its size by one. */
  lemma CreateMapChildCount(st: Node, p: Path, k: string)
    requires WF(st) && CreateMap(st, p + [k]).Ok?
    ensures IsMapAt(st, p) && IsMapAt(CreateMap(st, p + [k]).value, p)
    ensures Size(CreateMap(st, p + [k]).value, p).value == Size(st, p).value + 1
  {
    var r := CreateMap(st, p + [k]).value;
    assert Parent(p + [k]) == p;
    AboveWrite(st, p + [k], Some(Map([])), p);
    forall k' ensures k' in ChildKeys(r, p) <==> k' in ChildKeys(st, p) || k' == k {
      ChildKeysExists(r, p, k');
      ChildKeysExists(st, p, k');
      CreateMapExists(st, p + [k], p + [k']);
    }
    ChildKeysExists(st, p, k);
    assert ChildKeys(r, p) == ChildKeys(st, p) + {k};
    SizeIsKeyCount(st, p);
    SizeIsKeyCount(r, p);
  }

  /** The empty store: a root map with no children. */
  const Empty: Node := Map([])
}
