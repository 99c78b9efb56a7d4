/** The runtime manager of the control-plane server. On every change under the
    kartusches path it reads the stored kartusche records, starts the ones it does not
    run yet, drops the ones no longer stored, and rebuilds the host router. One pass is
    a function of the snapshot it reads and of the running map it starts from; the
    runtime handle `R`, the JSON decoding of a record and `start` (opening a runtime in
    the kartusche's directory) are parameters. */
module Router {
  import opened Wrappers
  import opened Store
  import Strs
  import GoPath

  /** A kartusche the server knows: its name, its directory, its runtime (`None` when it
      was never started or failed to start) and its recorded error text. */
  datatype Kartusche<R> = Kartusche(name: string, dir: string, runtime: Option<R>, error: string)

  type Running<R> = map<string, Kartusche<R>>

  /** Why a pass ends the manager. */
  datatype ScanError =
    | IterateFailed(err: StoreError)               // the kartusches path is not a map
    | ReadFailed(name: string, err: StoreError)    // a record is a map, not a value
    | UnmarshalFailed(name: string, msg: string)   // a record does not decode

  /** The record of one stored kartusche, before it is started: the directory is the
      kartusches directory joined with the name, and decoding may set the error text. */
  function Decode<R>(root: Path, e: Entry, dir: string, unmarshal: Bytes -> Result<string, string>): (r: Result<Kartusche<R>, ScanError>)
    ensures r.Ok? <==> e.node.Value? && unmarshal(e.node.data).Ok?
    ensures r.Ok? ==> r.value == Kartusche(e.key, GoPath.Join([dir, e.key]), None, unmarshal(e.node.data).value)
    ensures e.node.Map? ==> r == Err(ReadFailed(e.key, IsAMap(root + [e.key])))
  {
    match e.node
    case Map(_) => Err(ReadFailed(e.key, IsAMap(root + [e.key])))
    case Value(b) =>
      match unmarshal(b)
      case Err(msg) => Err(UnmarshalFailed(e.key, msg))
      case Ok(text) => Ok(Kartusche(e.key, GoPath.Join([dir, e.key]), None, text))
  }

  function Names<R>(ks: seq<Kartusche<R>>): (ns: set<string>)
    ensures forall n :: n in ns <==> exists j :: 0 <= j < |ks| && ks[j].name == n
  {
    if |ks| == 0 then {}
    else
      assert forall j :: 1 <= j < |ks| ==> ks[j] == ks[1..][j - 1];
      {ks[0].name} + Names(ks[1..])
  }

  predicate Ascending<R>(ks: seq<Kartusche<R>>) {
    forall i, j :: 0 <= i < j < |ks| ==> Strs.Less(ks[i].name, ks[j].name)
  }

  /** The record stored under the name `n` among the children `es`, decoded. */
  function DecodedAt<R>(root: Path, es: seq<Entry>, n: string, dir: string, unmarshal: Bytes -> Result<string, string>): Option<Kartusche<R>> {
    match Find(es, n)
    case None => None
    case Some(node) =>
      match Decode(root, Entry(n, node), dir, unmarshal)
      case Ok(k) => Some(k)
      case Err(_) => None
  }

  /** What the read transaction promises about the children `es`. */
  predicate Collected<R>(root: Path, es: seq<Entry>, running: Running<R>, dir: string,
                         unmarshal: Bytes -> Result<string, string>, r: Result<seq<Kartusche<R>>, ScanError>) {
    (r.Ok? <==> forall i :: 0 <= i < |es| ==> Decode<R>(root, es[i], dir, unmarshal).Ok?) &&
    (r.Err? ==> exists i :: 0 <= i < |es| && Decode<R>(root, es[i], dir, unmarshal) == Err(r.error)) &&
    (r.Ok? ==> Names(r.value) == KeySet(es) - running.Keys)
  }

  /** The read transaction: every child must decode; the ones the running map lacks are
      collected, in iteration order. The first record that does not decode ends it. */
  function Scan<R>(root: Path, es: seq<Entry>, running: Running<R>, dir: string,
                   unmarshal: Bytes -> Result<string, string>): (r: Result<seq<Kartusche<R>>, ScanError>)
    ensures r.Ok? <==> forall i :: 0 <= i < |es| ==> Decode<R>(root, es[i], dir, unmarshal).Ok?
    ensures r.Err? ==> exists i :: 0 <= i < |es| && Decode<R>(root, es[i], dir, unmarshal) == Err(r.error)
    ensures r.Ok? ==> Names(r.value) == KeySet(es) - running.Keys
  {
    if |es| == 0 then Ok([])
    else
      var head := Decode<R>(root, es[0], dir, unmarshal);
      if head.Err? then Err(head.error)
      else
        var rest := Scan(root, es[1..], running, dir, unmarshal);
        var r :=
          if rest.Err? then Err(rest.error)
          else if es[0].key in running then rest
          else Ok([head.value] + rest.value);
        ScanCons(root, es, running, dir, unmarshal, rest, r);
        r
  }

  /** One step of the read: the head decodes, and the rest was read as promised. */
  lemma ScanCons<R>(root: Path, es: seq<Entry>, running: Running<R>, dir: string,
                    unmarshal: Bytes -> Result<string, string>,
                    rest: Result<seq<Kartusche<R>>, ScanError>, r: Result<seq<Kartusche<R>>, ScanError>)
    requires |es| > 0 && Decode<R>(root, es[0], dir, unmarshal).Ok?
    requires Collected(root, es[1..], running, dir, unmarshal, rest)
    requires r == if rest.Err? then Err(rest.error)
                 else if es[0].key in running then rest
                 else Ok([Decode<R>(root, es[0], dir, unmarshal).value] + rest.value)
    ensures Collected(root, es, running, dir, unmarshal, r)
  {
    if rest.Err? {
      ScanConsErr(root, es, running, dir, unmarshal, rest.error);
    } else {
      AllDecodeCons<R>(root, es, dir, unmarshal);
      KeySetCons(es);
      if es[0].key !in running {
        var ks := r.value;
        assert ks[1..] == rest.value;
        NamesCons(ks);
      }
    }
  }

  /** A record of the tail that does not decode is a record of the whole that does not. */
  lemma ScanConsErr<R>(root: Path, es: seq<Entry>, running: Running<R>, dir: string,
                       unmarshal: Bytes -> Result<string, string>, err: ScanError)
    requires |es| > 0
    requires exists i :: 0 <= i < |es[1..]| && Decode<R>(root, es[1..][i], dir, unmarshal) == Err(err)
    ensures exists i :: 0 <= i < |es| && Decode<R>(root, es[i], dir, unmarshal) == Err(err)
  {
    var i :| 0 <= i < |es[1..]| && Decode<R>(root, es[1..][i], dir, unmarshal) == Err(err);
    assert es[1..][i] == es[i + 1];
  }

  /** Every child decodes exactly when the head and every child of the tail do. */
  lemma AllDecodeCons<R>(root: Path, es: seq<Entry>, dir: string, unmarshal: Bytes -> Result<string, string>)
    requires |es| > 0
    ensures (forall i :: 0 <= i < |es| ==> Decode<R>(root, es[i], dir, unmarshal).Ok?) <==>
            Decode<R>(root, es[0], dir, unmarshal).Ok? &&
            forall i :: 0 <= i < |es[1..]| ==> Decode<R>(root, es[1..][i], dir, unmarshal).Ok?
  {
    assert forall i :: 1 <= i < |es| ==> es[i] == es[1..][i - 1];
  }

  lemma KeySetCons(es: seq<Entry>)
    requires |es| > 0
    ensures KeySet(es) == {es[0].key} + KeySet(es[1..])
  {
  }

  lemma NamesCons<R>(ks: seq<Kartusche<R>>)
    requires |ks| > 0
    ensures Names(ks) == {ks[0].name} + Names(ks[1..])
  {
  }

  /** The collected records come out in ascending name order. */
  lemma {:induction false} ScanAscending<R>(root: Path, es: seq<Entry>, running: Running<R>, dir: string,
                                            unmarshal: Bytes -> Result<string, string>)
    requires Sorted(es) && Scan<R>(root, es, running, dir, unmarshal).Ok?
    ensures Ascending(Scan<R>(root, es, running, dir, unmarshal).value)
  {
    if |es| > 0 {
      SortedHead(es);
      ScanAscending(root, es[1..], running, dir, unmarshal);
      var rest := Scan<R>(root, es[1..], running, dir, unmarshal).value;
      if es[0].key !in running {
        var ks := [Decode<R>(root, es[0], dir, unmarshal).value] + rest;
        assert Scan<R>(root, es, running, dir, unmarshal).value == ks;
        forall j | 1 <= j < |ks| ensures Strs.Less(ks[0].name, ks[j].name) {
          assert ks[j] == rest[j - 1];
          assert rest[j - 1].name in Names(rest);
          var i :| 0 <= i < |es[1..]| && es[1..][i].key == rest[j - 1].name;
          assert es[1..][i] in es[1..];
        }
      }
    }
  }

  lemma DecodedAtTail<R>(root: Path, es: seq<Entry>, n: string, dir: string, unmarshal: Bytes -> Result<string, string>)
    requires Sorted(es) && |es| > 0 && n in KeySet(es[1..])
    ensures DecodedAt<R>(root, es, n, dir, unmarshal) == DecodedAt(root, es[1..], n, dir, unmarshal)
  {
    SortedHead(es);
    var i :| 0 <= i < |es[1..]| && es[1..][i].key == n;
    assert es[1..][i] in es[1..];
    Strs.LessIrreflexive(es[0].key);
  }

  lemma DecodedAtHead<R>(root: Path, es: seq<Entry>, dir: string, unmarshal: Bytes -> Result<string, string>)
    requires |es| > 0 && Decode<R>(root, es[0], dir, unmarshal).Ok?
    ensures DecodedAt<R>(root, es, es[0].key, dir, unmarshal) == Some(Decode<R>(root, es[0], dir, unmarshal).value)
  {
    assert Entry(es[0].key, es[0].node) == es[0];
  }

  /** Each collected record is the decoded record stored under its name, not yet started. */
  lemma {:induction false} ScanDecoded<R>(root: Path, es: seq<Entry>, running: Running<R>, dir: string,
                                          unmarshal: Bytes -> Result<string, string>)
    requires Sorted(es) && Scan<R>(root, es, running, dir, unmarshal).Ok?
    ensures var ks := Scan<R>(root, es, running, dir, unmarshal).value;
      forall j :: 0 <= j < |ks| ==> ks[j].runtime.None? && DecodedAt(root, es, ks[j].name, dir, unmarshal) == Some(ks[j])
  {
    if |es| > 0 {
      SortedHead(es);
      ScanDecoded(root, es[1..], running, dir, unmarshal);
      var rest := Scan<R>(root, es[1..], running, dir, unmarshal).value;
      forall j | 0 <= j < |rest|
        ensures DecodedAt(root, es, rest[j].name, dir, unmarshal) == Some(rest[j])
      {
        assert rest[j].name in Names(rest);
        DecodedAtTail<R>(root, es, rest[j].name, dir, unmarshal);
      }
      var h := Decode<R>(root, es[0], dir, unmarshal);
      assert h.Ok?;
      if es[0].key in running {
        assert Scan<R>(root, es, running, dir, unmarshal).value == rest;
      } else {
        DecodedAtHead<R>(root, es, dir, unmarshal);
        var ks := [h.value] + rest;
        assert Scan<R>(root, es, running, dir, unmarshal).value == ks;
        forall j | 0 <= j < |ks|
          ensures ks[j].runtime.None? && DecodedAt(root, es, ks[j].name, dir, unmarshal) == Some(ks[j])
        {
          if j > 0 { assert ks[j] == rest[j - 1]; }
        }
      }
    }
  }

  /** What starting a kartusche leaves in the running map: the runtime when it opens,
      otherwise no runtime and the open error recorded. Either way it is kept. */
  function Started<R>(k: Kartusche<R>, start: string -> Result<R, string>): (r: Kartusche<R>)
    ensures r.name == k.name && r.dir == k.dir
    ensures start(k.dir).Ok? ==> r.runtime == Some(start(k.dir).value) && r.error == k.error
    ensures start(k.dir).Err? ==> r.runtime == k.runtime && r.error == start(k.dir).error
  {
    match start(k.dir)
    case Ok(rt) => k.(runtime := Some(rt))
    case Err(msg) => k.(error := msg)
  }

  /** The head of an ascending list is not named again in its tail. */
  lemma AscendingTail<R>(ks: seq<Kartusche<R>>)
    requires |ks| > 0 && Ascending(ks)
    ensures Ascending(ks[1..])
    ensures Names(ks) == {ks[0].name} + Names(ks[1..])
    ensures ks[0].name !in Names(ks[1..])
  {
    assert forall j :: 1 <= j < |ks| ==> ks[j] == ks[1..][j - 1];
    forall j | 1 <= j < |ks| ensures ks[j].name != ks[0].name {
      Strs.LessIrreflexive(ks[0].name);
    }
  }

  /** Start every collected kartusche and insert it under its name. */
  function AddAll<R>(running: Running<R>, ks: seq<Kartusche<R>>, start: string -> Result<R, string>): (r: Running<R>)
    requires Ascending(ks)
    ensures r.Keys == running.Keys + Names(ks)
    ensures forall j :: 0 <= j < |ks| ==> r[ks[j].name] == Started(ks[j], start)
    ensures forall n :: n in running && n !in Names(ks) ==> r[n] == running[n]
    decreases |ks|
  {
    if |ks| == 0 then running
    else
      AscendingTail(ks);
      var r := AddAll(running[ks[0].name := Started(ks[0], start)], ks[1..], start);
      assert forall j :: 1 <= j < |ks| ==> ks[j] == ks[1..][j - 1];
      r
  }

  /** The outcome of one pass: the new running map, and the kartusches dropped from it
      (each of which has its `delete` invoked: runtime shut down, directory removed). */
  datatype Pass<R> = Pass(after: Running<R>, removed: Running<R>)

  /** The write half of a pass: every collected kartusche is started and inserted, then
      every running name that was not found is removed. */
  function Reconcile<R>(running: Running<R>, toAdd: seq<Kartusche<R>>, found: set<string>,
                        start: string -> Result<R, string>): (r: Pass<R>)
    requires Ascending(toAdd) && Names(toAdd) == found - running.Keys
    ensures r.after.Keys == found
    ensures forall n :: n in running && n in found ==> r.after[n] == running[n]
    ensures forall j :: 0 <= j < |toAdd| ==> toAdd[j].name in r.after && r.after[toAdd[j].name] == Started(toAdd[j], start)
    ensures r.removed.Keys == running.Keys - found
    ensures forall n :: n in r.removed ==> r.removed[n] == running[n]
  {
    var added := AddAll(running, toAdd, start);
    Pass(map n | n in added && n in found :: added[n],
         map n | n in running && n !in found :: running[n])
  }

  /** One pass of the manager over the snapshot `st`. */
  function RunPass<R>(st: Node, root: Path, running: Running<R>, dir: string,
                      unmarshal: Bytes -> Result<string, string>, start: string -> Result<R, string>): (r: Result<Pass<R>, ScanError>)
    requires WF(st)
    ensures !IsMapAt(st, root) ==> r.Err? && r.error.IterateFailed?
    ensures r.Ok? ==> IsMapAt(st, root) && r.value.after.Keys == ChildKeys(st, root)
  {
    match Children(st, root)
    case Err(e) => Err(IterateFailed(e))
    case Ok(es) =>
      match Scan<R>(root, es, running, dir, unmarshal)
      case Err(e) => Err(e)
      case Ok(toAdd) =>
        LookupWF(st, root);
        ScanAscending<R>(root, es, running, dir, unmarshal);
        Ok(Reconcile(running, toAdd, KeySet(es), start))
  }

  /** The record stored for `n` in the snapshot, decoded. */
  function Stored<R>(st: Node, root: Path, n: string, dir: string, unmarshal: Bytes -> Result<string, string>): Option<Kartusche<R>> {
    match Get(st, root + [n])
    case Err(_) => None
    case Ok(b) =>
      match unmarshal(b)
      case Err(_) => None
      case Ok(text) => Some(Kartusche(n, GoPath.Join([dir, n]), None, text))
  }

  lemma StoredIsDecodedAt<R>(st: Node, root: Path, n: string, dir: string, unmarshal: Bytes -> Result<string, string>)
    requires IsMapAt(st, root)
    ensures Stored<R>(st, root, n, dir, unmarshal) == DecodedAt(root, Lookup(st, root).value.entries, n, dir, unmarshal)
  {
    LookupAppend(st, root, [n]);
  }

  /** Every stored record decodes: what a pass needs to succeed. */
  ghost predicate AllDecode<R>(st: Node, root: Path, dir: string, unmarshal: Bytes -> Result<string, string>)
    requires IsMapAt(st, root)
  {
    forall n :: n in ChildKeys(st, root) ==> Stored<R>(st, root, n, dir, unmarshal).Some?
  }

  /** A pass succeeds exactly when the kartusches path is a map whose every child is a
      decodable record. */
  lemma PassSucceeds<R>(st: Node, root: Path, running: Running<R>, dir: string,
                        unmarshal: Bytes -> Result<string, string>, start: string -> Result<R, string>)
    requires WF(st)
    ensures RunPass(st, root, running, dir, unmarshal, start).Ok?
        <==> IsMapAt(st, root) && AllDecode<R>(st, root, dir, unmarshal)
  {
    if IsMapAt(st, root) {
      var es := Lookup(st, root).value.entries;
      LookupWF(st, root);
      var sc := Scan<R>(root, es, running, dir, unmarshal);
      if sc.Err? {
        var i :| 0 <= i < |es| && Decode<R>(root, es[i], dir, unmarshal) == Err(sc.error);
        FindSorted(es, i);
        StoredIsDecodedAt<R>(st, root, es[i].key, dir, unmarshal);
        assert es[i].key in ChildKeys(st, root);
      } else {
        forall n | n in ChildKeys(st, root) ensures Stored<R>(st, root, n, dir, unmarshal).Some? {
          StoredIsDecodedAt<R>(st, root, n, dir, unmarshal);
          var i :| 0 <= i < |es| && es[i].key == n;
          FindSorted(es, i);
        }
      }
    }
  }

  /** The children of the kartusches path in a snapshot where it is a map. */
  function Records(st: Node, root: Path): seq<Entry>
    requires IsMapAt(st, root)
  {
    Lookup(st, root).value.entries
  }

  /** A successful pass is the reconciliation of the records the scan collected. */
  lemma PassIsReconcile<R>(st: Node, root: Path, running: Running<R>, dir: string,
                           unmarshal: Bytes -> Result<string, string>, start: string -> Result<R, string>)
    requires WF(st) && RunPass(st, root, running, dir, unmarshal, start).Ok?
    ensures IsMapAt(st, root) && Sorted(Records(st, root))
    ensures var ks := Scan<R>(root, Records(st, root), running, dir, unmarshal);
      ks.Ok? && Ascending(ks.value) && Names(ks.value) == ChildKeys(st, root) - running.Keys &&
      RunPass(st, root, running, dir, unmarshal, start) == Ok(Reconcile(running, ks.value, ChildKeys(st, root), start))
  {
    LookupWF(st, root);
    ScanAscending<R>(root, Records(st, root), running, dir, unmarshal);
  }

  /** After a pass the running map holds exactly the stored names: a name it already ran
      keeps its entry untouched, and every other name is removed with its entry. */
  lemma PassReconciles<R>(st: Node, root: Path, running: Running<R>, dir: string,
                          unmarshal: Bytes -> Result<string, string>, start: string -> Result<R, string>)
    requires WF(st) && RunPass(st, root, running, dir, unmarshal, start).Ok?
    ensures IsMapAt(st, root)
    ensures var p := RunPass(st, root, running, dir, unmarshal, start).value;
      p.after.Keys == ChildKeys(st, root) &&
      (forall n :: n in running && n in ChildKeys(st, root) ==> p.after[n] == running[n]) &&
      p.removed.Keys == running.Keys - ChildKeys(st, root) &&
      (forall n :: n in p.removed ==> p.removed[n] == running[n])
  {
    PassIsReconcile(st, root, running, dir, unmarshal, start);
  }

  /** A name the running map lacked gets the record stored under it, started, and keeps
      it even when the start failed. */
  lemma PassStarts<R>(st: Node, root: Path, running: Running<R>, dir: string,
                      unmarshal: Bytes -> Result<string, string>, start: string -> Result<R, string>, n: string)
    requires WF(st) && RunPass(st, root, running, dir, unmarshal, start).Ok?
    requires IsMapAt(st, root) && n in ChildKeys(st, root) && n !in running
    ensures Stored<R>(st, root, n, dir, unmarshal).Some?
    ensures var p := RunPass(st, root, running, dir, unmarshal, start).value;
      n in p.after && p.after[n] == Started(Stored<R>(st, root, n, dir, unmarshal).value, start)
  {
    PassIsReconcile(st, root, running, dir, unmarshal, start);
    var ks := Scan<R>(root, Records(st, root), running, dir, unmarshal).value;
    ScanDecoded<R>(root, Records(st, root), running, dir, unmarshal);
    assert n in Names(ks);
    var j :| 0 <= j < |ks| && ks[j].name == n;
    StoredIsDecodedAt<R>(st, root, n, dir, unmarshal);
  }

  /** A second pass over the same snapshot starts nothing and removes nothing. */
  lemma PassIdempotent<R>(st: Node, root: Path, running: Running<R>, dir: string,
                          unmarshal: Bytes -> Result<string, string>, start: string -> Result<R, string>)
    requires WF(st) && RunPass(st, root, running, dir, unmarshal, start).Ok?
    ensures var p := RunPass(st, root, running, dir, unmarshal, start).value;
      RunPass(st, root, p.after, dir, unmarshal, start) == Ok(Pass(p.after, map[]))
  {
    var p := RunPass(st, root, running, dir, unmarshal, start).value;
    PassReconciles(st, root, running, dir, unmarshal, start);
    PassSucceeds(st, root, running, dir, unmarshal, start);
    PassSucceeds(st, root, p.after, dir, unmarshal, start);
    PassReconciles(st, root, p.after, dir, unmarshal, start);
    var q := RunPass(st, root, p.after, dir, unmarshal, start).value;
    NothingToDo(p.after, q, ChildKeys(st, root));
  }

  /** A pass whose running map already holds exactly the found names changes nothing. */
  lemma NothingToDo<R>(running: Running<R>, q: Pass<R>, found: set<string>)
    requires running.Keys == found && q.after.Keys == found
    requires forall n :: n in running && n in found ==> q.after[n] == running[n]
    requires q.removed.Keys == running.Keys - found
    ensures q == Pass(running, map[])
  {
    assert q.after == running;
    assert q.removed == map[];
  }

  /* ---------------------------------------------------------------- the router */

  /** The host a kartusche is served on. */
  function Host(name: string, domain: string): string {
    name + "." + domain
  }

  lemma HostInjective(a: string, b: string, domain: string)
    requires Host(a, domain) == Host(b, domain)
    ensures a == b
  {
    assert |a| == |b|;
    assert a == Host(a, domain)[..|a|];
  }

  /** `updateRouter`: one host route per kartusche that has a runtime, to that runtime. */
  function Routes<R>(running: Running<R>, domain: string): (r: map<string, R>)
    ensures forall n :: Host(n, domain) in r <==> n in running && running[n].runtime.Some?
    ensures forall n :: n in running && running[n].runtime.Some? ==> r[Host(n, domain)] == running[n].runtime.value
    ensures forall h :: h in r ==> exists n :: n in running && h == Host(n, domain)
  {
    forall a, b | Host(a, domain) == Host(b, domain) ensures a == b { HostInjective(a, b, domain); }
    map n | n in running && running[n].runtime.Some? :: Host(n, domain) := running[n].runtime.value
  }

  /** `ServeHTTP`: the runtime the current router sends a request for `host` to, `None`
      for the router's not-found answer. */
  function Serve<R>(routes: map<string, R>, host: string): (r: Option<R>)
    ensures r.Some? <==> host in routes
    ensures r.Some? ==> r.value == routes[host]
  {
    if host in routes then Some(routes[host]) else None
  }

  /** What the manager keeps: the running map and the router built from it. */
  datatype Server<R> = Server(running: Running<R>, routes: map<string, R>)

  /** The manager loop, one pass per observed change, each reading its own snapshot.
      A failing pass ends the loop with that error, leaving the server as it was. */
  function Manage<R>(snaps: seq<Node>, s: Server<R>, root: Path, dir: string, domain: string,
                     unmarshal: Bytes -> Result<string, string>, start: string -> Result<R, string>): (r: (Server<R>, Option<ScanError>))
    requires forall i :: 0 <= i < |snaps| ==> WF(snaps[i])
    ensures |snaps| == 0 ==> r == (s, None)
    ensures r.1.None? && |snaps| > 0 ==>
      IsMapAt(snaps[|snaps| - 1], root) &&
      r.0.running.Keys == ChildKeys(snaps[|snaps| - 1], root) && r.0.routes == Routes(r.0.running, domain)
    decreases |snaps|
  {
    if |snaps| == 0 then (s, None)
    else
      match RunPass(snaps[0], root, s.running, dir, unmarshal, start)
      case Err(e) => (s, Some(e))
      case Ok(p) =>
        PassReconciles(snaps[0], root, s.running, dir, unmarshal, start);
        var next := Server(p.after, Routes(p.after, domain));
        var r := Manage(snaps[1..], next, root, dir, domain, unmarshal, start);
        assert |snaps| > 1 ==> snaps[1..][|snaps[1..]| - 1] == snaps[|snaps| - 1];
        r
  }

  /** After a pass, a request for a stored kartusche's host reaches exactly the runtime
      that kartusche has, and no request reaches one that is not stored. */
  lemma ServeAfterPass<R>(st: Node, root: Path, running: Running<R>, dir: string, domain: string,
                          unmarshal: Bytes -> Result<string, string>, start: string -> Result<R, string>, n: string)
    requires WF(st) && RunPass(st, root, running, dir, unmarshal, start).Ok?
    ensures var after := RunPass(st, root, running, dir, unmarshal, start).value.after;
      Serve(Routes(after, domain), Host(n, domain)).Some? ==> n in ChildKeys(st, root)
    ensures var after := RunPass(st, root, running, dir, unmarshal, start).value.after;
      n in ChildKeys(st, root) ==> Serve(Routes(after, domain), Host(n, domain)) == after[n].runtime
  {
    PassReconciles(st, root, running, dir, unmarshal, start);
  }

  /** A pass that fails stops the manager: later changes are never looked at. */
  lemma ManageStopsAtError<R>(st: Node, later: seq<Node>, s: Server<R>, root: Path, dir: string, domain: string,
                              unmarshal: Bytes -> Result<string, string>, start: string -> Result<R, string>)
    requires WF(st) && forall i :: 0 <= i < |later| ==> WF(later[i])
    requires RunPass(st, root, s.running, dir, unmarshal, start).Err?
    ensures Manage([st] + later, s, root, dir, domain, unmarshal, start)
      == (s, Some(RunPass(st, root, s.running, dir, unmarshal, start).error))
  {
  }
}
