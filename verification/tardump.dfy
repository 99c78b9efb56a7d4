/** `tarDump`: the whole store of a running kartusche as a tar stream. The walk starts at
    the root, and every node becomes one entry when its parent is enumerated: a map a
    directory entry, a value a regular file carrying its bytes. */
module TarDump {
  import opened Wrappers
  import opened Store
  import opened Walk
  import Strs
  import PathCodec
  import HttpError

  /** A tar header with what follows it. Modification time and mode (`0700`) are the
      same kind of constant for every entry and are not modelled. */
  datatype TarEntry = DirEntry(name: string) | FileEntry(name: string, size: nat, data: Bytes)

  /** The entry the walk writes for one node. */
  function EntryOf(it: Item): (e: TarEntry)
    ensures e.DirEntry? <==> it.node.Map?
    ensures e.FileEntry? ==> e.size == |e.data| && it.node == Value(e.data)
  {
    var name := PathCodec.DBPathToFilePath(it.path);
    match it.node
    case Map(_) => DirEntry(name + "/")
    case Value(d) => FileEntry(name, |d|, d)
  }

  /** The store path an extracting reader rebuilds from an entry: a directory name without
      its final `/`, split and unescaped. */
  function EntryPath(e: TarEntry): Path {
    match e
    case DirEntry(n) => PathCodec.FilePathToDBPath(if |n| > 0 then n[..|n| - 1] else n)
    case FileEntry(n, _, _) => PathCodec.FilePathToDBPath(n)
  }

  function EntriesOf(items: seq<Item>): (r: seq<TarEntry>)
    ensures |r| == |items|
    ensures forall i :: 0 <= i < |items| ==> r[i] == EntryOf(items[i])
  {
    if |items| == 0 then [] else [EntryOf(items[0])] + EntriesOf(items[1..])
  }

  /** The nodes in the order the dump visits them: breadth-first from the root. */
  function Walked(st: Node): seq<Item>
    requires st.Map?
  {
    WalkFrom(st, []).value
  }

  /** The archive: one entry per visited node, in visiting order. */
  function Dump(st: Node): (r: seq<TarEntry>)
    requires st.Map?
    ensures |r| == |Walked(st)|
    ensures forall i :: 0 <= i < |r| ==> r[i] == EntryOf(Walked(st)[i])
  {
    EntriesOf(Walked(st))
  }

  /** A segment the file-path mapping round-trips. */
  predicate PlainSegment(s: string) {
    s != "" && s != "." && s != ".."
  }

  /** Every key in the store is a plain segment. */
  ghost predicate PlainKeys(st: Node) {
    forall q, i :: Exists(st, q) && 0 <= i < |q| ==> PlainSegment(q[i])
  }

  /** The dump holds every node of the store except the root, and nothing else. */
  lemma DumpComplete(st: Node, q: Path, m: Node)
    requires WF(st) && st.Map?
    ensures Item(q, m) in Walked(st) <==> |q| > 0 && Lookup(st, q) == Some(m)
  {
    assert Lookup(st, []) == Some(st);
    WalkFromComplete(st, [], q, m);
  }

  /** No node is dumped twice. */
  lemma DumpOnce(st: Node)
    requires WF(st) && st.Map?
    ensures forall i, j :: 0 <= i < j < |Walked(st)| ==> Walked(st)[i].path != Walked(st)[j].path
  {
    assert Lookup(st, []) == Some(st);
    WalkFromDistinct(st, []);
  }

  /** Every entry below the top level follows the directory entry of its parent. */
  lemma DumpParentFirst(st: Node, j: nat)
    requires st.Map? && j < |Dump(st)|
    ensures var w := Walked(st);
      |w[j].path| >= 1 &&
      (|w[j].path| == 1 || exists i :: 0 <= i < j && w[i].path == Parent(w[j].path) && Dump(st)[i].DirEntry?)
  {
    var w := Walked(st);
    assert Lookup(st, []) == Some(st);
    var queue := [Item([], st)];
    assert w == Bfs(queue);
    BfsParentFirst(queue, j);
    if ParentQueued(queue, w[j]) {
      TopLevel(queue, w[j]);
    } else {
      var i :| 0 <= i < j && w[i].path == Parent(w[j].path) && w[i].node.Map?;
      assert Dump(st)[i].DirEntry?;
    }
  }

  lemma TopLevel(queue: seq<Item>, x: Item)
    requires |queue| == 1 && queue[0].path == [] && ParentQueued(queue, x)
    ensures |x.path| == 1
  {
    assert Parent(x.path) == [];
  }

  /** Reading an entry name back gives the node's path, for paths of plain segments. */
  lemma EntryRoundTrip(it: Item)
    requires |it.path| >= 1
    requires forall i :: 0 <= i < |it.path| ==> PlainSegment(it.path[i])
    ensures EntryPath(EntryOf(it)) == it.path
    ensures EntryOf(it).DirEntry? ==> Strs.HasSuffix(EntryOf(it).name, "/")
  {
    var f := PathCodec.DBPathToFilePath(it.path);
    PathCodec.FilePathRoundTrip(it.path);
    if it.node.Map? {
      var n := f + "/";
      assert n[..|n| - 1] == f;
      assert n[|n| - 1..] == "/";
    }
  }

  /** Extracting the dump of a store with plain keys restores it: each directory entry
      names a map and each file entry names a value holding exactly the entry's bytes,
      as many as its header announces. */
  lemma DumpRestores(st: Node, i: nat)
    requires WF(st) && st.Map? && PlainKeys(st)
    requires i < |Dump(st)|
    ensures var e := Dump(st)[i];
      (e.DirEntry? ==> IsMapAt(st, EntryPath(e))) &&
      (e.FileEntry? ==> Get(st, EntryPath(e)) == Ok(e.data) && e.size == |e.data|)
  {
    var it := Walked(st)[i];
    DumpComplete(st, it.path, it.node);
    EntryRoundTrip(it);
  }

  /** `tarDump`. `running` maps each known kartusche to its store, `None` when it has no
      runtime; the store's root is always a map. An unknown name is a 404, a kartusche
      without a runtime a 409, and otherwise the answer is the dump. */
  function TarDumpHandler(name: string, running: map<string, Option<Node>>): (r: Result<seq<TarEntry>, HttpError.Response>)
    requires forall n :: n in running && running[n].Some? ==> running[n].value.Map?
    ensures name !in running ==> r == Err(HttpError.Refused(404, "not found"))
    ensures name in running && running[name].None? ==> r == Err(HttpError.Refused(409, "kartusche is not running"))
    ensures r.Ok? <==> name in running && running[name].Some?
    ensures r.Ok? ==> r.value == Dump(running[name].value)
  {
    if name !in running then Err(HttpError.Refused(404, "not found"))
    else if running[name].None? then Err(HttpError.Refused(409, "kartusche is not running"))
    else Ok(Dump(running[name].value))
  }
}
