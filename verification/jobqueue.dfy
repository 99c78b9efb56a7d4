/** The job queue's layout in the store and the store steps its transactions share.

    A job lives in exactly one of four maps under `job-queue/default`, keyed by its id:
    `scheduled`, `running`, `failed` or `succeeded`. Job definitions live at
    `jobs/<name>.js`. */
module JobQueue {
  import opened Wrappers
  import opened Store

  const JobsDir: Path := ["jobs"]
  const QueueRoot: Path := ["job-queue"]
  const DefaultQueue: Path := ["job-queue", "default"]
  const Scheduled: Path := ["job-queue", "default", "scheduled"]
  const Running: Path := ["job-queue", "default", "running"]
  const Failed: Path := ["job-queue", "default", "failed"]
  const Succeeded: Path := ["job-queue", "default", "succeeded"]

  /** The four states, in the order a job passes through them. */
  const Queues: seq<Path> := [Scheduled, Running, Failed, Succeeded]

  function DefinitionPath(name: string): Path {
    JobsDir + [name + ".js"]
  }

  /** `id` sits in the queue `q`. */
  predicate InQueue(st: Node, q: Path, id: string) {
    Exists(st, q + [id])
  }

  /** Job `id` is in at most one of the four queues. */
  predicate OneState(st: Node, id: string) {
    var s, r, f, d := InQueue(st, Scheduled, id), InQueue(st, Running, id),
                      InQueue(st, Failed, id), InQueue(st, Succeeded, id);
    (s ==> !r && !f && !d) && (r ==> !f && !d) && (f ==> !d)
  }

  /** No job id is in two states at once. */
  ghost predicate AtMostOneState(st: Node) {
    forall id :: OneState(st, id)
  }

  /** Queue entry paths are one longer than the queue paths, so an entry path equals
      another queue's entry path only for the same queue and id. */
  lemma QueueEntryPaths(i: nat, id: string, p: Path)
    requires i < |Queues|
    ensures |Queues[i] + [id]| == 4
    ensures Queues[i] + [id] == p + [id] <==> p == Queues[i]
    ensures forall j, id' :: 0 <= j < |Queues| && Queues[i] + [id] == Queues[j] + [id'] ==> i == j && id == id'
  {
    forall j, id' | 0 <= j < |Queues| && Queues[i] + [id] == Queues[j] + [id'] ensures i == j && id == id' {
      assert (Queues[i] + [id])[2] == Queues[i][2] && (Queues[j] + [id'])[2] == Queues[j][2];
      assert (Queues[i] + [id])[3] == id && (Queues[j] + [id'])[3] == id';
    }
    if Queues[i] + [id] == p + [id] { assert p == (p + [id])[..|p|]; }
  }

  /* ---------------------------------------------------------------- shared steps */

  /** Create the map at `p` unless something already exists there. */
  function EnsureMap(st: Node, p: Path): (r: Result<Node, StoreError>)
    requires WF(st)
    ensures r.Ok? ==> WF(r.value)
    ensures r.Ok? <==> Exists(st, p) || (|p| > 0 && IsMapAt(st, Parent(p)))
    ensures Exists(st, p) ==> r == Ok(st)
  {
    if Exists(st, p) then Ok(st) else CreateMap(st, p)
  }

  lemma EnsureMapExists(st: Node, p: Path, q: Path)
    requires WF(st) && EnsureMap(st, p).Ok?
    ensures Exists(EnsureMap(st, p).value, q) <==> Exists(st, q) || q == p
  {
    if !Exists(st, p) { CreateMapExists(st, p, q); }
  }

  lemma EnsureMapFrame(st: Node, p: Path)
    requires WF(st) && EnsureMap(st, p).Ok?
    ensures SameBeside(st, EnsureMap(st, p).value, p)
    ensures !IsValueAt(st, p) ==> IsMapAt(EnsureMap(st, p).value, p)
  {
    if !Exists(st, p) { ReplaceEffect(st, p, Some(Map([]))); }
  }

  /** Ensuring a path where no value sits leaves a map there. */
  lemma EnsureMapIsMap(st: Node, p: Path)
    requires WF(st) && EnsureMap(st, p).Ok?
    ensures !IsValueAt(st, p) ==> IsMapAt(EnsureMap(st, p).value, p)
  {
    EnsureMapFrame(st, p);
  }

  /** Put the named fields one after another under the map `base`. */
  function PutFields(st: Node, base: Path, fs: seq<(string, Bytes)>): (r: Result<Node, StoreError>)
    requires WF(st)
    ensures r.Ok? ==> WF(r.value)
    ensures r.Ok? && |fs| > 0 ==> IsMapAt(st, base)
    decreases |fs|
  {
    if |fs| == 0 then Ok(st)
    else
      var st1 :- Put(st, base + [fs[0].0], fs[0].1);
      PutFields(st1, base, fs[1..])
  }

  predicate DistinctNames(fs: seq<(string, Bytes)>) {
    forall i, j :: 0 <= i < j < |fs| ==> fs[i].0 != fs[j].0
  }

  /** The fields go in when `base` is a map none of whose field names holds a map. */
  lemma {:induction false} PutFieldsOk(st: Node, base: Path, fs: seq<(string, Bytes)>)
    requires WF(st) && IsMapAt(st, base) && DistinctNames(fs)
    requires forall i :: 0 <= i < |fs| ==> !IsMapAt(st, base + [fs[i].0])
    ensures PutFields(st, base, fs).Ok?
    decreases |fs|
  {
    if |fs| > 0 {
      var p := base + [fs[0].0];
      assert Parent(p) == base;
      var st1 := Put(st, p, fs[0].1).value;
      ReplaceEffect(st, p, Some(Value(fs[0].1)));
      AboveWrite(st, p, Some(Value(fs[0].1)), base);
      forall i | 0 <= i < |fs[1..]| ensures !IsMapAt(st1, base + [fs[1..][i].0]) {
        assert fs[1..][i] == fs[i + 1];
        DisjointSameLength(p, base + [fs[i + 1].0]);
      }
      PutFieldsOk(st1, base, fs[1..]);
    }
  }

  /** After the fields go in, exactly the old nodes and the field paths exist. */
  lemma {:induction false} PutFieldsExists(st: Node, base: Path, fs: seq<(string, Bytes)>, q: Path)
    requires WF(st) && PutFields(st, base, fs).Ok?
    ensures Exists(PutFields(st, base, fs).value, q) <==>
      Exists(st, q) || exists i :: 0 <= i < |fs| && q == base + [fs[i].0]
    decreases |fs|
  {
    if |fs| > 0 {
      var st1 := Put(st, base + [fs[0].0], fs[0].1).value;
      PutExists(st, base + [fs[0].0], fs[0].1, q);
      PutFieldsExists(st1, base, fs[1..], q);
      if exists i :: 0 <= i < |fs[1..]| && q == base + [fs[1..][i].0] {
        var i :| 0 <= i < |fs[1..]| && q == base + [fs[1..][i].0];
        assert fs[1..][i] == fs[i + 1];
      }
      if exists i :: 0 <= i < |fs| && q == base + [fs[i].0] {
        var i :| 0 <= i < |fs| && q == base + [fs[i].0];
        if i > 0 { assert fs[1..][i - 1] == fs[i]; }
      }
    }
  }

  /** A path beside every field path reads as before. */
  lemma {:induction false} PutFieldsFrame(st: Node, base: Path, fs: seq<(string, Bytes)>, q: Path)
    requires WF(st) && PutFields(st, base, fs).Ok?
    requires forall i :: 0 <= i < |fs| ==> Disjoint(base + [fs[i].0], q)
    ensures Lookup(PutFields(st, base, fs).value, q) == Lookup(st, q)
    decreases |fs|
  {
    if |fs| > 0 {
      var st1 := Put(st, base + [fs[0].0], fs[0].1).value;
      WriteFrame(st, base + [fs[0].0], Some(Value(fs[0].1)), q);
      assert forall i :: 0 <= i < |fs[1..]| ==> fs[1..][i] == fs[i + 1];
      PutFieldsFrame(st1, base, fs[1..], q);
    }
  }

  /** Every field reads back as written. */
  lemma {:induction false} PutFieldsGet(st: Node, base: Path, fs: seq<(string, Bytes)>, i: nat)
    requires WF(st) && PutFields(st, base, fs).Ok? && DistinctNames(fs) && i < |fs|
    ensures Get(PutFields(st, base, fs).value, base + [fs[i].0]) == Ok(fs[i].1)
    decreases |fs|
  {
    var p := base + [fs[0].0];
    var st1 := Put(st, p, fs[0].1).value;
    if i == 0 {
      WriteHere(st, p, Some(Value(fs[0].1)));
      forall j | 0 <= j < |fs[1..]| ensures Disjoint(base + [fs[1..][j].0], p) {
        assert fs[1..][j] == fs[j + 1];
        DisjointSameLength(base + [fs[j + 1].0], p);
      }
      PutFieldsFrame(st1, base, fs[1..], p);
    } else {
      assert fs[1..][i - 1] == fs[i];
      PutFieldsGet(st1, base, fs[1..], i - 1);
    }
  }

  /** Delete the children `ks` of the map at `p`, one after another. */
  function DeleteKeys(st: Node, p: Path, ks: seq<string>): (r: Result<Node, StoreError>)
    requires WF(st)
    ensures r.Ok? ==> WF(r.value)
    ensures r.Err? ==> exists i :: 0 <= i < |ks| && r.error == NotFound(p + [ks[i]])
    decreases |ks|
  {
    if |ks| == 0 then Ok(st)
    else
      var st1 :- Delete(st, p + [ks[0]]);
      DeleteKeys(st1, p, ks[1..])
  }

  /** Deleting the first `n` children of a map leaves exactly the others, in order,
      and touches nothing beside the map. */
  lemma {:induction false} DeleteFirst(st: Node, p: Path, es: seq<Entry>, n: nat)
    requires WF(st) && Children(st, p) == Ok(es) && n <= |es|
    ensures DeleteKeys(st, p, Keys(es[..n])).Ok?
    ensures Children(DeleteKeys(st, p, Keys(es[..n])).value, p) == Ok(es[n..])
    ensures SameBeside(st, DeleteKeys(st, p, Keys(es[..n])).value, p)
    decreases n
  {
    if n > 0 {
      var k := es[0].key;
      var c := p + [k];
      assert Parent(c) == p && c[|c| - 1] == k;
      LookupAppend(st, p, [k]);
      FindSorted(es, 0) by { LookupWF(st, p); }
      var st1 := Delete(st, c).value;
      ReplaceEffect(st, c, None);
      assert RemoveEntry(es, k) == es[1..];
      assert Keys(es[..n]) == [k] + Keys(es[1..][..n - 1]) by {
        assert Keys(es[..n])[1..] == Keys(es[..n][1..]);
        assert es[..n][1..] == es[1..][..n - 1];
      }
      DeleteFirst(st1, p, es[1..], n - 1);
      assert es[1..][n - 1..] == es[n..];
      var r := DeleteKeys(st1, p, Keys(es[1..][..n - 1])).value;
      forall q | Disjoint(p, q) ensures Lookup(st, q) == Lookup(r, q) {
        DisjointBelow(p, c, q);
      }
    }
  }

  /** Deleting children only removes nodes. */
  lemma {:induction false} DeleteKeysShrinks(st: Node, p: Path, ks: seq<string>, q: Path)
    requires WF(st) && DeleteKeys(st, p, ks).Ok?
    ensures Exists(DeleteKeys(st, p, ks).value, q) ==> Exists(st, q)
    decreases |ks|
  {
    if |ks| > 0 {
      var st1 := Delete(st, p + [ks[0]]).value;
      DeleteExists(st, p + [ks[0]], q);
      DeleteKeysShrinks(st1, p, ks[1..], q);
    }
  }

  /** A map strictly above the fields stays a map. */
  lemma {:induction false} PutFieldsAboveMap(st: Node, base: Path, fs: seq<(string, Bytes)>, q: Path)
    requires WF(st) && PutFields(st, base, fs).Ok? && IsPrefix(q, base) && IsMapAt(st, q)
    ensures IsMapAt(PutFields(st, base, fs).value, q)
    decreases |fs|
  {
    if |fs| > 0 {
      var p := base + [fs[0].0];
      var st1 := Put(st, p, fs[0].1).value;
      PrefixTrans(q, base, p);
      AboveWrite(st, p, Some(Value(fs[0].1)), q);
      PutFieldsAboveMap(st1, base, fs[1..], q);
    }
  }

  /** Fields written at least two levels below a map leave its size alone. */
  lemma PutFieldsKeepsSize(st: Node, base: Path, fs: seq<(string, Bytes)>, p: Path)
    requires WF(st) && PutFields(st, base, fs).Ok? && IsPrefix(p, base) && |base| > |p| && IsMapAt(st, p)
    ensures IsMapAt(PutFields(st, base, fs).value, p)
    ensures Size(PutFields(st, base, fs).value, p) == Size(st, p)
  {
    var r := PutFields(st, base, fs).value;
    PutFieldsAboveMap(st, base, fs, p);
    forall k ensures Exists(st, p + [k]) <==> Exists(r, p + [k]) {
      PutFieldsExists(st, base, fs, p + [k]);
      forall j | 0 <= j < |fs| ensures p + [k] != base + [fs[j].0] {
        assert |base + [fs[j].0]| > |p + [k]|;
      }
    }
    SameChildrenSameSize(st, r, p);
  }
}
