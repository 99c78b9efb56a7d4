/** Scheduling a job from a script: `scheduleJob(name, params)`.

    The parameters are marshalled to JSON and a fresh version-6 UUID is drawn; both can
    fail, and both are parameters here (`params` is `None` when marshalling fails, `jobId`
    is `None` when no id could be drawn). The job definition `jobs/<name>.js` must exist.
    The queue maps are created as needed, each failure returned; the final three writes
    ignore their errors. The writes go through the caller's transaction. */
module Scheduling {
  import opened Wrappers
  import opened Store
  import opened JobQueue

  datatype ScheduleError =
    | MarshalFailed(name: string)
    | IdFailed(name: string)
    | NoSuchJob(name: string)
    | StoreFailed(e: StoreError)

  /** A write whose error is dropped: the transaction carries on with the store as it was. */
  function IgnoreErr(r: Result<Node, StoreError>, st: Node): (st': Node)
    ensures r.Ok? ==> st' == r.value
    ensures r.Err? ==> st' == st
  {
    if r.Ok? then r.value else st
  }

  /** Create the map when the path is missing, or keep the store, mapping the engine's
      error: it fails exactly when the path is missing and its parent is not a map, and
      afterwards the path exists, as a map unless a value was there. */
  function Ensure(st: Node, p: Path): (r: Result<Node, ScheduleError>)
    requires WF(st)
    ensures r.Ok? ==> WF(r.value) && EnsureMap(st, p) == Ok(r.value)
    ensures r.Ok? <==> Exists(st, p) || (|p| > 0 && IsMapAt(st, Parent(p)))
    ensures Exists(st, p) ==> r == Ok(st)
    ensures r.Ok? ==> Exists(r.value, p) && (!IsValueAt(st, p) ==> IsMapAt(r.value, p))
    ensures r.Err? ==> r.error.StoreFailed?
  {
    match EnsureMap(st, p)
    case Ok(st') =>
      EnsureMapExists(st, p, p);
      EnsureMapIsMap(st, p);
      Ok(st')
    case Err(e) => Err(StoreFailed(e))
  }

  /** The last three writes, each ignoring its error. */
  function WriteJob(st: Node, jp: Path, name: string, pd: Bytes): (r: Node)
    requires WF(st)
    ensures WF(r)
  {
    var st1 := IgnoreErr(CreateMap(st, jp), st);
    var st2 := IgnoreErr(Put(st1, jp + ["name"], name), st1);
    IgnoreErr(Put(st2, jp + ["params"], pd), st2)
  }

  function ScheduleJob(st: Node, name: string, params: Option<Bytes>, jobId: Option<string>)
    : (r: Result<Node, ScheduleError>)
    requires WF(st)
    ensures r.Ok? ==> WF(r.value)
    ensures params.None? ==> r == Err(MarshalFailed(name))
    ensures params.Some? && jobId.None? ==> r == Err(IdFailed(name))
    ensures params.Some? && jobId.Some? && !Exists(st, DefinitionPath(name)) ==> r == Err(NoSuchJob(name))
    ensures r.Ok? ==> params.Some? && jobId.Some? && Exists(st, DefinitionPath(name))
  {
    if params.None? then Err(MarshalFailed(name))
    else if jobId.None? then Err(IdFailed(name))
    else if !Exists(st, DefinitionPath(name)) then Err(NoSuchJob(name))
    else
      var st3 :- QueuesEnsured(st);
      Ok(WriteJob(st3, Scheduled + [jobId.value], name, params.value))
  }

  /** Ensuring a map that is not a value below a map succeeds, leaves a map there, and
      puts no value anywhere below it. */
  lemma EnsureBelow(st: Node, p: Path, q: Path)
    requires WF(st) && |p| > 0 && IsMapAt(st, Parent(p)) && !IsValueAt(st, p)
    ensures EnsureMap(st, p).Ok? && IsMapAt(EnsureMap(st, p).value, p)
    ensures IsPrefix(p, q) && !IsValueAt(st, q) ==> !IsValueAt(EnsureMap(st, p).value, q)
  {
    EnsureMapFrame(st, p);
    if IsPrefix(p, q) && !Exists(st, p) {
      EnsureMapExists(st, p, q);
      if Exists(st, q) { PrefixExists(st, p, q); }
      if q == p { WriteHere(st, p, Some(Map([]))); }
    }
  }

  /** The queue maps can be ensured exactly when none of them is a value; they are then
      maps. */
  lemma EnsureQueues(st: Node, q: Path)
    requires WF(st) && IsMapAt(st, []) && IsPrefix(Scheduled, q)
    requires !IsValueAt(st, QueueRoot) && !IsValueAt(st, DefaultQueue) && !IsValueAt(st, Scheduled)
    requires !IsValueAt(st, q)
    ensures Ensure(st, QueueRoot).Ok?
    ensures var st1 := Ensure(st, QueueRoot).value;
      Ensure(st1, DefaultQueue).Ok?
      && Ensure(Ensure(st1, DefaultQueue).value, Scheduled).Ok?
      && var st3 := Ensure(Ensure(st1, DefaultQueue).value, Scheduled).value;
         IsMapAt(st3, Scheduled) && !IsValueAt(st3, q)
  {
    assert Parent(QueueRoot) == [] && Parent(DefaultQueue) == QueueRoot && Parent(Scheduled) == DefaultQueue;
    assert IsPrefix(QueueRoot, DefaultQueue) && IsPrefix(QueueRoot, Scheduled) && IsPrefix(DefaultQueue, Scheduled);
    PrefixTrans(QueueRoot, Scheduled, q);
    PrefixTrans(DefaultQueue, Scheduled, q);
    EnsureBelow(st, QueueRoot, DefaultQueue);
    EnsureBelow(st, QueueRoot, Scheduled);
    EnsureBelow(st, QueueRoot, q);
    var st1 := EnsureMap(st, QueueRoot).value;
    EnsureBelow(st1, DefaultQueue, Scheduled);
    EnsureBelow(st1, DefaultQueue, q);
    var st2 := EnsureMap(st1, DefaultQueue).value;
    EnsureBelow(st2, Scheduled, q);
  }

  /** The two fields a scheduled job is written with. */
  function JobFields(name: string, pd: Bytes): seq<(string, Bytes)> {
    [("name", name), ("params", pd)]
  }

  /** For a fresh path under a map the three writes all succeed: they create the job map
      and put both fields into it. */
  lemma WriteJobFresh(st: Node, jp: Path, name: string, pd: Bytes)
    requires WF(st) && |jp| > 0 && IsMapAt(st, Parent(jp)) && !Exists(st, jp)
    ensures CreateMap(st, jp).Ok? && PutFields(CreateMap(st, jp).value, jp, JobFields(name, pd)).Ok?
    ensures WriteJob(st, jp, name, pd) == PutFields(CreateMap(st, jp).value, jp, JobFields(name, pd)).value
  {
    var st1 := CreateMap(st, jp).value;
    var fs := JobFields(name, pd);
    WriteHere(st, jp, Some(Map([])));
    forall i | 0 <= i < |fs| ensures !IsMapAt(st1, jp + [fs[i].0]) {
      CreateMapExists(st, jp, jp + [fs[i].0]);
      if Exists(st, jp + [fs[i].0]) { PrefixExists(st, jp, jp + [fs[i].0]); }
    }
    PutFieldsOk(st1, jp, fs);
    var st2 := Put(st1, jp + ["name"], name).value;
    assert PutFields(st1, jp, fs) == PutFields(st2, jp, fs[1..]);
    assert PutFields(st2, jp, fs[1..]) == Put(st2, jp + ["params"], pd);
  }

  /** What a fresh job path's writes add: the path itself and its two fields. */
  lemma WriteJobExists(st: Node, jp: Path, name: string, pd: Bytes, q: Path)
    requires WF(st) && |jp| > 0 && IsMapAt(st, Parent(jp)) && !Exists(st, jp)
    ensures Exists(WriteJob(st, jp, name, pd), q) <==>
      Exists(st, q) || q == jp || q == jp + ["name"] || q == jp + ["params"]
    ensures Get(WriteJob(st, jp, name, pd), jp + ["name"]) == Ok(name)
    ensures Get(WriteJob(st, jp, name, pd), jp + ["params"]) == Ok(pd)
  {
    WriteJobFresh(st, jp, name, pd);
    var st1 := CreateMap(st, jp).value;
    var fs := JobFields(name, pd);
    CreateMapExists(st, jp, q);
    PutFieldsExists(st1, jp, fs, q);
    if exists i :: 0 <= i < |fs| && q == jp + [fs[i].0] {
      var i :| 0 <= i < |fs| && q == jp + [fs[i].0];
      assert i == 0 || i == 1;
    }
    assert q == jp + ["params"] ==> q == jp + [fs[1].0];
    PutFieldsGet(st1, jp, fs, 0);
    PutFieldsGet(st1, jp, fs, 1);
  }

  /** The store once the queue maps are ensured. */
  function QueuesEnsured(st: Node): (r: Result<Node, ScheduleError>)
    requires WF(st)
    ensures r.Ok? ==> WF(r.value)
  {
    var st1 :- Ensure(st, QueueRoot);
    var st2 :- Ensure(st1, DefaultQueue);
    Ensure(st2, Scheduled)
  }

  /** Ensuring the queue maps succeeds when none of them is a value, makes `scheduled` a
      map, and adds only ancestors of any job path below it. */
  lemma QueuesEnsuredFresh(st: Node, jp: Path, q: Path)
    requires WF(st) && IsMapAt(st, []) && |jp| == 4 && jp[..3] == Scheduled
    requires !IsValueAt(st, QueueRoot) && !IsValueAt(st, DefaultQueue) && !IsValueAt(st, Scheduled)
    requires !Exists(st, jp)
    ensures QueuesEnsured(st).Ok?
    ensures IsMapAt(QueuesEnsured(st).value, Scheduled) && !Exists(QueuesEnsured(st).value, jp)
    ensures Exists(QueuesEnsured(st).value, q) || IsPrefix(q, jp) <==> Exists(st, q) || IsPrefix(q, jp)
  {
    assert IsPrefix(Scheduled, jp);
    EnsureQueues(st, jp);
    var st1 := Ensure(st, QueueRoot).value;
    var st2 := Ensure(st1, DefaultQueue).value;
    assert QueuesEnsured(st) == Ensure(st2, Scheduled);
    ScheduleAdds(st, st1, st2, QueuesEnsured(st).value, jp, q);
    ScheduleAdds(st, st1, st2, QueuesEnsured(st).value, jp, jp);
  }

  /** The three queue maps add exactly the ancestors of the job path that were missing,
      and never the job path itself. */
  lemma ScheduleAdds(st: Node, st1: Node, st2: Node, st3: Node, jp: Path, q: Path)
    requires WF(st) && WF(st1) && WF(st2) && |jp| == 4 && jp[..3] == Scheduled
    requires EnsureMap(st, QueueRoot) == Ok(st1) && EnsureMap(st1, DefaultQueue) == Ok(st2)
    requires EnsureMap(st2, Scheduled) == Ok(st3)
    ensures Exists(st3, q) || IsPrefix(q, jp) <==> Exists(st, q) || IsPrefix(q, jp)
    ensures Exists(st3, jp) <==> Exists(st, jp)
  {
    EnsureMapExists(st, QueueRoot, q);
    EnsureMapExists(st1, DefaultQueue, q);
    EnsureMapExists(st2, Scheduled, q);
    EnsureMapExists(st, QueueRoot, jp);
    EnsureMapExists(st1, DefaultQueue, jp);
    EnsureMapExists(st2, Scheduled, jp);
    assert jp[..1] == QueueRoot && jp[..2] == DefaultQueue;
  }

  /** Scheduling with a fresh id, an existing definition and queue maps that are not
      values succeeds; afterwards the job sits in `scheduled` with its name and encoded
      parameters, and nothing else appeared: only the queue maps, the job and its two
      fields are new. */
  lemma ScheduleFresh(st: Node, name: string, pd: Bytes, id: string, q: Path)
    requires WF(st) && IsMapAt(st, []) && Exists(st, DefinitionPath(name))
    requires !IsValueAt(st, QueueRoot) && !IsValueAt(st, DefaultQueue) && !IsValueAt(st, Scheduled)
    requires !Exists(st, Scheduled + [id])
    ensures ScheduleJob(st, name, Some(pd), Some(id)).Ok?
    ensures var r := ScheduleJob(st, name, Some(pd), Some(id)).value;
      var jp := Scheduled + [id];
      InQueue(r, Scheduled, id)
      && Get(r, jp + ["name"]) == Ok(name) && Get(r, jp + ["params"]) == Ok(pd)
      && (Exists(r, q) <==> Exists(st, q) || IsPrefix(q, jp) || q == jp + ["name"] || q == jp + ["params"])
  {
    var jp := Scheduled + [id];
    assert jp[..3] == Scheduled;
    QueuesEnsuredFresh(st, jp, q);
    var st3 := QueuesEnsured(st).value;
    assert Parent(jp) == Scheduled;
    WriteJobExists(st3, jp, name, pd, q);
    WriteJobExists(st3, jp, name, pd, jp);
    var r := WriteJob(st3, jp, name, pd);
    assert ScheduleJob(st, name, Some(pd), Some(id)) == Ok(r);
    assert InQueue(r, Scheduled, id);
    assert jp[..|jp|] == jp;
    if IsPrefix(q, jp) {
      PrefixExists(r, q, jp);
    }
  }

  /** Scheduling adds the job to `scheduled` and changes no other queue membership. */
  lemma ScheduleQueueEntry(st: Node, name: string, pd: Bytes, id: string, i: nat, x: string)
    requires WF(st) && IsMapAt(st, []) && Exists(st, DefinitionPath(name))
    requires !IsValueAt(st, QueueRoot) && !IsValueAt(st, DefaultQueue) && !IsValueAt(st, Scheduled)
    requires !Exists(st, Scheduled + [id]) && i < |Queues|
    ensures ScheduleJob(st, name, Some(pd), Some(id)).Ok?
    ensures InQueue(ScheduleJob(st, name, Some(pd), Some(id)).value, Queues[i], x) <==>
      InQueue(st, Queues[i], x) || (i == 0 && x == id)
  {
    var jp := Scheduled + [id];
    var q := Queues[i] + [x];
    ScheduleFresh(st, name, pd, id, q);
    QueueEntryPaths(i, x, Queues[i]);
    QueueEntryPaths(0, id, Scheduled);
    if IsPrefix(q, jp) { assert q == jp; }
    assert |jp + ["name"]| == 5 && |jp + ["params"]| == 5;
  }

  /** Scheduling a job under an id no queue holds keeps every job in at most one state. */
  lemma ScheduleKeepsOneState(st: Node, name: string, pd: Bytes, id: string, x: string)
    requires WF(st) && IsMapAt(st, []) && Exists(st, DefinitionPath(name))
    requires !IsValueAt(st, QueueRoot) && !IsValueAt(st, DefaultQueue) && !IsValueAt(st, Scheduled)
    requires forall i :: 0 <= i < |Queues| ==> !InQueue(st, Queues[i], id)
    requires OneState(st, x)
    ensures ScheduleJob(st, name, Some(pd), Some(id)).Ok?
    ensures OneState(ScheduleJob(st, name, Some(pd), Some(id)).value, x)
  {
    assert !InQueue(st, Queues[0], id);
    ScheduleQueueEntry(st, name, pd, id, 0, x);
    ScheduleQueueEntry(st, name, pd, id, 1, x);
    ScheduleQueueEntry(st, name, pd, id, 2, x);
    ScheduleQueueEntry(st, name, pd, id, 3, x);
    if x == id {
      assert !InQueue(st, Queues[1], id) && !InQueue(st, Queues[2], id) && !InQueue(st, Queues[3], id);
    }
  }
}
