/** The job scheduler's transactions: promoting a scheduled job to running, recording
    its completion, and trimming the history queues. Each transaction body is a pure
    function of the store it starts from; a body that fails is rolled back, so the
    store it started from stays. */
module Scheduler {
  import opened Wrappers
  import Strs
  import opened Store
  import opened JobQueue

  /** A job to start once the promotion has committed. */
  datatype Launch = Launch(id: string, name: Bytes, params: Bytes)

  /* ---------------------------------------------------------------- promotion */

  /** Move the scheduled job `id` to `running`: read its `name` and `params`, delete
      it from `scheduled`, create `running` if absent and `running/<id>` holding
      copies of both. */
  function MoveToRunning(st: Node, id: string): (r: Result<(Node, Launch), StoreError>)
    requires WF(st)
    ensures r.Ok? ==> WF(r.value.0) && r.value.1.id == id
    ensures r.Ok? ==> Get(st, Scheduled + [id] + ["name"]) == Ok(r.value.1.name)
    ensures r.Ok? ==> Get(st, Scheduled + [id] + ["params"]) == Ok(r.value.1.params)
  {
    var jp := Scheduled + [id];
    var name :- Get(st, jp + ["name"]);
    var params :- Get(st, jp + ["params"]);
    var st1 :- Delete(st, jp);
    var st2 :- EnsureMap(st1, Running);
    var rp := Running + [id];
    var st3 :- CreateMap(st2, rp);
    var st4 :- Put(st3, rp + ["name"], name);
    var st5 :- Put(st4, rp + ["params"], params);
    Ok((st5, Launch(id, name, params)))
  }

  /** The promotion transaction: move the smallest-key scheduled job to `running` and
      hand it back for launching. Only one job moves per transaction, because the loop
      body ends in a return. */
  function Promote(st: Node): (r: Result<(Node, Option<Launch>), StoreError>)
    requires WF(st)
    ensures r.Ok? ==> WF(r.value.0)
    ensures !Exists(st, Scheduled) ==> r == Ok((st, None))
    ensures r.Ok? && r.value.1.None? ==> r.value.0 == st
  {
    if !Exists(st, Scheduled) then Ok((st, None))
    else
      var es :- Children(st, Scheduled);
      if |es| == 0 then Ok((st, None))
      else
        var moved :- MoveToRunning(st, es[0].key);
        Ok((moved.0, Some(moved.1)))
  }

  /** The promoted job is the first key `scheduled` enumerates, so every other
      scheduled key is larger, and the promotion is the move of that one job. */
  lemma PromoteSmallest(st: Node)
    requires WF(st) && Promote(st).Ok? && Promote(st).value.1.Some?
    ensures IsMapAt(st, Scheduled)
    ensures var es := Children(st, Scheduled).value;
      var id := Promote(st).value.1.value.id;
      && |es| > 0 && id == es[0].key
      && (forall i :: 0 < i < |es| ==> Strs.Less(id, es[i].key))
      && MoveToRunning(st, id) == Ok((Promote(st).value.0, Promote(st).value.1.value))
  {
    LookupWF(st, Scheduled);
  }

  /** The promotion moves nothing exactly when `scheduled` is absent or empty. */
  lemma PromoteNothingWhenEmpty(st: Node)
    requires WF(st) && Promote(st).Ok?
    ensures Promote(st).value.1.None? <==> !Exists(st, Scheduled) || Children(st, Scheduled) == Ok([])
  {
  }

  /** The intermediate stores of a move, for the lemmas below. */
  datatype MoveSteps = MoveSteps(st1: Node, st2: Node, st3: Node, st4: Node, name: Bytes, params: Bytes)

  function MoveStepsOf(st: Node, id: string): (s: MoveSteps)
    requires WF(st) && MoveToRunning(st, id).Ok?
    ensures WF(s.st1) && WF(s.st2) && WF(s.st3) && WF(s.st4)
    ensures Get(st, Scheduled + [id] + ["name"]) == Ok(s.name)
    ensures Get(st, Scheduled + [id] + ["params"]) == Ok(s.params)
    ensures Delete(st, Scheduled + [id]) == Ok(s.st1)
    ensures EnsureMap(s.st1, Running) == Ok(s.st2)
    ensures CreateMap(s.st2, Running + [id]) == Ok(s.st3)
    ensures Put(s.st3, Running + [id] + ["name"], s.name) == Ok(s.st4)
    ensures Put(s.st4, Running + [id] + ["params"], s.params) == Ok(MoveToRunning(st, id).value.0)
    ensures MoveToRunning(st, id).value.1 == Launch(id, s.name, s.params)
  {
    var jp := Scheduled + [id];
    var name := Get(st, jp + ["name"]).value;
    var params := Get(st, jp + ["params"]).value;
    var st1 := Delete(st, jp).value;
    var st2 := EnsureMap(st1, Running).value;
    var st3 := CreateMap(st2, Running + [id]).value;
    var st4 := Put(st3, Running + [id] + ["name"], name).value;
    MoveSteps(st1, st2, st3, st4, name, params)
  }

  /** What exists after moving job `id`: everything that did, except `scheduled/<id>`
      and its subtree, plus `running`, `running/<id>` and its two fields. */
  lemma MoveExists(st: Node, id: string, q: Path)
    requires WF(st) && MoveToRunning(st, id).Ok?
    ensures Exists(MoveToRunning(st, id).value.0, q) <==>
        (Exists(st, q) && !IsPrefix(Scheduled + [id], q))
        || q == Running || q == Running + [id]
        || q == Running + [id] + ["name"] || q == Running + [id] + ["params"]
  {
    var s := MoveStepsOf(st, id);
    DeleteExists(st, Scheduled + [id], q);
    EnsureMapExists(s.st1, Running, q);
    CreateMapExists(s.st2, Running + [id], q);
    PutExists(s.st3, Running + [id] + ["name"], s.name, q);
    PutExists(s.st4, Running + [id] + ["params"], s.params, q);
  }

  /** The moved job's `name` and `params` under `running` are byte-identical copies,
      and `scheduled/<id>` is gone. */
  lemma MoveCopies(st: Node, id: string)
    requires WF(st) && MoveToRunning(st, id).Ok?
    ensures var r := MoveToRunning(st, id).value;
      && Get(r.0, Running + [id] + ["name"]) == Ok(r.1.name)
      && Get(r.0, Running + [id] + ["params"]) == Ok(r.1.params)
      && Get(r.0, Running + [id] + ["name"]) == Get(st, Scheduled + [id] + ["name"])
      && Get(r.0, Running + [id] + ["params"]) == Get(st, Scheduled + [id] + ["params"])
      && !Exists(r.0, Scheduled + [id])
  {
    var s := MoveStepsOf(st, id);
    var np := Running + [id] + ["name"];
    var pp := Running + [id] + ["params"];
    WriteHere(s.st3, np, Some(Value(s.name)));
    DisjointSameLength(pp, np);
    WriteFrame(s.st4, pp, Some(Value(s.params)), np);
    WriteHere(s.st4, pp, Some(Value(s.params)));
    MoveExists(st, id, Scheduled + [id]);
  }

  /** Moving job `id` changes only its own state: it leaves `scheduled` and enters
      `running`; every other (queue, id) pair is as before. */
  lemma MoveQueues(st: Node, id: string, i: nat, x: string)
    requires WF(st) && MoveToRunning(st, id).Ok? && i < |Queues|
    ensures InQueue(MoveToRunning(st, id).value.0, Queues[i], x) <==>
      (InQueue(st, Queues[i], x) && !(i == 0 && x == id)) || (i == 1 && x == id)
  {
    var q := Queues[i] + [x];
    MoveExists(st, id, q);
    QueueEntryPaths(i, x, Queues[i]);
    QueueEntryPaths(0, id, Scheduled);
    QueueEntryPaths(1, id, Running);
    assert |Running + [id] + ["name"]| == 5 && |Running + [id] + ["params"]| == 5 && |Running| == 3;
    if IsPrefix(Scheduled + [id], q) { assert q == Scheduled + [id]; }
  }

  /** The moved job was in `scheduled` and not in `running` before the move. */
  lemma MoveFrom(st: Node, id: string)
    requires WF(st) && MoveToRunning(st, id).Ok?
    ensures InQueue(st, Scheduled, id) && !InQueue(st, Running, id)
  {
    var s := MoveStepsOf(st, id);
    var rp := Running + [id];
    EnsureMapExists(s.st1, Running, rp);
    DeleteExists(st, Scheduled + [id], rp);
    DisjointSameLength(Scheduled + [id], rp);
  }

  /** Moving a job that is in `scheduled` only keeps every job in at most one state. */
  lemma MoveKeepsOneState(st: Node, id: string)
    requires WF(st) && AtMostOneState(st) && MoveToRunning(st, id).Ok?
    ensures AtMostOneState(MoveToRunning(st, id).value.0)
  {
    MoveFrom(st, id);
    forall x ensures OneState(MoveToRunning(st, id).value.0, x) {
      assert OneState(st, x);
      MoveQueues(st, id, 0, x);
      MoveQueues(st, id, 1, x);
      MoveQueues(st, id, 2, x);
      MoveQueues(st, id, 3, x);
    }
  }

  /** A promotion keeps every job in at most one state. */
  lemma PromoteKeepsOneState(st: Node)
    requires WF(st) && AtMostOneState(st) && Promote(st).Ok?
    ensures AtMostOneState(Promote(st).value.0)
  {
    if Promote(st).value.1.Some? {
      PromoteSmallest(st);
      MoveKeepsOneState(st, Promote(st).value.1.value.id);
    }
  }

  /* ---------------------------------------------------------------- history trimming */

  /** `maxHistorySize - 1` in unsigned 64-bit arithmetic: 0 wraps to 2^64 - 1. */
  function TrimLimit(maxHistory: nat): (r: nat)
    requires maxHistory < 0x1_0000_0000_0000_0000
    ensures maxHistory >= 1 ==> r + 1 == maxHistory
    ensures maxHistory == 0 ==> r == 0xFFFF_FFFF_FFFF_FFFF
  {
    (maxHistory - 1) % 0x1_0000_0000_0000_0000
  }

  /** Delete the smallest keys of the map at `p` until at most `maxSize` remain. */
  function TrimToSize(st: Node, p: Path, maxSize: nat): (r: Result<Node, StoreError>)
    requires WF(st)
    ensures r.Ok? ==> WF(r.value)
    ensures !Exists(st, p) ==> r.Err?
    ensures IsMapAt(st, p) ==> r.Ok? && IsMapAt(r.value, p)
    ensures IsMapAt(st, p) ==> |Lookup(r.value, p).value.entries| == Min(|Lookup(st, p).value.entries|, maxSize)
  {
    var size :- Size(st, p);
    if size <= maxSize then Ok(st)
    else
      var es :- Children(st, p);
      TrimmedCount(st, p, es, size - maxSize);
      DeleteKeys(st, p, Keys(es[..size - maxSize]))
  }

  function Min(a: nat, b: nat): nat {
    if a <= b then a else b
  }

  /** Deleting the first `n` children of a map leaves a map of the rest. */
  lemma TrimmedCount(st: Node, p: Path, es: seq<Entry>, n: nat)
    requires WF(st) && Children(st, p) == Ok(es) && n <= |es|
    ensures DeleteKeys(st, p, Keys(es[..n])).Ok?
    ensures var d := DeleteKeys(st, p, Keys(es[..n])).value;
      IsMapAt(d, p) && |Lookup(d, p).value.entries| == |es| - n
  {
    DeleteFirst(st, p, es, n);
  }

  /** Trimming a map of more than `maxSize` entries deletes its first keys. */
  lemma {:induction false} TrimLarge(st: Node, p: Path, maxSize: nat, es: seq<Entry>, n: nat)
    requires WF(st) && Children(st, p) == Ok(es) && n == |es| - maxSize && |es| > maxSize
    ensures TrimToSize(st, p, maxSize) == DeleteKeys(st, p, Keys(es[..n]))
  {
    assert Size(st, p) == Ok(|es|);
  }

  /** Trimming a map of more than `maxSize` entries keeps the last `maxSize` of them. */
  lemma {:induction false} TrimLargeKeeps(st: Node, p: Path, maxSize: nat, es: seq<Entry>, n: nat)
    requires WF(st) && Children(st, p) == Ok(es) && n == |es| - maxSize && |es| > maxSize
    ensures TrimToSize(st, p, maxSize).Ok?
    ensures Children(TrimToSize(st, p, maxSize).value, p) == Ok(es[n..])
    ensures SameBeside(st, TrimToSize(st, p, maxSize).value, p)
  {
    DeleteFirst(st, p, es, n);
    var d := DeleteKeys(st, p, Keys(es[..n]));
    assert d.Ok? && Children(d.value, p) == Ok(es[n..]);
    assert SameBeside(st, d.value, p);
    TrimLarge(st, p, maxSize, es, n);
    assert TrimToSize(st, p, maxSize) == d;
  }

  /** Trimming a map keeps exactly its `maxSize` largest keys, in order, and nothing
      beside the map changes; a map already small enough is left alone. */
  lemma {:induction false} TrimToSizeKeepsLargest(st: Node, p: Path, maxSize: nat)
    requires WF(st) && IsMapAt(st, p)
    ensures TrimToSize(st, p, maxSize).Ok?
    ensures var es := Lookup(st, p).value.entries;
      Children(TrimToSize(st, p, maxSize).value, p) ==
        Ok(if |es| <= maxSize then es else es[|es| - maxSize..])
    ensures SameBeside(st, TrimToSize(st, p, maxSize).value, p)
  {
    var es := Lookup(st, p).value.entries;
    assert Children(st, p) == Ok(es);
    if |es| > maxSize {
      TrimLargeKeeps(st, p, maxSize, es, |es| - maxSize);
    } else {
      assert Size(st, p) == Ok(|es|);
      assert TrimToSize(st, p, maxSize) == Ok(st);
    }
  }

  /** The entries a trimmed map keeps. */
  lemma {:induction false} TrimKept(st: Node, p: Path, maxSize: nat, es: seq<Entry>)
    requires WF(st) && Children(st, p) == Ok(es)
    ensures TrimToSize(st, p, maxSize).Ok?
    ensures Children(TrimToSize(st, p, maxSize).value, p) ==
      Ok(if |es| <= maxSize then es else es[|es| - maxSize..])
  {
    if |es| > maxSize {
      TrimLargeKeeps(st, p, maxSize, es, |es| - maxSize);
    } else {
      assert Size(st, p) == Ok(|es|);
      assert TrimToSize(st, p, maxSize) == Ok(st);
    }
  }

  /** After trimming to `maxSize` the map holds at most `maxSize` entries. */
  lemma {:induction false} TrimBound(st: Node, p: Path, maxSize: nat)
    requires WF(st) && IsMapAt(st, p)
    ensures TrimToSize(st, p, maxSize).Ok?
    ensures IsMapAt(TrimToSize(st, p, maxSize).value, p)
    ensures Size(TrimToSize(st, p, maxSize).value, p).value <= maxSize
  {
    var es := Lookup(st, p).value.entries;
    assert Children(st, p) == Ok(es);
    TrimKept(st, p, maxSize, es);
    var kept := if |es| <= maxSize then es else es[|es| - maxSize..];
    var t := TrimToSize(st, p, maxSize).value;
    assert Children(t, p) == Ok(kept);
    assert Lookup(t, p) == Some(Map(kept));
    assert |kept| <= maxSize;
  }

  /** With `maxHistorySize` 0 the wrapped limit trims nothing from any map the store
      can hold (its size is an unsigned 64-bit count). */
  lemma ZeroHistoryTrimsNothing(st: Node, p: Path)
    requires WF(st) && IsMapAt(st, p)
    requires |Lookup(st, p).value.entries| < 0x1_0000_0000_0000_0000
    ensures TrimToSize(st, p, TrimLimit(0)) == Ok(st)
  {
  }

  /* ---------------------------------------------------------------- running a job */

  /** How running the job's script ended. */
  datatype RunOutcome =
    | Finished
    | ScriptError(message: string)   // the script threw
    | PanicError(message: string)    // a Go panic carrying an error
    | PanicValue(text: string)       // a Go panic carrying anything else

  /** The error the job is recorded with, if any. The recovering `defer` was
      evidently meant to turn a panic into a failure. */
  function RunError(o: RunOutcome): (r: Option<string>)
    ensures r.None? <==> o.Finished?
    ensures o.ScriptError? ==> r == Some("while running job: " + o.message)
    ensures o.PanicValue? ==> Strs.HasPrefix(r.value, "panic while running job: ")
  {
    match o
    case Finished => None
    case ScriptError(m) => Some("while running job: " + m)
    case PanicError(m) => Some(m)
    case PanicValue(t) => Some("panic while running job: " + t)
  }

  /** The closure as written: its result is unnamed, so the recovering `defer` only
      sets a local and a recovered panic returns nil. */
  function RunErrorAsWritten(o: RunOutcome): (r: Option<string>)
    ensures r.None? <==> o.Finished? || o.PanicError? || o.PanicValue?
  {
    match o
    case ScriptError(m) => Some("while running job: " + m)
    case _ => None
  }

  /** A panicking job is recorded as succeeded by the code as written. */
  lemma PanicRecordedAsSuccess(text: string)
    ensures RunErrorAsWritten(PanicValue(text)).None?
    ensures RunError(PanicValue(text)).Some?
  {
  }

  /** The fields a finished job is recorded with. */
  function Record(name: Bytes, params: Bytes, err: Option<string>, now: Bytes): (fs: seq<(string, Bytes)>)
    ensures DistinctNames(fs)
    ensures err.Some? ==> fs == [("name", name), ("params", params), ("error", err.value), ("failedAt", now)]
    ensures err.None? ==> fs == [("name", name), ("params", params), ("finishedAt", now)]
  {
    match err
    case Some(e) => [("name", name), ("params", params), ("error", e), ("failedAt", now)]
    case None => [("name", name), ("params", params), ("finishedAt", now)]
  }

  function Destination(err: Option<string>): Path {
    if err.Some? then Failed else Succeeded
  }

  /** The completion transaction: move `running/<id>` to `failed` (with the error) or
      `succeeded`, first trimming that queue to `maxHistorySize - 1` entries. `now` is
      the RFC 3339 timestamp. */
  function Complete(st: Node, id: string, name: Bytes, params: Bytes, err: Option<string>,
                    maxHistory: nat, now: Bytes): (r: Result<Node, StoreError>)
    requires WF(st) && maxHistory < 0x1_0000_0000_0000_0000
    ensures r.Ok? ==> WF(r.value)
    ensures !InQueue(st, Running, id) ==> r.Err?
  {
    var dest := Destination(err);
    var st1 :- Delete(st, Running + [id]);
    var st2 :- EnsureMap(st1, dest);
    var st3 :- TrimToSize(st2, dest, TrimLimit(maxHistory));
    var st4 :- CreateMap(st3, dest + [id]);
    PutFields(st4, dest + [id], Record(name, params, err, now))
  }

  /** The intermediate stores of a completion, for the lemmas below. */
  datatype Steps = Steps(st1: Node, st2: Node, st3: Node, st4: Node)

  function CompleteSteps(st: Node, id: string, name: Bytes, params: Bytes, err: Option<string>,
                         maxHistory: nat, now: Bytes): (s: Steps)
    requires WF(st) && maxHistory < 0x1_0000_0000_0000_0000
    requires Complete(st, id, name, params, err, maxHistory, now).Ok?
    ensures WF(s.st1) && WF(s.st2) && WF(s.st3) && WF(s.st4)
    ensures Delete(st, Running + [id]) == Ok(s.st1)
    ensures EnsureMap(s.st1, Destination(err)) == Ok(s.st2)
    ensures TrimToSize(s.st2, Destination(err), TrimLimit(maxHistory)) == Ok(s.st3)
    ensures CreateMap(s.st3, Destination(err) + [id]) == Ok(s.st4)
    ensures PutFields(s.st4, Destination(err) + [id], Record(name, params, err, now))
      == Complete(st, id, name, params, err, maxHistory, now)
  {
    var dest := Destination(err);
    var st1 := Delete(st, Running + [id]).value;
    var st2 := EnsureMap(st1, dest).value;
    var st3 := TrimToSize(st2, dest, TrimLimit(maxHistory)).value;
    var st4 := CreateMap(st3, dest + [id]).value;
    Steps(st1, st2, st3, st4)
  }

  /** After a completion every field of the job's record reads back in the
      destination queue. */
  lemma CompleteRecords(st: Node, id: string, name: Bytes, params: Bytes, err: Option<string>,
                        maxHistory: nat, now: Bytes, i: nat)
    requires WF(st) && maxHistory < 0x1_0000_0000_0000_0000
    requires Complete(st, id, name, params, err, maxHistory, now).Ok?
    requires i < |Record(name, params, err, now)|
    ensures var r := Complete(st, id, name, params, err, maxHistory, now).value;
      var f := Record(name, params, err, now)[i];
      Get(r, Destination(err) + [id] + [f.0]) == Ok(f.1)
  {
    var s := CompleteSteps(st, id, name, params, err, maxHistory, now);
    PutFieldsGet(s.st4, Destination(err) + [id], Record(name, params, err, now), i);
  }

  /** What can exist after a completion: what existed before, minus `running/<id>` and
      its subtree, plus the destination queue, `<dest>/<id>` and its fields. */
  lemma CompleteExists(st: Node, id: string, name: Bytes, params: Bytes, err: Option<string>,
                       maxHistory: nat, now: Bytes, q: Path)
    requires WF(st) && maxHistory < 0x1_0000_0000_0000_0000
    requires Complete(st, id, name, params, err, maxHistory, now).Ok?
    ensures Exists(Complete(st, id, name, params, err, maxHistory, now).value, q) ==>
      (Exists(st, q) && !IsPrefix(Running + [id], q))
      || q == Destination(err) || IsPrefix(Destination(err) + [id], q)
  {
    var s := CompleteSteps(st, id, name, params, err, maxHistory, now);
    var dest := Destination(err);
    var fs := Record(name, params, err, now);
    var r := Complete(st, id, name, params, err, maxHistory, now).value;
    if Exists(r, q) {
      PutFieldsExists(s.st4, dest + [id], fs, q);
      if !Exists(s.st4, q) {
        var j :| 0 <= j < |fs| && q == dest + [id] + [fs[j].0];
        assert IsPrefix(dest + [id], q);
      } else if q != dest + [id] {
        CreateMapExists(s.st3, dest + [id], q);
        TrimShrinks(s.st2, dest, TrimLimit(maxHistory), q);
        if q != dest {
          EnsureMapExists(s.st1, dest, q);
          DeleteExists(st, Running + [id], q);
        }
      }
    }
  }

  /** After a completion the job has left `running` and sits in its destination. */
  lemma CompleteMoves(st: Node, id: string, name: Bytes, params: Bytes, err: Option<string>,
                      maxHistory: nat, now: Bytes)
    requires WF(st) && maxHistory < 0x1_0000_0000_0000_0000
    requires Complete(st, id, name, params, err, maxHistory, now).Ok?
    ensures var r := Complete(st, id, name, params, err, maxHistory, now).value;
      !InQueue(r, Running, id) && InQueue(r, Destination(err), id)
  {
    CompleteLeavesRunning(st, id, name, params, err, maxHistory, now);
    CompleteArrives(st, id, name, params, err, maxHistory, now);
  }

  lemma CompleteLeavesRunning(st: Node, id: string, name: Bytes, params: Bytes, err: Option<string>,
                              maxHistory: nat, now: Bytes)
    requires WF(st) && maxHistory < 0x1_0000_0000_0000_0000
    requires Complete(st, id, name, params, err, maxHistory, now).Ok?
    ensures !InQueue(Complete(st, id, name, params, err, maxHistory, now).value, Running, id)
  {
    var home, dest := Running + [id], Destination(err);
    DisjointSameLength(dest + [id], home);
    CompleteExists(st, id, name, params, err, maxHistory, now, home);
    Excluded(st, Complete(st, id, name, params, err, maxHistory, now).value, home, dest, dest + [id]);
  }

  /** A path that may exist afterwards only as a path outside itself, as `dest`, or
      below `slot` does not exist, when it is neither `dest` nor below `slot`. */
  lemma Excluded(st: Node, r: Node, home: Path, dest: Path, slot: Path)
    requires Exists(r, home) ==> (Exists(st, home) && !IsPrefix(home, home)) || home == dest || IsPrefix(slot, home)
    requires home != dest && !IsPrefix(slot, home)
    ensures !Exists(r, home)
  {
    assert home[..|home|] == home;
  }

  lemma CompleteArrives(st: Node, id: string, name: Bytes, params: Bytes, err: Option<string>,
                        maxHistory: nat, now: Bytes)
    requires WF(st) && maxHistory < 0x1_0000_0000_0000_0000
    requires Complete(st, id, name, params, err, maxHistory, now).Ok?
    ensures InQueue(Complete(st, id, name, params, err, maxHistory, now).value, Destination(err), id)
  {
    var s := CompleteSteps(st, id, name, params, err, maxHistory, now);
    var slot := Destination(err) + [id];
    CreateMapExists(s.st3, slot, slot);
    assert Exists(s.st4, slot);
    PutFieldsExists(s.st4, slot, Record(name, params, err, now), slot);
  }

  /** Trimming `p` leaves the existence of every path outside `p` alone. */
  lemma TrimFrameExists(st: Node, p: Path, maxSize: nat, q: Path)
    requires WF(st) && IsMapAt(st, p) && Disjoint(p, q)
    ensures TrimToSize(st, p, maxSize).Ok?
    ensures Exists(TrimToSize(st, p, maxSize).value, q) <==> Exists(st, q)
  {
    TrimToSizeKeepsLargest(st, p, maxSize);
  }

  /** Trimming only removes nodes. */
  lemma TrimShrinks(st: Node, p: Path, maxSize: nat, q: Path)
    requires WF(st) && TrimToSize(st, p, maxSize).Ok?
    ensures Exists(TrimToSize(st, p, maxSize).value, q) ==> Exists(st, q)
  {
    var size := Size(st, p).value;
    if size > maxSize {
      var es := Children(st, p).value;
      assert TrimToSize(st, p, maxSize) == DeleteKeys(st, p, Keys(es[..size - maxSize]));
      DeleteKeysShrinks(st, p, Keys(es[..size - maxSize]), q);
    } else {
      assert TrimToSize(st, p, maxSize) == Ok(st);
    }
  }

  /** A trim that succeeds on something other than a map leaves the store alone. */
  lemma TrimNonMap(st: Node, p: Path, maxSize: nat)
    requires WF(st) && TrimToSize(st, p, maxSize).Ok? && !IsMapAt(st, p)
    ensures TrimToSize(st, p, maxSize) == Ok(st)
  {
    assert Size(st, p).value <= maxSize;
  }

  /** A completion that commits found (or made) its destination queue a map. */
  lemma CompleteDestIsMap(st: Node, id: string, name: Bytes, params: Bytes, err: Option<string>,
                          maxHistory: nat, now: Bytes)
    requires WF(st) && maxHistory < 0x1_0000_0000_0000_0000
    requires Complete(st, id, name, params, err, maxHistory, now).Ok?
    ensures var s := CompleteSteps(st, id, name, params, err, maxHistory, now);
      IsMapAt(s.st2, Destination(err)) && IsMapAt(s.st3, Destination(err))
  {
    var s := CompleteSteps(st, id, name, params, err, maxHistory, now);
    var dest := Destination(err);
    assert Parent(dest + [id]) == dest;
    assert IsMapAt(s.st3, dest);
    if !IsMapAt(s.st2, dest) { TrimNonMap(s.st2, dest, TrimLimit(maxHistory)); }
  }

  /** How a completion moves ids between queues: `id` leaves `running` and enters its
      destination; every other (queue, id) pair can only disappear, by trimming. */
  lemma CompleteQueues(st: Node, id: string, name: Bytes, params: Bytes, err: Option<string>,
                       maxHistory: nat, now: Bytes, i: nat, x: string)
    requires WF(st) && maxHistory < 0x1_0000_0000_0000_0000 && i < |Queues|
    requires Complete(st, id, name, params, err, maxHistory, now).Ok?
    ensures InQueue(st, Running, id)
    ensures var r := Complete(st, id, name, params, err, maxHistory, now).value;
      InQueue(r, Queues[i], x) ==>
        (InQueue(st, Queues[i], x) && !(i == 1 && x == id)) || (Queues[i] == Destination(err) && x == id)
  {
    var dest := Destination(err);
    var q := Queues[i] + [x];
    CompleteExists(st, id, name, params, err, maxHistory, now, q);
    QueueEntryPaths(i, x, Queues[i]);
    QueueEntryPaths(1, id, Running);
    if IsPrefix(Running + [id], q) { assert q == Running + [id]; }
    if IsPrefix(dest + [id], q) {
      assert q == dest + [id];
      assert dest == Queues[i] by { assert dest == q[..3]; }
    }
    assert q != dest by { assert |dest| == 3; }
  }

  /** A completion keeps every job in at most one state. */
  lemma CompleteKeepsOneState(st: Node, id: string, name: Bytes, params: Bytes, err: Option<string>,
                              maxHistory: nat, now: Bytes)
    requires WF(st) && maxHistory < 0x1_0000_0000_0000_0000 && AtMostOneState(st)
    requires Complete(st, id, name, params, err, maxHistory, now).Ok?
    ensures AtMostOneState(Complete(st, id, name, params, err, maxHistory, now).value)
  {
    forall x ensures OneState(Complete(st, id, name, params, err, maxHistory, now).value, x) {
      assert OneState(st, x);
      CompleteQueues(st, id, name, params, err, maxHistory, now, 0, x);
      CompleteQueues(st, id, name, params, err, maxHistory, now, 1, x);
      CompleteQueues(st, id, name, params, err, maxHistory, now, 2, x);
      CompleteQueues(st, id, name, params, err, maxHistory, now, 3, x);
    }
  }

  /** Before the new entry is created, trimming has left the destination queue with at
      most `maxHistorySize - 1` entries. */
  lemma CompleteTrimBound(st: Node, id: string, name: Bytes, params: Bytes, err: Option<string>,
                          maxHistory: nat, now: Bytes)
    requires WF(st) && 1 <= maxHistory < 0x1_0000_0000_0000_0000
    requires Complete(st, id, name, params, err, maxHistory, now).Ok?
    ensures var s := CompleteSteps(st, id, name, params, err, maxHistory, now);
      IsMapAt(s.st3, Destination(err)) && Size(s.st3, Destination(err)).value < maxHistory
  {
    var s := CompleteSteps(st, id, name, params, err, maxHistory, now);
    var dest := Destination(err);
    CompleteDestIsMap(st, id, name, params, err, maxHistory, now);
    TrimBound(s.st2, dest, TrimLimit(maxHistory));
  }

  /** With `maxHistorySize` >= 1 the destination queue holds at most `maxHistorySize`
      entries after a completion, the new one included. */
  lemma CompleteBoundsHistory(st: Node, id: string, name: Bytes, params: Bytes, err: Option<string>,
                              maxHistory: nat, now: Bytes)
    requires WF(st) && 1 <= maxHistory < 0x1_0000_0000_0000_0000
    requires Complete(st, id, name, params, err, maxHistory, now).Ok?
    ensures var r := Complete(st, id, name, params, err, maxHistory, now).value;
      IsMapAt(r, Destination(err)) && Size(r, Destination(err)).value <= maxHistory
  {
    var s := CompleteSteps(st, id, name, params, err, maxHistory, now);
    var dest := Destination(err);
    CompleteTrimBound(st, id, name, params, err, maxHistory, now);
    CreateMapChildCount(s.st3, dest, id);
    PutFieldsKeepsSize(s.st4, dest + [id], Record(name, params, err, now), dest);
  }

  /** Ensuring and trimming a queue whose parent is a map and which is not a value
      succeeds, leaves it a map, and adds no entry to it. */
  lemma EnsureTrimOk(st: Node, dest: Path, id: string, maxSize: nat)
    requires WF(st) && |dest| > 0 && IsMapAt(st, Parent(dest)) && !IsValueAt(st, dest)
    ensures EnsureMap(st, dest).Ok? && TrimToSize(EnsureMap(st, dest).value, dest, maxSize).Ok?
    ensures var st3 := TrimToSize(EnsureMap(st, dest).value, dest, maxSize).value;
      IsMapAt(st3, dest) && (Exists(st3, dest + [id]) ==> Exists(st, dest + [id]))
  {
    var st2 := EnsureMap(st, dest).value;
    EnsureMapFrame(st, dest);
    TrimToSizeKeepsLargest(st2, dest, maxSize);
    TrimShrinks(st2, dest, maxSize, dest + [id]);
    EnsureMapExists(st, dest, dest + [id]);
  }

  /** Deleting a node leaves a sibling `dest` of its parent, and its entries, as they
      were, and the common grandparent a map. */
  lemma DeleteSiblingFrame(st: Node, jp: Path, dest: Path, id: string)
    requires WF(st) && Exists(st, jp) && |jp| == |dest| + 1 && |dest| > 0
    requires IsPrefix(Parent(dest), jp) && jp[..|dest|] != dest
    ensures Delete(st, jp).Ok?
    ensures var st1 := Delete(st, jp).value;
      IsMapAt(st1, Parent(dest)) && Lookup(st1, dest) == Lookup(st, dest)
      && (Exists(st1, dest + [id]) <==> Exists(st, dest + [id]))
  {
    assert Replace(st, jp, None) == Some(Delete(st, jp).value);
    AboveWrite(st, jp, None, Parent(dest));
    assert (dest + [id])[..|dest|] == dest;
    DisjointSameLength(dest + [id], jp);
    WriteFrame(st, jp, None, dest);
    DeleteExists(st, jp, dest + [id]);
  }

  /** Deleting `running/<id>` leaves the default queue a map and a history queue, and
      its entries, as they were. */
  lemma DeleteRunningFrame(st: Node, id: string, dest: Path)
    requires WF(st) && InQueue(st, Running, id) && (dest == Failed || dest == Succeeded)
    ensures Delete(st, Running + [id]).Ok?
    ensures var st1 := Delete(st, Running + [id]).value;
      IsMapAt(st1, Parent(dest)) && Lookup(st1, dest) == Lookup(st, dest)
      && (Exists(st1, dest + [id]) <==> Exists(st, dest + [id]))
  {
    var jp := Running + [id];
    assert Parent(dest) == DefaultQueue && jp[..3] == Running;
    DeleteSiblingFrame(st, jp, dest, id);
  }

  /** The first three steps of a completion succeed for a running job whose destination
      is not a value, and leave the destination a map without the job. */
  lemma CompleteReachesCreate(st: Node, id: string, err: Option<string>, maxHistory: nat)
    requires WF(st) && InQueue(st, Running, id) && OneState(st, id)
    requires !IsValueAt(st, Destination(err))
    ensures Delete(st, Running + [id]).Ok?
    ensures var st1 := Delete(st, Running + [id]).value;
      EnsureMap(st1, Destination(err)).Ok?
      && TrimToSize(EnsureMap(st1, Destination(err)).value, Destination(err), maxHistory).Ok?
    ensures var st1 := Delete(st, Running + [id]).value;
      var st3 := TrimToSize(EnsureMap(st1, Destination(err)).value, Destination(err), maxHistory).value;
      IsMapAt(st3, Destination(err)) && !Exists(st3, Destination(err) + [id])
  {
    var dest := Destination(err);
    DeleteRunningFrame(st, id, dest);
    EnsureTrimOk(Delete(st, Running + [id]).value, dest, id, maxHistory);
  }

  /** A completion succeeds for any running job whose destination queue is not a value:
      a job that finishes always leaves `running`. */
  lemma CompleteOk(st: Node, id: string, name: Bytes, params: Bytes, err: Option<string>,
                   maxHistory: nat, now: Bytes)
    requires WF(st) && maxHistory < 0x1_0000_0000_0000_0000
    requires InQueue(st, Running, id) && OneState(st, id) && !IsValueAt(st, Destination(err))
    ensures Complete(st, id, name, params, err, maxHistory, now).Ok?
  {
    var dest := Destination(err);
    var base := dest + [id];
    var fs := Record(name, params, err, now);
    CompleteReachesCreate(st, id, err, TrimLimit(maxHistory));
    var st1 := Delete(st, Running + [id]).value;
    var st2 := EnsureMap(st1, dest).value;
    var st3 := TrimToSize(st2, dest, TrimLimit(maxHistory)).value;
    assert Parent(base) == dest;
    var st4 := CreateMap(st3, base).value;
    WriteHere(st3, base, Some(Map([])));
    forall i | 0 <= i < |fs| ensures !IsMapAt(st4, base + [fs[i].0]) {
      CreateMapExists(st3, base, base + [fs[i].0]);
      if Exists(st3, base + [fs[i].0]) { PrefixExists(st3, base, base + [fs[i].0]); }
    }
    PutFieldsOk(st4, base, fs);
    assert Complete(st, id, name, params, err, maxHistory, now) == PutFields(st4, base, fs);
  }

  /* ---------------------------------------------------------------- running a job */

  /** How a launched job ends. */
  datatype JobEnd =
    | Stranded            // the parameters did not decode or the source could not be read
    | Recorded(err: Option<string>)
    | RecordFailed        // the completion transaction failed and was rolled back

  /** A launched job given the error its run produced: decode the parameters (`decoded`),
      read `jobs/<name>.js`, then record the run. The store is the one after the job's
      last transaction. A job that is not recorded leaves the store alone, so a stranded
      job stays in `running`. */
  function FinishJob(st: Node, l: Launch, decoded: bool, err: Option<string>,
                     maxHistory: nat, now: Bytes): (r: (Node, JobEnd))
    requires WF(st) && maxHistory < 0x1_0000_0000_0000_0000
    ensures WF(r.0)
    ensures r.1 == Stranded <==> !decoded || !IsValueAt(st, DefinitionPath(l.name))
    ensures r.1 != Recorded(err) ==> r.0 == st
  {
    if !decoded then (st, Stranded)
    else match Get(st, DefinitionPath(l.name))
      case Err(_) => (st, Stranded)
      case Ok(_) =>
        match Complete(st, l.id, l.name, l.params, err, maxHistory, now)
        case Ok(st') => (st', Recorded(err))
        case Err(_) => (st, RecordFailed)
  }

  /** A launched job, with a recovered panic recorded as a failure. */
  function RunJob(st: Node, l: Launch, decoded: bool, outcome: RunOutcome,
                  maxHistory: nat, now: Bytes): (r: (Node, JobEnd))
    requires WF(st) && maxHistory < 0x1_0000_0000_0000_0000
    ensures WF(r.0)
    ensures r.1 == Stranded <==> !decoded || !IsValueAt(st, DefinitionPath(l.name))
    ensures r.1.Recorded? ==> (r.1.err.None? <==> outcome.Finished?)
    ensures !r.1.Recorded? ==> r.0 == st
  {
    FinishJob(st, l, decoded, RunError(outcome), maxHistory, now)
  }

  /** A launched job as written: a recovered panic counts as success. */
  function RunJobAsWritten(st: Node, l: Launch, decoded: bool, outcome: RunOutcome,
                           maxHistory: nat, now: Bytes): (r: (Node, JobEnd))
    requires WF(st) && maxHistory < 0x1_0000_0000_0000_0000
    ensures WF(r.0)
    ensures r.1 == Stranded <==> !decoded || !IsValueAt(st, DefinitionPath(l.name))
    ensures r.1.Recorded? ==> (r.1.err.None? <==> !outcome.ScriptError?)
    ensures !r.1.Recorded? ==> r.0 == st
  {
    FinishJob(st, l, decoded, RunErrorAsWritten(outcome), maxHistory, now)
  }

  /** A running job whose parameters decode and whose source exists leaves `running`
      and lands in `failed` or `succeeded`, as its error says, provided that queue is
      not a value. */
  lemma FinishedJobLands(st: Node, l: Launch, decoded: bool, err: Option<string>, maxHistory: nat, now: Bytes)
    requires WF(st) && maxHistory < 0x1_0000_0000_0000_0000
    requires decoded && IsValueAt(st, DefinitionPath(l.name))
    requires InQueue(st, Running, l.id) && OneState(st, l.id) && !IsValueAt(st, Destination(err))
    ensures var (r, end) := FinishJob(st, l, decoded, err, maxHistory, now);
      end == Recorded(err) && !InQueue(r, Running, l.id) && InQueue(r, Destination(err), l.id)
  {
    CompleteOk(st, l.id, l.name, l.params, err, maxHistory, now);
    CompleteMoves(st, l.id, l.name, l.params, err, maxHistory, now);
  }

  /** As written, a job whose script panics is recorded in `succeeded`; with the panic
      recorded as an error it lands in `failed`. */
  lemma PanickingJobSucceedsAsWritten(st: Node, l: Launch, text: string, maxHistory: nat, now: Bytes)
    requires WF(st) && maxHistory < 0x1_0000_0000_0000_0000
    requires IsValueAt(st, DefinitionPath(l.name)) && InQueue(st, Running, l.id) && OneState(st, l.id)
    requires !IsValueAt(st, Failed) && !IsValueAt(st, Succeeded)
    ensures InQueue(RunJobAsWritten(st, l, true, PanicValue(text), maxHistory, now).0, Succeeded, l.id)
    ensures InQueue(RunJob(st, l, true, PanicValue(text), maxHistory, now).0, Failed, l.id)
  {
    FinishedJobLands(st, l, true, None, maxHistory, now);
    FinishedJobLands(st, l, true, RunError(PanicValue(text)), maxHistory, now);
  }
}
