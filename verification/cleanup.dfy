/** The periodic clean-up of finished job records.

    On every tick a write transaction walks `failed` and then `succeeded` in ascending key
    order and deletes records whose id carries a time not after `now - keep`, stopping at
    the first newer one. An id that does not carry a time aborts the whole transaction,
    which is then rolled back; the loop logs the error and waits for the next tick. */
module Cleanup {
  import opened Wrappers
  import opened Store
  import opened JobQueue

  /** Why a cleaning transaction gives up. */
  datatype CleanError =
    | BadId(id: string)         // not a UUID, not version 6, or no usable timestamp
    | StoreFailed(e: StoreError)

  /** Records removed from each queue in one tick. */
  datatype Counters = Counters(succeeded: nat, failed: nat)

  /** The time carried by a record's id, when it carries one: UUID parsing, the version-6
      check and the timestamp extraction are one parameter, `idTime`. */
  type IdTime = string -> Option<int>

  /** A record is old enough to delete when its id's time is not after the cutoff. */
  predicate Expired(idTime: IdTime, cutoff: int, id: string) {
    idTime(id).Some? && idTime(id).value <= cutoff
  }

  /** The clean-up loop over one queue's ids: how many it deletes from the front before
      reaching an id newer than the cutoff, or the id that aborts it. */
  function ExpiredPrefix(ids: seq<string>, idTime: IdTime, cutoff: int): (r: Result<nat, CleanError>)
    ensures r.Ok? ==> r.value <= |ids|
    ensures r.Ok? ==> forall i :: 0 <= i < r.value ==> Expired(idTime, cutoff, ids[i])
    ensures r.Ok? && r.value < |ids| ==> idTime(ids[r.value]).Some? && idTime(ids[r.value]).value > cutoff
    ensures r.Err? ==> exists i :: 0 <= i < |ids| && r.error == BadId(ids[i]) && idTime(ids[i]).None?
                                   && forall j :: 0 <= j < i ==> Expired(idTime, cutoff, ids[j])
  {
    if |ids| == 0 then Ok(0)
    else match idTime(ids[0])
      case None => Err(BadId(ids[0]))
      case Some(t) =>
        if t > cutoff then Ok(0)
        else
          var n :- ExpiredPrefix(ids[1..], idTime, cutoff);
          assert forall i :: 1 <= i < |ids| ==> ids[i] == ids[1..][i - 1];
          Ok(n + 1)
  }

  /** The ids are in time order: the order of the keys agrees with the order of the times
      they carry (version-6 UUIDs put the timestamp first, most significant part first). */
  predicate TimeOrdered(ids: seq<string>, idTime: IdTime) {
    forall i, j :: 0 <= i < j < |ids| && idTime(ids[i]).Some? && idTime(ids[j]).Some? ==>
      idTime(ids[i]).value <= idTime(ids[j]).value
  }

  /** On time-ordered ids the loop deletes exactly the expired ones. */
  lemma ExpiredPrefixExact(ids: seq<string>, idTime: IdTime, cutoff: int, i: nat)
    requires TimeOrdered(ids, idTime) && ExpiredPrefix(ids, idTime, cutoff).Ok? && i < |ids|
    ensures i < ExpiredPrefix(ids, idTime, cutoff).value <==> Expired(idTime, cutoff, ids[i])
  {
    var n := ExpiredPrefix(ids, idTime, cutoff).value;
    if n < i && idTime(ids[i]).Some? {
      assert idTime(ids[n]).value <= idTime(ids[i]).value;
    }
  }

  /** Clean one queue: the store after the deletions and the number of records deleted.
      The queue must be a map: iterating anything else fails the transaction. */
  function CleanQueue(st: Node, q: Path, idTime: IdTime, cutoff: int): (r: Result<(Node, nat), CleanError>)
    requires WF(st)
    ensures r.Ok? ==> WF(r.value.0)
    ensures r.Ok? <==> IsMapAt(st, q) && ExpiredPrefix(Keys(Lookup(st, q).value.entries), idTime, cutoff).Ok?
    ensures r.Ok? ==> r.value.1 == ExpiredPrefix(Keys(Lookup(st, q).value.entries), idTime, cutoff).value
    ensures r.Ok? ==> Children(r.value.0, q) == Ok(Lookup(st, q).value.entries[r.value.1..])
  {
    match Children(st, q)
    case Err(e) => Err(StoreFailed(e))
    case Ok(es) =>
      var n :- ExpiredPrefix(Keys(es), idTime, cutoff);
      DeleteFirst(st, q, es, n);
      Ok((DeleteKeys(st, q, Keys(es[..n])).value, n))
  }

  /** Cleaning a queue reports exactly the number of records it removed. */
  lemma CleanQueueEffect(st: Node, q: Path, idTime: IdTime, cutoff: int)
    requires WF(st) && CleanQueue(st, q, idTime, cutoff).Ok?
    ensures var r, n := CleanQueue(st, q, idTime, cutoff).value.0, CleanQueue(st, q, idTime, cutoff).value.1;
      IsMapAt(r, q) && Size(r, q).value + n == Size(st, q).value
  {
    var es := Lookup(st, q).value.entries;
    var r, n := CleanQueue(st, q, idTime, cutoff).value.0, CleanQueue(st, q, idTime, cutoff).value.1;
    assert Lookup(r, q) == Some(Map(es[n..]));
  }

  /** A record survives cleaning exactly when it is not among the deleted first `n`. */
  lemma CleanQueueMembers(st: Node, q: Path, idTime: IdTime, cutoff: int, x: string)
    requires WF(st) && CleanQueue(st, q, idTime, cutoff).Ok?
    ensures IsMapAt(st, q)
    ensures var es := Lookup(st, q).value.entries;
      var r, n := CleanQueue(st, q, idTime, cutoff).value.0, CleanQueue(st, q, idTime, cutoff).value.1;
      InQueue(r, q, x) <==> x in Keys(es[n..])
  {
    var es := Lookup(st, q).value.entries;
    var r, n := CleanQueue(st, q, idTime, cutoff).value.0, CleanQueue(st, q, idTime, cutoff).value.1;
    var kept := es[n..];
    assert Lookup(r, q) == Some(Map(kept));
    ChildKeysExists(r, q, x);
    assert ChildKeys(r, q) == KeySet(kept);
    if x in Keys(kept) {
      var i :| 0 <= i < |kept| && Keys(kept)[i] == x;
      assert kept[i].key == x;
    }
  }

  /** With time-ordered ids, cleaning keeps a record exactly when it is not expired. */
  lemma CleanQueueKeepsFresh(st: Node, q: Path, idTime: IdTime, cutoff: int, x: string)
    requires WF(st) && CleanQueue(st, q, idTime, cutoff).Ok?
    requires TimeOrdered(Keys(Lookup(st, q).value.entries), idTime)
    ensures var r := CleanQueue(st, q, idTime, cutoff).value.0;
      InQueue(r, q, x) <==> InQueue(st, q, x) && !Expired(idTime, cutoff, x)
  {
    var es := Lookup(st, q).value.entries;
    var n := CleanQueue(st, q, idTime, cutoff).value.1;
    CleanQueueMembers(st, q, idTime, cutoff, x);
    ChildKeysExists(st, q, x);
    KeysSuffix(es, n, x);
    forall i | 0 <= i < |es| && es[i].key == x ensures n <= i <==> !Expired(idTime, cutoff, x) {
      ExpiredPrefixExact(Keys(es), idTime, cutoff, i);
    }
  }

  /** Cleaning a queue touches nothing beside it. */
  lemma CleanQueueFrame(st: Node, q: Path, idTime: IdTime, cutoff: int)
    requires WF(st) && CleanQueue(st, q, idTime, cutoff).Ok?
    ensures SameBeside(st, CleanQueue(st, q, idTime, cutoff).value.0, q)
  {
    var es := Children(st, q).value;
    var n := ExpiredPrefix(Keys(es), idTime, cutoff).value;
    DeleteFirst(st, q, es, n);
    assert CleanQueue(st, q, idTime, cutoff) == Ok((DeleteKeys(st, q, Keys(es[..n])).value, n));
  }

  /** Cleaning a queue leaves another queue of the same depth, and its members, alone. */
  lemma CleanQueueBeside(st: Node, q: Path, idTime: IdTime, cutoff: int, p: Path, x: string)
    requires WF(st) && CleanQueue(st, q, idTime, cutoff).Ok? && |p| == |q| && p != q
    ensures Lookup(CleanQueue(st, q, idTime, cutoff).value.0, p) == Lookup(st, p)
    ensures InQueue(CleanQueue(st, q, idTime, cutoff).value.0, p, x) == InQueue(st, p, x)
  {
    CleanQueueFrame(st, q, idTime, cutoff);
    BesideQueue(st, CleanQueue(st, q, idTime, cutoff).value.0, q, p, x);
  }

  /** A store that agrees beside `q` agrees on another queue of the same depth. */
  lemma BesideQueue(a: Node, b: Node, q: Path, p: Path, x: string)
    requires SameBeside(a, b, q) && |p| == |q| && p != q
    ensures Lookup(b, p) == Lookup(a, p)
    ensures InQueue(b, p, x) == InQueue(a, p, x)
  {
    DisjointSameLength(p, q);
    DisjointBelow(p, p + [x], q);
    assert Disjoint(q, p + [x]);
  }

  /** Cleaning a queue only deletes. */
  lemma CleanQueueShrinks(st: Node, q: Path, idTime: IdTime, cutoff: int, p: Path)
    requires WF(st) && CleanQueue(st, q, idTime, cutoff).Ok?
    ensures Exists(CleanQueue(st, q, idTime, cutoff).value.0, p) ==> Exists(st, p)
  {
    var es := Children(st, q).value;
    var n := ExpiredPrefix(Keys(es), idTime, cutoff).value;
    DeleteFirst(st, q, es, n);
    assert CleanQueue(st, q, idTime, cutoff) == Ok((DeleteKeys(st, q, Keys(es[..n])).value, n));
    DeleteKeysShrinks(st, q, Keys(es[..n]), p);
  }

  /** One tick's transaction: `failed` first, then `succeeded`; any failure fails it all. */
  function CleanTick(st: Node, idTime: IdTime, cutoff: int): (r: Result<(Node, Counters), CleanError>)
    requires WF(st)
    ensures r.Ok? ==> WF(r.value.0)
    ensures r.Ok? ==> IsMapAt(st, Failed) && IsMapAt(st, Succeeded)
  {
    DisjointSameLength(Failed, Succeeded);
    var failed :- CleanQueue(st, Failed, idTime, cutoff);
    CleanQueueFrame(st, Failed, idTime, cutoff);
    var succeeded :- CleanQueue(failed.0, Succeeded, idTime, cutoff);
    Ok((succeeded.0, Counters(succeeded.1, failed.1)))
  }

  /** A tick succeeds exactly when both history queues are maps whose scans end without an
      id lacking a time; so a store without a `failed` queue is never cleaned. */
  lemma CleanTickOk(st: Node, idTime: IdTime, cutoff: int)
    requires WF(st)
    ensures CleanTick(st, idTime, cutoff).Ok? <==>
      IsMapAt(st, Failed) && IsMapAt(st, Succeeded)
      && ExpiredPrefix(Keys(Lookup(st, Failed).value.entries), idTime, cutoff).Ok?
      && ExpiredPrefix(Keys(Lookup(st, Succeeded).value.entries), idTime, cutoff).Ok?
  {
    DisjointSameLength(Failed, Succeeded);
    if CleanQueue(st, Failed, idTime, cutoff).Ok? {
      var st1 := CleanQueue(st, Failed, idTime, cutoff).value.0;
      CleanQueueFrame(st, Failed, idTime, cutoff);
      assert Lookup(st1, Succeeded) == Lookup(st, Succeeded);
    }
  }

  /** The two steps of a successful tick, named. */
  lemma CleanTickSteps(st: Node, idTime: IdTime, cutoff: int)
    requires WF(st) && CleanTick(st, idTime, cutoff).Ok?
    ensures CleanQueue(st, Failed, idTime, cutoff).Ok?
    ensures var st1 := CleanQueue(st, Failed, idTime, cutoff).value.0;
      CleanQueue(st1, Succeeded, idTime, cutoff).Ok?
      && CleanTick(st, idTime, cutoff).value.0 == CleanQueue(st1, Succeeded, idTime, cutoff).value.0
      && CleanTick(st, idTime, cutoff).value.1 ==
           Counters(CleanQueue(st1, Succeeded, idTime, cutoff).value.1, CleanQueue(st, Failed, idTime, cutoff).value.1)
      && Lookup(st1, Succeeded) == Lookup(st, Succeeded)
  {
    CleanQueueFrame(st, Failed, idTime, cutoff);
    DisjointSameLength(Failed, Succeeded);
  }

  /** A tick reports, per queue, exactly how many records it removed. */
  lemma CleanTickCounts(st: Node, idTime: IdTime, cutoff: int)
    requires WF(st) && CleanTick(st, idTime, cutoff).Ok?
    ensures var r, c := CleanTick(st, idTime, cutoff).value.0, CleanTick(st, idTime, cutoff).value.1;
      IsMapAt(r, Failed) && IsMapAt(r, Succeeded)
      && Size(r, Failed).value + c.failed == Size(st, Failed).value
      && Size(r, Succeeded).value + c.succeeded == Size(st, Succeeded).value
  {
    CleanTickSteps(st, idTime, cutoff);
    var st1 := CleanQueue(st, Failed, idTime, cutoff).value.0;
    CleanQueueEffect(st, Failed, idTime, cutoff);
    CleanQueueEffect(st1, Succeeded, idTime, cutoff);
    CleanQueueFrame(st1, Succeeded, idTime, cutoff);
    DisjointSameLength(Failed, Succeeded);
    var r := CleanTick(st, idTime, cutoff).value.0;
    assert Lookup(r, Failed) == Lookup(st1, Failed);
  }

  /** A tick only deletes. */
  lemma CleanTickShrinks(st: Node, idTime: IdTime, cutoff: int, p: Path)
    requires WF(st) && CleanTick(st, idTime, cutoff).Ok?
    ensures Exists(CleanTick(st, idTime, cutoff).value.0, p) ==> Exists(st, p)
  {
    CleanTickSteps(st, idTime, cutoff);
    var st1 := CleanQueue(st, Failed, idTime, cutoff).value.0;
    CleanQueueShrinks(st, Failed, idTime, cutoff, p);
    CleanQueueShrinks(st1, Succeeded, idTime, cutoff, p);
  }

  /** Since a tick only deletes, it keeps every job in at most one state. */
  lemma CleanTickKeepsOneState(st: Node, idTime: IdTime, cutoff: int, id: string)
    requires WF(st) && CleanTick(st, idTime, cutoff).Ok? && OneState(st, id)
    ensures OneState(CleanTick(st, idTime, cutoff).value.0, id)
  {
    CleanTickShrinks(st, idTime, cutoff, Scheduled + [id]);
    CleanTickShrinks(st, idTime, cutoff, Running + [id]);
    CleanTickShrinks(st, idTime, cutoff, Failed + [id]);
    CleanTickShrinks(st, idTime, cutoff, Succeeded + [id]);
  }

  /** The clean-up cutoff: records whose time is after it are kept. */
  function Cutoff(now: int, keep: int): (c: int)
    ensures c + keep == now
  {
    now - keep
  }

  /** One turn of the clean-up loop at time `now`: the committed store, or the old store
      when the transaction failed (the failure is only logged). */
  function CleanRound(st: Node, idTime: IdTime, now: int, keep: int): (r: Node)
    requires WF(st)
    ensures WF(r)
  {
    match CleanTick(st, idTime, Cutoff(now, keep))
    case Ok(done) => done.0
    case Err(_) => st
  }

  /** With time-ordered ids, a tick keeps in `failed` exactly the records that are not
      expired. */
  lemma CleanTickFailed(st: Node, idTime: IdTime, cutoff: int, x: string)
    requires WF(st) && CleanTick(st, idTime, cutoff).Ok?
    requires TimeOrdered(Keys(Lookup(st, Failed).value.entries), idTime)
    ensures InQueue(CleanTick(st, idTime, cutoff).value.0, Failed, x) <==>
      InQueue(st, Failed, x) && !Expired(idTime, cutoff, x)
  {
    CleanTickSteps(st, idTime, cutoff);
    var st1 := CleanQueue(st, Failed, idTime, cutoff).value.0;
    CleanQueueKeepsFresh(st, Failed, idTime, cutoff, x);
    CleanQueueBeside(st1, Succeeded, idTime, cutoff, Failed, x);
  }

  /** With time-ordered ids, a tick keeps in `succeeded` exactly the records that are not
      expired. */
  lemma CleanTickSucceeded(st: Node, idTime: IdTime, cutoff: int, x: string)
    requires WF(st) && CleanTick(st, idTime, cutoff).Ok?
    requires TimeOrdered(Keys(Lookup(st, Succeeded).value.entries), idTime)
    ensures InQueue(CleanTick(st, idTime, cutoff).value.0, Succeeded, x) <==>
      InQueue(st, Succeeded, x) && !Expired(idTime, cutoff, x)
  {
    CleanTickSteps(st, idTime, cutoff);
    var st1 := CleanQueue(st, Failed, idTime, cutoff).value.0;
    assert Lookup(st1, Succeeded).value.entries == Lookup(st, Succeeded).value.entries;
    CleanQueueKeepsFresh(st1, Succeeded, idTime, cutoff, x);
    CleanQueueBeside(st, Failed, idTime, cutoff, Succeeded, x);
  }

  /** A turn with time-ordered ids leaves in each history queue exactly the records whose
      time is after `now - keep`. */
  lemma CleanRoundKeepsFresh(st: Node, idTime: IdTime, now: int, keep: int, x: string)
    requires WF(st) && CleanTick(st, idTime, Cutoff(now, keep)).Ok?
    requires TimeOrdered(Keys(Lookup(st, Failed).value.entries), idTime)
    requires TimeOrdered(Keys(Lookup(st, Succeeded).value.entries), idTime)
    ensures InQueue(CleanRound(st, idTime, now, keep), Failed, x) <==>
      InQueue(st, Failed, x) && !Expired(idTime, Cutoff(now, keep), x)
    ensures InQueue(CleanRound(st, idTime, now, keep), Succeeded, x) <==>
      InQueue(st, Succeeded, x) && !Expired(idTime, Cutoff(now, keep), x)
  {
    assert CleanRound(st, idTime, now, keep) == CleanTick(st, idTime, Cutoff(now, keep)).value.0;
    CleanTickFailed(st, idTime, Cutoff(now, keep), x);
    CleanTickSucceeded(st, idTime, Cutoff(now, keep), x);
  }
}
