/** The transaction wrappers scripts run in: `DB.Write` and `DB.Read` of the script store
    wrapper, and the older `writer`/`reader` pair of the runtime package. Each is modelled
    by replaying Go's deferred calls, last registered first, over the wrapper's named
    results; the decision tables they implement are stated as contracts. The store
    engine's answers (begin, finish, rollback) are parameters. */
module Txn {
  import opened Wrappers

  /** Calls the wrapper makes, in the order it makes them. */
  datatype Event = SetScheduleJob | RunBody | Finish | Rollback | DeleteScheduleJob

  /** How the callback ended. */
  datatype Outcome = Returned(err: Option<string>) | Panicked

  /** How the wrapper ended: a return with its error, or a panic propagating. */
  datatype Exit = Return(err: Option<string>) | Repanic

  /** The engine's answer to each call; `None` is success. */
  datatype Engine = Engine(begin: Option<string>, finish: Option<string>, rollback: Option<string>)

  /** The named results and what has happened so far, while the deferred calls run. */
  datatype Frame = Frame(err: Option<string>, panicking: bool, events: seq<Event>, committed: bool)

  /** The deferred closures of a write wrapper.
      `Commit` finishes the transaction unless `err` is set (and, when `skipOnPanic`,
      unless a panic is propagating); `Recover` removes the `scheduleJob` global when
      `global`, then rolls back on a panic or an error. */
  datatype Defer = Commit(skipOnPanic: bool) | Recover(global: bool)

  datatype Run<S> = Run(events: seq<Event>, exit: Exit, store: S)

  const BeginWriteFailed := "while beginning write tx: "
  const BeginReadFailed := "while beginning read tx: "

  function Step(d: Defer, f: Frame, eng: Engine): Frame {
    match d
    case Commit(skipOnPanic) =>
      if f.err.Some? || (skipOnPanic && f.panicking) then f
      else f.(events := f.events + [Finish], err := eng.finish, committed := eng.finish.None?)
    case Recover(global) =>
      var f := if global then f.(events := f.events + [DeleteScheduleJob]) else f;
      if f.panicking then
        // `err = tx.Rollback()`: a failing rollback returns its error and ends the panic
        f.(events := f.events + [Rollback], err := eng.rollback, panicking := eng.rollback.None?)
      else if f.err.Some? then
        f.(events := f.events + [Rollback], err := if eng.rollback.Some? then eng.rollback else f.err)
      else f
  }

  /** A write wrapper with the given `Commit` guard and `scheduleJob` handling: begin, set
      the global, register the recover closure and then the commit closure, run the body.
      The store is the body's when the transaction committed, the old one otherwise. */
  function WriteWith<S>(skipOnPanic: bool, global: bool, eng: Engine, body: Outcome, before: S, after: S): (r: Run<S>)
    ensures eng.begin.Some? ==> r.events == [] && r.store == before
    ensures eng.begin.None? && body == Returned(None) && eng.finish.None? ==>
      r.store == after && r.exit == Return(None)
    ensures body.Returned? && body.err.Some? ==> r.store == before && r.exit.Return? && r.exit.err.Some?
  {
    if eng.begin.Some? then Run([], Return(Some(BeginWriteFailed + eng.begin.value)), before)
    else
      var f0 := Frame(if body.Returned? then body.err else None, body.Panicked?,
                      (if global then [SetScheduleJob] else []) + [RunBody], false);
      // the commit closure, registered last, runs first
      var f := Step(Recover(global), Step(Commit(skipOnPanic), f0, eng), eng);
      Run(f.events, if f.panicking then Repanic else Return(f.err), if f.committed then after else before)
  }

  /** `DB.Write` as written: the commit closure only looks at `err`, which a panic leaves nil. */
  function WriteAsWritten<S>(eng: Engine, body: Outcome, before: S, after: S): (r: Run<S>)
    ensures eng.begin.None? && body.Panicked? && eng.finish.None? ==>
      r.store == after && |r.events| >= 3 && r.events[..3] == [SetScheduleJob, RunBody, Finish]
  {
    WriteWith(false, true, eng, body, before, after)
  }

  /** `DB.Write` with the commit closure skipped while a panic propagates.
      Commits exactly when begin, body and finish all succeed; a body error or a panic
      rolls back and reports the rollback's error if it has one. */
  function Write<S>(eng: Engine, body: Outcome, before: S, after: S): (r: Run<S>)
    ensures eng.begin.Some? ==> r == Run([], Return(Some(BeginWriteFailed + eng.begin.value)), before)
    ensures eng.begin.None? && body == Returned(None) ==>
      if eng.finish.None? then r == Run([SetScheduleJob, RunBody, Finish, DeleteScheduleJob], Return(None), after)
      else r.store == before && r.exit == Return(Some(eng.rollback.GetOr(eng.finish.value)))
    ensures eng.begin.None? && body.Returned? && body.err.Some? ==>
      r == Run([SetScheduleJob, RunBody, DeleteScheduleJob, Rollback],
               Return(Some(eng.rollback.GetOr(body.err.value))), before)
    ensures eng.begin.None? && body.Panicked? ==>
      r == Run([SetScheduleJob, RunBody, DeleteScheduleJob, Rollback],
               if eng.rollback.None? then Repanic else Return(eng.rollback), before)
  {
    WriteWith(true, true, eng, body, before, after)
  }

  /** `writer` of the runtime package: the same closures without the global. */
  function Writer<S>(eng: Engine, body: Outcome, before: S, after: S): (r: Run<S>)
    ensures eng.begin.None? ==> |r.events| > 0 && r.events[0] == RunBody
    ensures r.exit == WriteAsWritten(eng, body, before, after).exit
    ensures r.store == WriteAsWritten(eng, body, before, after).store
  {
    WriteWith(false, false, eng, body, before, after)
  }

  /** The body's writes persist exactly when the wrapper returns without an error, and
      then the commit is the only engine call. */
  lemma WriteCommitsIffClean<S>(eng: Engine, body: Outcome, before: S, after: S)
    requires before != after
    ensures Write(eng, body, before, after).store == after <==>
      eng.begin.None? && body == Returned(None) && eng.finish.None?
    ensures Write(eng, body, before, after).exit == Return(None) <==>
      eng.begin.None? && body == Returned(None) && eng.finish.None?
  {
  }

  /** `scheduleJob` is set before the body runs and removed once afterwards, on every
      path that began a transaction. */
  lemma {:induction false} WriteScopesGlobal<S>(eng: Engine, body: Outcome, before: S, after: S)
    requires eng.begin.None?
    ensures var ev := WriteAsWritten(eng, body, before, after).events;
      |ev| >= 3 && ev[0] == SetScheduleJob && ev[1] == RunBody &&
      (forall i :: 0 < i < |ev| ==> ev[i] != SetScheduleJob) &&
      (exists i :: 2 <= i < |ev| && ev[i] == DeleteScheduleJob && forall j :: 0 <= j < |ev| && j != i ==> ev[j] != DeleteScheduleJob)
  {
    var ev := WriteAsWritten(eng, body, before, after).events;
    var f0 := Frame(if body.Returned? then body.err else None, body.Panicked?, [SetScheduleJob, RunBody], false);
    var f1 := Step(Commit(false), f0, eng);
    assert f1.events == [SetScheduleJob, RunBody] || f1.events == [SetScheduleJob, RunBody, Finish];
    var f2 := Step(Recover(true), f1, eng);
    var tail := f2.events[|f1.events|..];
    assert tail == [DeleteScheduleJob] || tail == [DeleteScheduleJob, Rollback];
    assert ev == f1.events + tail;
    GlobalScoped(f1.events, tail);
  }

  /** The event sequences of a write that began: the global is set first and removed
      exactly once, right after the commit closure. */
  lemma GlobalScoped(pre: seq<Event>, post: seq<Event>)
    requires pre == [SetScheduleJob, RunBody] || pre == [SetScheduleJob, RunBody, Finish]
    requires post == [DeleteScheduleJob] || post == [DeleteScheduleJob, Rollback]
    ensures var ev := pre + post;
      |ev| >= 3 && ev[0] == SetScheduleJob && ev[1] == RunBody &&
      (forall i :: 0 < i < |ev| ==> ev[i] != SetScheduleJob) &&
      (exists i :: 2 <= i < |ev| && ev[i] == DeleteScheduleJob && forall j :: 0 <= j < |ev| && j != i ==> ev[j] != DeleteScheduleJob)
  {
    var ev := pre + post;
    assert ev[|pre|] == DeleteScheduleJob;
  }

  /** The corrected and the as-written wrapper agree unless the body panics. */
  lemma WriteAgreesUnlessPanic<S>(eng: Engine, body: Outcome, before: S, after: S)
    requires body.Returned?
    ensures WriteAsWritten(eng, body, before, after) == Write(eng, body, before, after)
  {
  }

  /** As written, a panicking body whose transaction finishes cleanly is committed: its
      partial writes persist although the panic is re-raised or replaced by the error of
      the rollback that follows the commit. */
  lemma PanicCommitsAsWritten<S>(before: S, after: S)
    requires before != after
    ensures var eng := Engine(None, None, None);
      WriteAsWritten(eng, Panicked, before, after) == Run([SetScheduleJob, RunBody, Finish, DeleteScheduleJob, Rollback], Repanic, after) &&
      Write(eng, Panicked, before, after).store == before
  {
  }

  /* ---------------------------------------------------------------- reads */

  /** What a read wrapper did: its calls, whether a panic propagates, and the errors
      it returns (`[]` is nil; `multierr.Append` concatenates). */
  datatype ReadRun = ReadRun(events: seq<Event>, repanic: bool, errors: seq<string>)

  function Errs(e: Option<string>): seq<string> {
    if e.Some? then [e.value] else []
  }

  /** `DB.Read`: the deferred `multierr.Append(err, tx.Finish())` adds the finish error to
      the callback's. */
  function Read(eng: Engine, body: Outcome): (r: ReadRun)
    ensures eng.begin.Some? ==> r == ReadRun([], false, [BeginReadFailed + eng.begin.value])
    ensures eng.begin.None? ==> r.events == [RunBody, Finish] && (r.repanic <==> body.Panicked?)
    ensures eng.begin.None? && body.Returned? ==>
      (forall e :: e in r.errors <==> Some(e) == body.err || Some(e) == eng.finish) &&
      (r.errors == [] <==> body.err.None? && eng.finish.None?)
  {
    if eng.begin.Some? then ReadRun([], false, [BeginReadFailed + eng.begin.value])
    else if body.Panicked? then ReadRun([RunBody, Finish], true, [])
    else ReadRun([RunBody, Finish], false, Errs(body.err) + Errs(eng.finish))
  }

  /** `reader` of the runtime package as written: the deferred closure assigns the finish
      error to the local `err`, not to the unnamed result, so only the callback's error
      comes back. */
  function ReaderAsWritten(eng: Engine, body: Outcome): (r: ReadRun)
    ensures eng.begin.None? ==> r.events == [RunBody, Finish] && (r.repanic <==> body.Panicked?)
    ensures eng.begin.None? && body.Returned? ==> (r.errors == [] <==> body.err.None?)
  {
    if eng.begin.Some? then ReadRun([], false, [BeginReadFailed + eng.begin.value])
    else if body.Panicked? then ReadRun([RunBody, Finish], true, [])
    else ReadRun([RunBody, Finish], false, Errs(body.err))
  }

  /** A finish failure after a clean callback is reported by `DB.Read` and lost by `reader`. */
  lemma ReaderLosesFinishError(e: string)
    ensures ReaderAsWritten(Engine(None, Some(e), None), Returned(None)).errors == []
    ensures Read(Engine(None, Some(e), None), Returned(None)).errors == [e]
  {
  }
}
