/** The cron table of a kartusche (`CreateCron`): each value directly below `cronjobs`
    must be a `.js` script whose first line is a comment giving its schedule. */
module Cron {
  import opened Wrappers
  import opened Store
  import Strs

  const CronRoot: Path := ["cronjobs"]

  /* ---------------------------------------------------------------- the schedule line */

  /** RE2's `\s`: tab, newline, form feed, carriage return and space. */
  predicate IsSpace(c: char) {
    c == ' ' || c == '\t' || c == '\n' || c == '\U{000C}' || c == '\r'
  }

  predicate AllSpace(s: string) {
    forall i :: 0 <= i < |s| ==> IsSpace(s[i])
  }

  /** The length of the leading run of spaces. */
  function SpaceRun(s: string): (n: nat)
    ensures n <= |s| && AllSpace(s[..n])
    ensures n < |s| ==> !IsSpace(s[n])
  {
    if |s| == 0 || !IsSpace(s[0]) then 0
    else
      var n := 1 + SpaceRun(s[1..]);
      assert s[..n] == [s[0]] + s[1..][..n - 1];
      n
  }

  /** One way `^\s*(#|\/\/)\s+(.+)$` can match a line without line breaks: spaces `a`, the
      comment marker `m`, at least one space `b`, and the non-empty capture `g`. */
  predicate Splits(line: string, a: string, m: string, b: string, g: string) {
    line == a + m + b + g && AllSpace(a) && (m == "#" || m == "//") &&
    |b| >= 1 && AllSpace(b) && |g| >= 1
  }

  /** Capture group 2 of the schedule pattern, or `None` when the line does not match. */
  function Schedule(line: string): (r: Option<string>)
    ensures r.Some? ==> |r.value| >= 1 && Strs.HasSuffix(line, r.value)
    ensures r.Some? ==> AfterMarker(line).Some?
  {
    match AfterMarker(line)
    case None => None
    case Some(t) => Capture(t)
  }

  /** What follows the comment marker after the leading spaces, if there is one. */
  function AfterMarker(line: string): (r: Option<string>)
    ensures r.Some? ==> Strs.HasSuffix(line, r.value)
  {
    var t := line[SpaceRun(line)..];
    if Strs.HasPrefix(t, "#") then Some(t[1..])
    else if Strs.HasPrefix(t, "//") then Some(t[2..])
    else None
  }

  /** The capture from what follows the marker: `\s+` is greedy, so it starts after the
      whole run of spaces, keeping one character when only spaces follow. */
  function Capture(r: string): (c: Option<string>)
    ensures c.Some? ==> 1 <= |c.value| <= |r| && c.value == r[|r| - |c.value|..]
  {
    var w := SpaceRun(r);
    if w == 0 then None
    else if w < |r| then Some(r[w..])
    else if w >= 2 then Some(r[w - 1..])
    else None
  }

  /** A line split around the marker: the spaces before it are the whole leading run. */
  lemma SplitsLead(line: string, a: string, m: string, b: string, g: string)
    requires Splits(line, a, m, b, g)
    ensures |a| == SpaceRun(line)
    ensures line[|a|..] == m + b + g
  {
    var n := SpaceRun(line);
    assert line[|a|] == m[0];
    assert forall i :: 0 <= i < |a| ==> line[i] == a[i];
    assert forall i :: 0 <= i < n ==> line[..n][i] == line[i];
    assert line[|a|..] == m + b + g;
  }

  /** What follows the marker, when the line splits. */
  lemma SplitsRest(line: string, a: string, m: string, b: string, g: string)
    requires Splits(line, a, m, b, g)
    ensures AfterMarker(line) == Some(b + g)
  {
    SplitsLead(line, a, m, b, g);
    var t := line[|a|..];
    assert t == m + (b + g);
    if m == "#" {
      assert t[..1] == "#" && t[1..] == b + g;
    } else {
      assert t[0] == '/' && t[..2] == "//" && t[2..] == b + g;
    }
  }

  /** The spaces after the marker run at least through `b`. */
  lemma RunCoversB(b: string, g: string)
    requires AllSpace(b)
    ensures SpaceRun(b + g) >= |b|
  {
    assert forall i :: 0 <= i < |b| ==> (b + g)[i] == b[i];
  }

  /** A line that splits matches. */
  lemma SplitsMatch(line: string, a: string, m: string, b: string, g: string)
    requires Splits(line, a, m, b, g)
    ensures Schedule(line).Some?
  {
    SplitsRest(line, a, m, b, g);
    RunCoversB(b, g);
  }

  lemma MarkerSplit(line: string) returns (m: string)
    requires AfterMarker(line).Some?
    ensures (m == "#" || m == "//") && AllSpace(line[..SpaceRun(line)])
    ensures line == line[..SpaceRun(line)] + m + AfterMarker(line).value
  {
    var n := SpaceRun(line);
    var t := line[n..];
    m := if Strs.HasPrefix(t, "#") then "#" else "//";
    assert t[..|m|] == m;
    assert t == m + t[|m|..];
    assert line == line[..n] + t;
  }

  lemma CaptureSplit(r: string) returns (k: nat)
    requires Capture(r).Some?
    ensures 1 <= k < |r| && AllSpace(r[..k]) && r[k..] == Capture(r).value
  {
    var w := SpaceRun(r);
    k := if w < |r| then w else w - 1;
    assert r[..k] == r[..w][..k];
  }

  /** A match splits the line, with the capture as `g`. */
  lemma MatchSplits(line: string) returns (a: string, m: string, b: string)
    requires Schedule(line).Some?
    ensures Splits(line, a, m, b, Schedule(line).value)
  {
    m := MarkerSplit(line);
    var r := AfterMarker(line).value;
    var k := CaptureSplit(r);
    a := line[..SpaceRun(line)];
    var g;
    b, g := r[..k], r[k..];
    assert g == Schedule(line).value;
    assert r == b + g;
    assert line == a + m + r;
    assert a + m + r == a + m + b + g;
    assert Splits(line, a, m, b, g);
  }

  /** The pattern matches exactly when the line splits as above. */
  lemma ScheduleMatches(line: string)
    ensures Schedule(line).Some? <==> exists a, m, b, g :: Splits(line, a, m, b, g)
  {
    if exists a, m, b, g :: Splits(line, a, m, b, g) {
      var a, m, b, g :| Splits(line, a, m, b, g);
      SplitsMatch(line, a, m, b, g);
    }
    if Schedule(line).Some? {
      var a, m, b := MatchSplits(line);
      assert Splits(line, a, m, b, Schedule(line).value);
    }
  }

  /** The capture is the shortest `g` of any split. */
  lemma ScheduleShortest(line: string, a: string, m: string, b: string, g: string)
    requires Splits(line, a, m, b, g)
    ensures Schedule(line).Some? && |Schedule(line).value| <= |g|
    ensures Strs.HasSuffix(g, Schedule(line).value)
  {
    SplitsRest(line, a, m, b, g);
    CaptureShortest(b, g);
  }

  /** After the marker, the capture of `b + g` is a suffix of `g`. */
  lemma CaptureShortest(b: string, g: string)
    requires |b| >= 1 && AllSpace(b) && |g| >= 1
    ensures Capture(b + g).Some? && Strs.HasSuffix(g, Capture(b + g).value)
  {
    RunCoversB(b, g);
    var r := b + g;
    var w := SpaceRun(r);
    var s := Capture(r).value;
    var k := if w < |r| then w else w - 1;
    assert s == r[k..];
    assert k >= |b|;
    assert g == r[|b|..];
    assert g[k - |b|..] == s;
  }

  /** A comment marker, a space and a descriptor give the descriptor; a marker
      without a following space does not match. */
  lemma ScheduleExamples()
    ensures Schedule("# @every 1m") == Some("@every 1m")
    ensures Schedule("#@every 1m") == None
  {
    var x := "# @every 1m";
    assert SpaceRun(x) == 0 && x[0..] == x;
    assert x[..1] == "#" && x[1..] == " @every 1m";
    assert SpaceRun(" @every 1m") == 1 by { assert " @every 1m"[1..] == "@every 1m"; }
    assert " @every 1m"[1..] == "@every 1m";
    var y := "#@every 1m";
    assert SpaceRun(y) == 0 && y[0..] == y;
    assert y[..1] == "#" && y[1..] == "@every 1m";
  }

  /* ---------------------------------------------------------------- the table */

  /** A registered job: its key and the schedule handed to the cron parser. */
  datatype CronJob = CronJob(key: string, spec: string)

  datatype CronError =
    | NonJs(key: string)
    | NoSchedule(key: string)
    | CompileFailed(key: string, msg: string)
    | CronStoreFailed(err: StoreError)

  /** The error text; a store error is reported with the engine's text, `storeText`. */
  function Message(e: CronError, storeText: StoreError -> string): string {
    match e
    case NonJs(k) => "non js file found in 'cronjobs': " + k
    case NoSchedule(k) => "could not find schedule for cron " + k
    case CompileFailed(k, msg) => "while compiling cronjob " + k + ": " + msg
    case CronStoreFailed(err) => storeText(err)
  }

  /** The schedule of a script: the capture of its first line (splitting never yields
      fewer than one line). */
  function ScriptSchedule(src: string): Option<string> {
    Schedule(Strs.Split(src, '\n')[0])
  }

  /** A child that passes every check. */
  predicate Valid(e: Entry, compile: (string, string) -> Option<string>) {
    Strs.HasSuffix(e.key, ".js") && e.node.Value? &&
    ScriptSchedule(e.node.data).Some? && compile(e.key, e.node.data).None?
  }

  /** The job a valid child registers, when the parser accepts its schedule. */
  predicate Registers(e: Entry, compile: (string, string) -> Option<string>, parses: string -> bool, j: CronJob) {
    Valid(e, compile) && j == CronJob(e.key, ScriptSchedule(e.node.data).value) && parses(j.spec)
  }

  /** Walk the children in key order; the first failing check ends the build. The
      scheduler's own error for a schedule it cannot parse is dropped, so such a job is
      simply missing. */
  function Jobs(es: seq<Entry>, compile: (string, string) -> Option<string>, parses: string -> bool): (r: Result<seq<CronJob>, CronError>)
    ensures r.Ok? <==> forall i :: 0 <= i < |es| ==> Valid(es[i], compile)
    ensures r.Ok? ==> |r.value| <= |es|
  {
    if |es| == 0 then Ok([])
    else
      var e := es[0];
      if !Strs.HasSuffix(e.key, ".js") then Err(NonJs(e.key))
      else if e.node.Map? then Err(CronStoreFailed(IsAMap(CronRoot + [e.key])))
      else
        var spec := ScriptSchedule(e.node.data);
        if spec.None? then Err(NoSchedule(e.key))
        else if compile(e.key, e.node.data).Some? then Err(CompileFailed(e.key, compile(e.key, e.node.data).value))
        else
          var rest := Jobs(es[1..], compile, parses);
          assert forall i :: 1 <= i < |es| ==> es[i] == es[1..][i - 1];
          if rest.Err? then rest
          else Ok((if parses(spec.value) then [CronJob(e.key, spec.value)] else []) + rest.value)
  }

  /** A successful build registers exactly the jobs of the valid children whose schedule
      the parser accepts. */
  lemma {:induction false} JobsRegister(es: seq<Entry>, compile: (string, string) -> Option<string>, parses: string -> bool)
    requires Jobs(es, compile, parses).Ok?
    ensures forall j :: j in Jobs(es, compile, parses).value <==>
      exists i :: 0 <= i < |es| && Registers(es[i], compile, parses, j)
  {
    if |es| > 0 {
      var e := es[0];
      var tail := es[1..];
      var spec := ScriptSchedule(e.node.data).value;
      var head := if parses(spec) then [CronJob(e.key, spec)] else [];
      assert Jobs(tail, compile, parses).Ok?;
      JobsRegister(tail, compile, parses);
      var rest := Jobs(tail, compile, parses).value;
      var r := Jobs(es, compile, parses).value;
      assert r == head + rest;
      forall j ensures j in r <==> exists i :: 0 <= i < |es| && Registers(es[i], compile, parses, j) {
        if j in rest {
          var i :| 0 <= i < |tail| && Registers(tail[i], compile, parses, j);
          assert es[i + 1] == tail[i];
        } else if j in head {
          assert Registers(es[0], compile, parses, j);
        }
        if exists i :: 0 <= i < |es| && Registers(es[i], compile, parses, j) {
          var i :| 0 <= i < |es| && Registers(es[i], compile, parses, j);
          if i > 0 {
            assert tail[i - 1] == es[i];
          }
        }
      }
    }
  }

  /** `CreateCron`: no `cronjobs` gives an empty table. */
  function CreateCron(st: Node, compile: (string, string) -> Option<string>, parses: string -> bool): (r: Result<seq<CronJob>, CronError>)
    ensures !Exists(st, CronRoot) ==> r == Ok([])
    ensures Exists(st, CronRoot) && r.Ok? ==> IsMapAt(st, CronRoot)
    ensures Exists(st, CronRoot) && r.Ok? ==>
      forall i :: 0 <= i < |Lookup(st, CronRoot).value.entries| ==>
        Valid(Lookup(st, CronRoot).value.entries[i], compile)
  {
    if !Exists(st, CronRoot) then Ok([])
    else
      match Children(st, CronRoot)
      case Err(e) => Err(CronStoreFailed(e))
      case Ok(es) => Jobs(es, compile, parses)
  }

  /** A key without `.js` fails the whole build, whatever else the table holds. */
  lemma NonJsFails(es: seq<Entry>, compile: (string, string) -> Option<string>, parses: string -> bool, i: nat)
    requires i < |es| && !Strs.HasSuffix(es[i].key, ".js")
    ensures Jobs(es, compile, parses).Err?
  {
  }

  /** A valid script whose schedule the parser rejects registers nothing and does not
      fail the build. */
  lemma UnparsableDropped(e: Entry, compile: (string, string) -> Option<string>, parses: string -> bool)
    requires Valid(e, compile) && !parses(ScriptSchedule(e.node.data).value)
    ensures Jobs([e], compile, parses).Ok? && Jobs([e], compile, parses).value == []
  {
    var es := [e];
    assert es[1..] == [];
    var r := Jobs(es, compile, parses);
    assert r.Ok?;
    var rest := Jobs(es[1..], compile, parses);
    assert rest == Ok([]);
    var spec := ScriptSchedule(e.node.data).value;
    assert r.value == (if parses(spec) then [CronJob(e.key, spec)] else []) + rest.value;
  }
}
