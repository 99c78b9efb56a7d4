/** Loading a bundle archive into a store: `InitializeNew`, which fills a fresh database
    from an archive and runs its `init.js`, and the code update of the control plane,
    which clears everything but `data` and then loads an archive the same way. The archive
    reader, the path parser and the script engine are parameters. */
module Loading {
  import opened Wrappers
  import opened Store
  import GoPath
  import Strs
  import Txn
  import HttpError

  /** The type flag of an archive member; every flag other than a directory or a regular
      file is `Other`. */
  datatype Kind = Dir | Reg | Other

  /** One member as the archive reader delivers it: its header name and type and, for a
      regular file, the outcome of reading its whole body. */
  datatype Member = Member(name: string, kind: Kind, body: Result<Bytes, string>)

  /** The members read before the reader stopped, and how it stopped: `None` at the end of
      the archive, `Some(e)` when reading the next header failed. */
  datatype Archive = Archive(members: seq<Member>, stop: Option<string>)

  /** `dbpath.Parse`: a path, or the parser's error text. */
  type Parser = string -> Result<Path, string>

  /** Why loading stopped. */
  datatype LoadError =
    | HeaderFailed(msg: string)
    | ParseFailed(msg: string)
    | ReadFailed(entry: string, msg: string)
    | StoreFailed(err: StoreError)

  /** The cleaned name of a member, the one every later step uses. */
  function CleanName(m: Member): string {
    GoPath.Clean(m.name)
  }

  /** The store path a member addresses, when its cleaned name parses. */
  function Target(m: Member, parse: Parser): Option<Path> {
    match parse(CleanName(m))
    case Ok(p) => Some(p)
    case Err(_) => None
  }

  /** The node a member leaves at its path. */
  function Written(m: Member): Node
    requires m.kind == Dir || m.body.Ok?
  {
    if m.kind == Dir then Map([]) else Value(m.body.value)
  }

  /** A regular member whose cleaned name is `init.js`, read without error. */
  predicate IsInit(m: Member) {
    m.kind == Reg && m.body.Ok? && CleanName(m) == "init.js"
  }

  /** One turn of the loop: parse the cleaned name, then create a map for a directory,
      put the whole body for a regular file, and leave the store alone otherwise. */
  function Step(st: Node, m: Member, parse: Parser): (r: Result<Node, LoadError>)
    requires WF(st)
    ensures r.Ok? ==> WF(r.value) && Target(m, parse).Some?
    ensures Target(m, parse).None? ==> r == Err(ParseFailed(parse(CleanName(m)).error))
    ensures r.Ok? && m.kind == Other ==> r.value == st
    ensures Target(m, parse).Some? && m.kind == Dir ==>
      var p := Target(m, parse).value;
      r.Ok? <==> |p| > 0 && IsMapAt(st, Parent(p)) && !Exists(st, p)
    ensures Target(m, parse).Some? && m.kind == Reg ==>
      var p := Target(m, parse).value;
      r.Ok? <==> m.body.Ok? && |p| > 0 && IsMapAt(st, Parent(p)) && !IsMapAt(st, p)
    ensures Target(m, parse).Some? && m.kind == Reg && m.body.Err? ==>
      r == Err(ReadFailed(CleanName(m), m.body.error))
    ensures r.Ok? && m.kind != Other ==>
      var p := Target(m, parse).value;
      (m.kind == Dir || m.body.Ok?) && |p| > 0 && Replace(st, p, Some(Written(m))) == Some(r.value) &&
      Lookup(r.value, p) == Some(Written(m)) && SameBeside(st, r.value, p)
  {
    match parse(CleanName(m))
    case Err(e) => Err(ParseFailed(e))
    case Ok(p) =>
      match m.kind
      case Other => Ok(st)
      case Dir =>
        (match CreateMap(st, p)
         case Err(e) => Err(StoreFailed(e))
         case Ok(st1) => ReplaceEffect(st, p, Some(Map([]))); Ok(st1))
      case Reg =>
        if m.body.Err? then Err(ReadFailed(CleanName(m), m.body.error))
        else
          match Put(st, p, m.body.value)
          case Err(e) => Err(StoreFailed(e))
          case Ok(st1) => ReplaceEffect(st, p, Some(Value(m.body.value))); Ok(st1)
  }

  /** The loop over the members, carrying the init script seen so far. */
  function Unpack(st: Node, ms: seq<Member>, parse: Parser, script: string): (r: Result<(Node, string), LoadError>)
    requires WF(st)
    ensures r.Ok? ==> WF(r.value.0)
    decreases |ms|
  {
    if |ms| == 0 then Ok((st, script))
    else
      var st1 :- Step(st, ms[0], parse);
      Unpack(st1, ms[1..], parse, if IsInit(ms[0]) then ms[0].body.value else script)
  }

  /** The whole archive: the members, then the header error if the reader stopped on one.
      The result is the loaded store and the init script, `""` when there is none. */
  function Load(st: Node, a: Archive, parse: Parser): (r: Result<(Node, string), LoadError>)
    requires WF(st)
    ensures r.Ok? ==> WF(r.value.0) && a.stop.None?
    ensures a.stop.Some? && Unpack(st, a.members, parse, "").Ok? ==> r == Err(HeaderFailed(a.stop.value))
    ensures a.stop.None? ==> r == Unpack(st, a.members, parse, "")
  {
    var res :- Unpack(st, a.members, parse, "");
    if a.stop.Some? then Err(HeaderFailed(a.stop.value)) else Ok(res)
  }

  /* ---------------------------------------------------------------- the init script */

  /** The body of the last init member, searching from the back; `dflt` when there is none. */
  function LastInit(ms: seq<Member>, dflt: string): string
    decreases |ms|
  {
    if |ms| == 0 then dflt
    else if IsInit(ms[|ms| - 1]) then ms[|ms| - 1].body.value
    else LastInit(ms[..|ms| - 1], dflt)
  }

  /** Looking from the back past the first member is looking at the rest with the first
      member's script as the default. */
  lemma {:induction false} LastInitCons(ms: seq<Member>, dflt: string)
    requires |ms| > 0
    ensures LastInit(ms, dflt) == LastInit(ms[1..], if IsInit(ms[0]) then ms[0].body.value else dflt)
    decreases |ms|
  {
    if |ms| == 1 {
      assert ms[1..] == [];
    } else {
      var last := ms[|ms| - 1];
      assert ms[1..][|ms[1..]| - 1] == last;
      if !IsInit(last) {
        LastInitCons(ms[..|ms| - 1], dflt);
        assert ms[..|ms| - 1][1..] == ms[1..][..|ms[1..]| - 1];
      }
    }
  }

  /** The script a successful load returns is the body of the last member named `init.js`,
      or the starting script when no member is. */
  lemma {:induction false} UnpackScript(st: Node, ms: seq<Member>, parse: Parser, script: string)
    requires WF(st) && Unpack(st, ms, parse, script).Ok?
    ensures Unpack(st, ms, parse, script).value.1 == LastInit(ms, script)
    decreases |ms|
  {
    if |ms| > 0 {
      var st1 := Step(st, ms[0], parse).value;
      var s1 := if IsInit(ms[0]) then ms[0].body.value else script;
      UnpackScript(st1, ms[1..], parse, s1);
      LastInitCons(ms, script);
    }
  }

  /** With no member named `init.js` the script is empty; the last of several wins. */
  lemma InitScriptLast(st: Node, a: Archive, parse: Parser)
    requires WF(st) && Load(st, a, parse).Ok?
    ensures Load(st, a, parse).value.1 == LastInit(a.members, "")
    ensures (forall i :: 0 <= i < |a.members| ==> !IsInit(a.members[i])) ==> Load(st, a, parse).value.1 == ""
  {
    UnpackScript(st, a.members, parse, "");
    if forall i :: 0 <= i < |a.members| ==> !IsInit(a.members[i]) {
      NoInit(a.members, "");
    }
  }

  lemma {:induction false} NoInit(ms: seq<Member>, dflt: string)
    requires forall i :: 0 <= i < |ms| ==> !IsInit(ms[i])
    ensures LastInit(ms, dflt) == dflt
    decreases |ms|
  {
    if |ms| > 0 {
      NoInit(ms[..|ms| - 1], dflt);
    }
  }

  /** A member written `./init.js` is the init script too, because names are cleaned. */
  lemma DotSlashInit(body: Bytes)
    ensures IsInit(Member("./init.js", Reg, Ok(body)))
  {
    CleanDotInit();
  }

  lemma CleanDotInit()
    ensures GoPath.Clean("./init.js") == "init.js"
  {
    var p := "./init.js";
    SplitDotInit();
    CleanSegsDotInit();
    assert p != "" && p[0] == '.';
    assert Strs.Join(["init.js"], "/") == "init.js";
  }

  lemma CleanSegsDotInit()
    ensures GoPath.CleanSegs([".", "init.js"], [], false) == ["init.js"]
  {
    var parts := [".", "init.js"];
    assert parts[1..] == ["init.js"] && parts[1..][1..] == [];
    assert GoPath.CleanSegs(parts[1..][1..], ["init.js"], false) == ["init.js"];
    assert GoPath.CleanSegs(parts[1..], [], false) == ["init.js"];
  }

  lemma SplitDotInit()
    ensures Strs.Split("./init.js", '/') == [".", "init.js"]
  {
    var parts := [".", "init.js"];
    assert !Strs.Contains("init.js", '/') by {
      assert forall i :: 0 <= i < |"init.js"| ==> "init.js"[i] != '/';
    }
    assert !Strs.Contains(".", '/');
    Strs.SplitJoin(parts, '/');
    assert Strs.Join(parts, ['/']) == "./init.js";
  }

  /* ---------------------------------------------------------------- what a load leaves */

  /** An existing node strictly below `p` makes `p` a map. */
  lemma MapAbove(st: Node, p: Path, q: Path)
    ensures IsPrefix(p, q) && |q| > |p| && Exists(st, q) ==> IsMapAt(st, p)
  {
    if IsPrefix(p, q) && |q| > |p| && !IsMapAt(st, p) { BelowLeaf(st, p, q); }
  }

  lemma PrefixExistsIf(st: Node, p: Path, q: Path)
    ensures IsPrefix(p, q) && Exists(st, q) ==> Exists(st, p)
  {
    if IsPrefix(p, q) && Exists(st, q) { PrefixExists(st, p, q); }
  }

  /** A step never removes a node. */
  lemma StepKeepsExists(st: Node, m: Member, parse: Parser, q: Path)
    requires WF(st) && Step(st, m, parse).Ok?
    ensures Exists(st, q) ==> Exists(Step(st, m, parse).value, q)
  {
    if m.kind == Dir {
      CreateMapExists(st, Target(m, parse).value, q);
    } else if m.kind == Reg {
      PutExists(st, Target(m, parse).value, m.body.value, q);
    }
  }

  /** A step that succeeds wrote a path beside `q` or strictly below it, whenever `q` holds
      a map; so the map stays a map. */
  lemma StepKeepsMap(st: Node, m: Member, parse: Parser, q: Path)
    requires WF(st) && Step(st, m, parse).Ok? && IsMapAt(st, q)
    ensures IsMapAt(Step(st, m, parse).value, q)
  {
    if m.kind != Other {
      var p := Target(m, parse).value;
      var r := Step(st, m, parse).value;
      PrefixExistsIf(st, p, q);
      MapAbove(st, p, q);
      assert IsPrefix(p, q) ==> p == q || |q| > |p| by { assert q[..|q|] == q; }
      assert !IsPrefix(p, q);
      if IsPrefix(q, p) {
        AboveWrite(st, p, Some(Written(m)), q);
      } else {
        assert Disjoint(p, q);
      }
    }
  }

  /** A value is left alone by every step except a regular file at the same path. */
  lemma StepKeepsValue(st: Node, m: Member, parse: Parser, q: Path)
    requires WF(st) && Step(st, m, parse).Ok? && IsValueAt(st, q)
    requires m.kind == Reg ==> Target(m, parse) != Some(q)
    ensures Lookup(Step(st, m, parse).value, q) == Lookup(st, q)
  {
    if m.kind != Other {
      var p := Target(m, parse).value;
      PrefixExistsIf(st, p, q);
      MapAbove(st, p, q);
      MapAbove(st, q, Parent(p));
      assert IsPrefix(p, q) ==> p == q || |q| > |p| by { assert q[..|q|] == q; }
      assert p != q;
      assert !IsPrefix(p, q);
      assert !IsPrefix(q, p) by {
        PrefixesNest(q, Parent(p), p);
        assert IsPrefix(Parent(p), p);
      }
      assert Disjoint(p, q);
    }
  }

  /** A load never removes a node. */
  lemma {:induction false} UnpackKeepsExists(st: Node, ms: seq<Member>, parse: Parser, script: string, q: Path)
    requires WF(st) && Unpack(st, ms, parse, script).Ok?
    ensures Exists(st, q) ==> Exists(Unpack(st, ms, parse, script).value.0, q)
    decreases |ms|
  {
    if |ms| > 0 {
      var st1 := Step(st, ms[0], parse).value;
      StepKeepsExists(st, ms[0], parse, q);
      UnpackKeepsExists(st1, ms[1..], parse, if IsInit(ms[0]) then ms[0].body.value else script, q);
    }
  }

  lemma {:induction false} UnpackKeepsMap(st: Node, ms: seq<Member>, parse: Parser, script: string, q: Path)
    requires WF(st) && Unpack(st, ms, parse, script).Ok? && IsMapAt(st, q)
    ensures IsMapAt(Unpack(st, ms, parse, script).value.0, q)
    decreases |ms|
  {
    if |ms| > 0 {
      var st1 := Step(st, ms[0], parse).value;
      StepKeepsMap(st, ms[0], parse, q);
      UnpackKeepsMap(st1, ms[1..], parse, if IsInit(ms[0]) then ms[0].body.value else script, q);
    }
  }

  lemma {:induction false} UnpackKeepsValue(st: Node, ms: seq<Member>, parse: Parser, script: string, q: Path)
    requires WF(st) && Unpack(st, ms, parse, script).Ok? && IsValueAt(st, q)
    requires forall i :: 0 <= i < |ms| && ms[i].kind == Reg ==> Target(ms[i], parse) != Some(q)
    ensures Lookup(Unpack(st, ms, parse, script).value.0, q) == Lookup(st, q)
    decreases |ms|
  {
    if |ms| > 0 {
      var st1 := Step(st, ms[0], parse).value;
      StepKeepsValue(st, ms[0], parse, q);
      UnpackKeepsValue(st1, ms[1..], parse, if IsInit(ms[0]) then ms[0].body.value else script, q);
    }
  }

  /** After a successful load every directory member is a map, and every regular member
      holds its whole body unless a later regular member has the same path. */
  lemma {:induction false} UnpackContents(st: Node, ms: seq<Member>, parse: Parser, script: string, i: nat)
    requires WF(st) && Unpack(st, ms, parse, script).Ok? && i < |ms|
    ensures ms[i].kind != Other ==> Target(ms[i], parse).Some?
    ensures ms[i].kind == Dir ==> IsMapAt(Unpack(st, ms, parse, script).value.0, Target(ms[i], parse).value)
    ensures ms[i].kind == Reg && (forall j :: i < j < |ms| && ms[j].kind == Reg ==> Target(ms[j], parse) != Target(ms[i], parse)) ==>
      ms[i].body.Ok? && Lookup(Unpack(st, ms, parse, script).value.0, Target(ms[i], parse).value) == Some(Value(ms[i].body.value))
    decreases |ms|
  {
    var st1 := Step(st, ms[0], parse).value;
    var s1 := if IsInit(ms[0]) then ms[0].body.value else script;
    if i == 0 {
      if ms[0].kind == Dir {
        UnpackKeepsMap(st1, ms[1..], parse, s1, Target(ms[0], parse).value);
      } else if ms[0].kind == Reg && (forall j :: 0 < j < |ms| && ms[j].kind == Reg ==> Target(ms[j], parse) != Target(ms[0], parse)) {
        var p := Target(ms[0], parse).value;
        forall j | 0 <= j < |ms[1..]| && ms[1..][j].kind == Reg ensures Target(ms[1..][j], parse) != Some(p) {
          assert ms[1..][j] == ms[j + 1];
        }
        UnpackKeepsValue(st1, ms[1..], parse, s1, p);
      }
    } else {
      UnpackContents(st1, ms[1..], parse, s1, i - 1);
      assert ms[1..][i - 1] == ms[i];
      if ms[i].kind == Reg && (forall j :: i < j < |ms| && ms[j].kind == Reg ==> Target(ms[j], parse) != Target(ms[i], parse)) {
        forall j | i - 1 < j < |ms[1..]| && ms[1..][j].kind == Reg ensures Target(ms[1..][j], parse) != Target(ms[i], parse) {
          assert ms[1..][j] == ms[j + 1];
        }
      }
    }
  }

  /** A directory member succeeds only on a path that did not exist when the load began. */
  lemma {:induction false} UnpackDirsFresh(st: Node, ms: seq<Member>, parse: Parser, script: string, i: nat)
    requires WF(st) && Unpack(st, ms, parse, script).Ok? && i < |ms| && ms[i].kind == Dir
    ensures Target(ms[i], parse).Some? && !Exists(st, Target(ms[i], parse).value)
    decreases |ms|
  {
    var st1 := Step(st, ms[0], parse).value;
    if i > 0 {
      UnpackDirsFresh(st1, ms[1..], parse, if IsInit(ms[0]) then ms[0].body.value else script, i - 1);
      assert ms[1..][i - 1] == ms[i];
      StepKeepsExists(st, ms[0], parse, Target(ms[i], parse).value);
    }
  }

  /** A node beside every member's path reads as before the load. */
  lemma {:induction false} UnpackFrame(st: Node, ms: seq<Member>, parse: Parser, script: string, q: Path)
    requires WF(st) && Unpack(st, ms, parse, script).Ok?
    requires forall i :: 0 <= i < |ms| && ms[i].kind != Other && Target(ms[i], parse).Some? ==> Disjoint(Target(ms[i], parse).value, q)
    ensures Lookup(Unpack(st, ms, parse, script).value.0, q) == Lookup(st, q)
    decreases |ms|
  {
    if |ms| > 0 {
      var st1 := Step(st, ms[0], parse).value;
      forall i | 0 <= i < |ms[1..]| && ms[1..][i].kind != Other && Target(ms[1..][i], parse).Some?
        ensures Disjoint(Target(ms[1..][i], parse).value, q)
      {
        assert ms[1..][i] == ms[i + 1];
      }
      UnpackFrame(st1, ms[1..], parse, if IsInit(ms[0]) then ms[0].body.value else script, q);
    }
  }

  /** Every node a load adds lies at or below the path of some member. */
  lemma {:induction false} UnpackCreates(st: Node, ms: seq<Member>, parse: Parser, script: string, q: Path)
    requires WF(st) && Unpack(st, ms, parse, script).Ok?
    ensures Exists(Unpack(st, ms, parse, script).value.0, q) ==>
      Exists(st, q) || exists i :: 0 <= i < |ms| && ms[i].kind != Other && Target(ms[i], parse).Some? && IsPrefix(Target(ms[i], parse).value, q)
    decreases |ms|
  {
    if |ms| > 0 {
      var st1 := Step(st, ms[0], parse).value;
      UnpackCreates(st1, ms[1..], parse, if IsInit(ms[0]) then ms[0].body.value else script, q);
      if exists i :: 0 <= i < |ms[1..]| && ms[1..][i].kind != Other && Target(ms[1..][i], parse).Some? && IsPrefix(Target(ms[1..][i], parse).value, q) {
        var i :| 0 <= i < |ms[1..]| && ms[1..][i].kind != Other && Target(ms[1..][i], parse).Some? && IsPrefix(Target(ms[1..][i], parse).value, q);
        assert ms[1..][i] == ms[i + 1];
      }
      if ms[0].kind != Other {
        var p := Target(ms[0], parse).value;
        if ms[0].kind == Dir { CreateMapExists(st, p, q); } else { PutExists(st, p, ms[0].body.value, q); }
        if q == p { assert IsPrefix(p, q); }
      }
    }
  }

  /* ---------------------------------------------------------------- InitializeNew */

  /** Why `InitializeNew` failed. */
  datatype InitError =
    | OpenFailed(msg: string)
    | BeginFailed(msg: string)
    | LoadFailed(err: LoadError)
    | InitCompileFailed(msg: string)
    | InitRunFailed(msg: string)
    | FinishFailed(msg: string)

  /** The text `InitializeNew` returns; the engine's own texts are parameters. */
  function InitMessage(e: InitError, storeText: StoreError -> string): string {
    match e
    case OpenFailed(m) => "while opening database: " + m
    case BeginFailed(m) => "while starting write transaction: " + m
    case LoadFailed(HeaderFailed(m)) => "while reading header: " + m
    case LoadFailed(ParseFailed(m)) => "while parsing dbpath: " + m
    case LoadFailed(ReadFailed(entry, m)) => "while reading entry " + entry + ": " + m
    case LoadFailed(StoreFailed(se)) => storeText(se)
    case InitCompileFailed(m) => "while parsing init: " + m
    case InitRunFailed(m) => "while running init script: " + m
    case FinishFailed(m) => m
  }

  /** The script engine: `compile` gives the compile error, if any; `run` runs a compiled
      init script against the open transaction and gives its writes or its error. */
  type Compiler = string -> Option<string>
  type Runner = (Node, string) -> Result<Node, string>

  /** The transaction body: load the archive, compile the init script, run it. */
  function InitBody(st: Node, a: Archive, parse: Parser, compile: Compiler, run: Runner): (r: Result<Node, InitError>)
    requires WF(st)
    ensures r.Ok? ==> Load(st, a, parse).Ok? && compile(Load(st, a, parse).value.1).None?
    ensures r.Ok? ==> Ok(r.value) == run(Load(st, a, parse).value.0, LastInit(a.members, ""))
    ensures Load(st, a, parse).Err? ==> r == Err(LoadFailed(Load(st, a, parse).error))
  {
    match Load(st, a, parse)
    case Err(e) => Err(LoadFailed(e))
    case Ok((st1, script)) =>
      InitScriptLast(st, a, parse);
      if compile(script).Some? then Err(InitCompileFailed(compile(script).value))
      else
        match run(st1, script)
        case Err(e) => Err(InitRunFailed(e))
        case Ok(st2) => Ok(st2)
  }

  /** What `InitializeNew` returned, the calls it made on the transaction after the body,
      and the store the database holds afterwards. */
  datatype InitRun = InitRun(err: Option<InitError>, events: seq<Txn.Event>, store: Node)

  /** `InitializeNew` on a database holding `st`: the deferred closure rolls back when the
      function is returning an error and otherwise sets the result to `Finish`'s. The
      rollback's own error is dropped. */
  function InitializeNew(st: Node, openErr: Option<string>, eng: Txn.Engine, a: Archive, parse: Parser,
                         compile: Compiler, run: Runner): (r: InitRun)
    requires WF(st)
    ensures openErr.Some? ==> r == InitRun(Some(OpenFailed(openErr.value)), [], st)
    ensures openErr.None? && eng.begin.Some? ==> r == InitRun(Some(BeginFailed(eng.begin.value)), [], st)
    ensures openErr.None? && eng.begin.None? ==>
      (r.events == [Txn.Rollback] <==> InitBody(st, a, parse, compile, run).Err?) &&
      (r.events == [Txn.Finish] <==> InitBody(st, a, parse, compile, run).Ok?)
    ensures r.err.None? <==> openErr.None? && eng.begin.None? && InitBody(st, a, parse, compile, run).Ok? && eng.finish.None?
    ensures r.err.None? ==> r.store == InitBody(st, a, parse, compile, run).value
    ensures r.err.Some? ==> r.store == st
  {
    if openErr.Some? then InitRun(Some(OpenFailed(openErr.value)), [], st)
    else if eng.begin.Some? then InitRun(Some(BeginFailed(eng.begin.value)), [], st)
    else
      match InitBody(st, a, parse, compile, run)
      case Err(e) => InitRun(Some(e), [Txn.Rollback], st)
      case Ok(st2) =>
        if eng.finish.Some? then InitRun(Some(FinishFailed(eng.finish.value)), [Txn.Finish], st)
        else InitRun(None, [Txn.Finish], st2)
  }

  /** Unlike the script write wrapper, a failing rollback does not change what
      `InitializeNew` returns. */
  lemma InitIgnoresRollbackError(st: Node, openErr: Option<string>, eng: Txn.Engine, a: Archive, parse: Parser,
                                 compile: Compiler, run: Runner, rb: Option<string>)
    requires WF(st)
    ensures InitializeNew(st, openErr, eng.(rollback := rb), a, parse, compile, run) ==
            InitializeNew(st, openErr, eng, a, parse, compile, run)
  {
  }

  /** A header error after the last member rolls back every member already loaded. */
  lemma HeaderErrorRollsBack(st: Node, eng: Txn.Engine, ms: seq<Member>, e: string, parse: Parser,
                             compile: Compiler, run: Runner)
    requires WF(st) && eng.begin.None? && Unpack(st, ms, parse, "").Ok?
    ensures InitializeNew(st, None, eng, Archive(ms, Some(e)), parse, compile, run) ==
      InitRun(Some(LoadFailed(HeaderFailed(e))), [Txn.Rollback], st)
  {
  }

  /* ---------------------------------------------------------------- updating the code */

  /** Delete, one after another, every root key of `ks` other than `data`. */
  function ClearKeys(st: Node, ks: seq<string>): (r: Result<Node, StoreError>)
    requires WF(st)
    ensures r.Ok? ==> WF(r.value)
    ensures r.Err? ==> r.error.NotFound? && exists i :: 0 <= i < |ks| && ks[i] != "data" && r.error == NotFound([ks[i]])
    decreases |ks|
  {
    if |ks| == 0 then Ok(st)
    else if ks[0] == "data" then ClearKeys(st, ks[1..])
    else
      var st1 :- Delete(st, [ks[0]]);
      ClearKeys(st1, ks[1..])
  }

  /** Step one of the update: iterate over the root's keys, deleting each one but `data`. */
  function ClearCode(st: Node): (r: Result<Node, StoreError>)
    requires WF(st)
    ensures r.Ok? ==> WF(r.value)
  {
    var es :- Children(st, []);
    ClearKeys(st, Keys(es))
  }

  /** Deleting distinct existing root keys removes exactly their subtrees. */
  lemma {:induction false} ClearKeysEffect(st: Node, ks: seq<string>, q: Path)
    requires WF(st) && IsMapAt(st, [])
    requires forall i, j :: 0 <= i < j < |ks| ==> ks[i] != ks[j]
    requires forall i :: 0 <= i < |ks| && ks[i] != "data" ==> Exists(st, [ks[i]])
    ensures ClearKeys(st, ks).Ok? && IsMapAt(ClearKeys(st, ks).value, [])
    ensures |q| > 0 ==> Lookup(ClearKeys(st, ks).value, q) == if q[0] in ks && q[0] != "data" then None else Lookup(st, q)
    decreases |ks|
  {
    if |ks| > 0 {
      var k := ks[0];
      var st1 := st;
      if k != "data" {
        st1 := Delete(st, [k]).value;
        AboveWrite(st, [k], None, []);
        forall i | 0 <= i < |ks| && ks[i] != "data" && i > 0 ensures Exists(st1, [ks[i]]) {
          DeleteExists(st, [k], [ks[i]]);
        }
        if |q| > 0 {
          if q[0] == k {
            ReplaceBelow(st, [k], None, q);
          } else {
            WriteFrame(st, [k], None, q);
          }
        }
      }
      forall i, j | 0 <= i < j < |ks[1..]| ensures ks[1..][i] != ks[1..][j] {
        assert ks[1..][i] == ks[i + 1] && ks[1..][j] == ks[j + 1];
      }
      forall i | 0 <= i < |ks[1..]| && ks[1..][i] != "data" ensures Exists(st1, [ks[1..][i]]) {
        assert ks[1..][i] == ks[i + 1];
      }
      ClearKeysEffect(st1, ks[1..], q);
      assert ks == [k] + ks[1..];
    }
  }

  /** Step one deletes every top-level node except `data` and leaves `data`, and
      everything below it, as it was. */
  lemma ClearCodeEffect(st: Node, q: Path)
    requires WF(st) && IsMapAt(st, [])
    ensures ClearCode(st).Ok? && IsMapAt(ClearCode(st).value, [])
    ensures |q| > 0 ==> Lookup(ClearCode(st).value, q) == if q[0] == "data" then Lookup(st, q) else None
  {
    var es := Children(st, []).value;
    var ks := Keys(es);
    assert st == Map(es);
    RootKeys(st, es, ks);
    ClearKeysEffect(st, ks, q);
    assert ClearCode(st) == ClearKeys(st, ks);
    if |q| > 0 && q[0] !in ks {
      NotARootKey(st, es, q);
    }
  }

  /** The root's keys are distinct and each names a node. */
  lemma RootKeys(st: Node, es: seq<Entry>, ks: seq<string>)
    requires WF(st) && st == Map(es) && ks == Keys(es)
    ensures forall i, j :: 0 <= i < j < |ks| ==> ks[i] != ks[j]
    ensures forall i :: 0 <= i < |ks| && ks[i] != "data" ==> Exists(st, [ks[i]])
  {
    forall i, j | 0 <= i < j < |ks| ensures ks[i] != ks[j] {
      Strs.LessIrreflexive(es[i].key);
    }
    forall i | 0 <= i < |ks| && ks[i] != "data" ensures Exists(st, [ks[i]]) {
      FindSorted(es, i);
    }
  }

  /** Nothing is found under a first segment that is not one of the root's keys. */
  lemma NotARootKey(st: Node, es: seq<Entry>, q: Path)
    requires st == Map(es) && |q| > 0 && q[0] !in Keys(es)
    ensures Lookup(st, q) == None
  {
    assert Find(es, q[0]).None?;
  }

  /** How the update transaction failed. */
  datatype UpdateError = ClearFailed(storeErr: StoreError) | UnpackFailed(loadErr: LoadError)

  /** The body handed to `Update`: step one, then the archive loaded on what is left. */
  function UpdateBody(st: Node, a: Archive, parse: Parser): (r: Result<Node, UpdateError>)
    requires WF(st)
    ensures r.Ok? ==> WF(r.value)
    ensures ClearCode(st).Ok? ==> (r.Ok? <==> Load(ClearCode(st).value, a, parse).Ok?)
    ensures r.Ok? ==> ClearCode(st).Ok? && r.value == Load(ClearCode(st).value, a, parse).value.0
  {
    match ClearCode(st)
    case Err(e) => Err(ClearFailed(e))
    case Ok(cleared) =>
      match Load(cleared, a, parse)
      case Err(e) => Err(UnpackFailed(e))
      case Ok((st1, _)) => Ok(st1)
  }

  /** The error the handler passes on. A failing store call inside the update panics and
      `Update` turns the panic into an error whose text, `storeText`, is the engine's. */
  function UpdateHttpError(e: UpdateError, storeText: StoreError -> string): (r: HttpError.Error)
    ensures HttpError.FindCoded(r).None?
  {
    match e
    case ClearFailed(se) => HttpError.Plain(storeText(se))
    case UnpackFailed(HeaderFailed(m)) => HttpError.Wrapped("while reading code tar: ", HttpError.Plain(m))
    case UnpackFailed(ParseFailed(m)) => HttpError.Wrapped("while parsing dbpath: ", HttpError.Plain(m))
    case UnpackFailed(ReadFailed(entry, m)) => HttpError.Wrapped("while reading entry " + entry + ": ", HttpError.Plain(m))
    case UnpackFailed(StoreFailed(se)) => HttpError.Plain(storeText(se))
  }

  /** The response and, when the update committed, the new store of the kartusche. */
  datatype UpdateReply = UpdateReply(response: HttpError.Response, after: Option<Node>)

  const NoContent := HttpError.Respond(false, 204, "")

  /** `updateCode`. `running` maps every known kartusche name to its store when it has a
      runtime and to `None` when it has none. */
  function UpdateCode(name: string, running: map<string, Option<Node>>, a: Archive, parse: Parser,
                      storeText: StoreError -> string): (r: UpdateReply)
    requires forall n :: n in running && running[n].Some? ==> WF(running[n].value)
    ensures name == "" ==> r == UpdateReply(HttpError.Refused(400, "name not provided"), None)
    ensures name != "" && name !in running ==> r == UpdateReply(HttpError.Refused(404, "not found"), None)
    ensures name != "" && name in running && running[name].None? ==>
      r == UpdateReply(HttpError.Refused(409, "kartusche is not running"), None)
    ensures r.after.Some? <==> r.response == NoContent
    ensures r.after.Some? <==>
      name != "" && name in running && running[name].Some? && UpdateBody(running[name].value, a, parse).Ok?
    ensures r.after.Some? ==> r.after.value == UpdateBody(running[name].value, a, parse).value
    ensures r.response.Respond? && r.response.status == 500 <==>
      name != "" && name in running && running[name].Some? && UpdateBody(running[name].value, a, parse).Err?
  {
    if name == "" then UpdateReply(HttpError.Refused(400, "name not provided"), None)
    else if name !in running then UpdateReply(HttpError.Refused(404, "not found"), None)
    else if running[name].None? then UpdateReply(HttpError.Refused(409, "kartusche is not running"), None)
    else
      match UpdateBody(running[name].value, a, parse)
      case Err(e) => UpdateReply(HttpError.HandleHttpError(Some(UpdateHttpError(e, storeText))), None)
      case Ok(st) => UpdateReply(NoContent, Some(st))
  }

  lemma NoNameText()
    ensures HttpError.Refused(400, "name not provided") == HttpError.Respond(true, 400, "code 400: name not provided\n")
  {
    Digits400();
    assert "code " + "400" + ": " + "name not provided" + "\n" == "code 400: name not provided\n";
    HttpError.RefusalText(400, "400", "name not provided", "code 400: name not provided\n");
  }

  lemma Digits400()
    ensures Strs.NatToString(400) == "400"
  {
    HttpError.Digits40();
    assert Strs.NatToString(40) + [Strs.Digit(0)] == "400";
  }

  lemma NotFoundText()
    ensures HttpError.Refused(404, "not found") == HttpError.Respond(true, 404, "code 404: not found\n")
  {
    Digits404();
    assert "code " + "404" + ": " + "not found" + "\n" == "code 404: not found\n";
    HttpError.RefusalText(404, "404", "not found", "code 404: not found\n");
  }

  lemma Digits404()
    ensures Strs.NatToString(404) == "404"
  {
    HttpError.Digits40();
    assert Strs.NatToString(40) + [Strs.Digit(4)] == "404";
  }

  /** After a committed update the old code is gone: `data` keeps every node the archive
      does not address, and each other top-level node comes from the archive. */
  lemma UpdateReplacesCode(st: Node, a: Archive, parse: Parser, q: Path)
    requires WF(st) && IsMapAt(st, []) && UpdateBody(st, a, parse).Ok?
    requires forall i :: 0 <= i < |a.members| && a.members[i].kind != Other && Target(a.members[i], parse).Some? ==>
      Disjoint(Target(a.members[i], parse).value, ["data"] + q)
    ensures Lookup(UpdateBody(st, a, parse).value, ["data"] + q) == Lookup(st, ["data"] + q)
    ensures |q| > 0 && q[0] != "data" && Exists(UpdateBody(st, a, parse).value, q) ==>
      exists i :: 0 <= i < |a.members| && a.members[i].kind != Other && Target(a.members[i], parse).Some? &&
        IsPrefix(Target(a.members[i], parse).value, q)
  {
    ClearCodeEffect(st, ["data"] + q);
    ClearCodeEffect(st, q);
    var cleared := ClearCode(st).value;
    UnpackFrame(cleared, a.members, parse, "", ["data"] + q);
    UnpackCreates(cleared, a.members, parse, "", q);
  }

  /** While `data` exists, an archive with a directory member for `data` itself fails the
      update: step one keeps `data`, so creating it again fails. */
  lemma UpdateRejectsDataDir(st: Node, a: Archive, parse: Parser, i: nat)
    requires WF(st) && IsMapAt(st, []) && Exists(st, ["data"])
    requires i < |a.members| && a.members[i].kind == Dir && Target(a.members[i], parse) == Some(["data"])
    ensures UpdateBody(st, a, parse).Err?
  {
    ClearCodeEffect(st, ["data"]);
    var cleared := ClearCode(st).value;
    if Unpack(cleared, a.members, parse, "").Ok? {
      UnpackDirsFresh(cleared, a.members, parse, "", i);
    }
  }
}
