/** The script library registry: every value below `lib` is compiled as a CommonJS-style
    module under its slash-joined path, and `require` runs a module once and caches what it
    exports. */
module Jslib {
  import opened Wrappers
  import opened Store
  import opened Walk
  import opened Bundle
  import Strs
  import GoPath

  const LibRoot: Path := ["lib"]

  /** A registered module: its wrapped source and, once run, its exports. */
  datatype Lib = Lib(src: string, val: Option<string>)

  type Registry = map<string, Lib>

  datatype LoadError = LoadStoreFailed(err: StoreError) | LoadCompileFailed(file: Path, msg: string)

  /** The module wrapper: `module.exports` is what the program evaluates to. */
  function Wrap(src: string): string {
    "(() => { var exports = {}; var module = { exports: exports}; " + src + "; return module.exports})()"
  }

  /** The registry name of a library: its full path, `lib` included, joined by `/`. */
  function LibName(q: Path): string {
    GoPath.Join(q)
  }

  /** Some leaf registers under the name `n`. */
  predicate Named(leaves: seq<Item>, n: string) {
    exists i :: 0 <= i < |leaves| && LibName(leaves[i].path) == n
  }

  /** A name is the first leaf's or one of the rest's. */
  lemma NamedCons(leaves: seq<Item>)
    requires |leaves| > 0
    ensures forall n :: Named(leaves, n) <==> LibName(leaves[0].path) == n || Named(leaves[1..], n)
  {
    forall n ensures Named(leaves, n) <==> LibName(leaves[0].path) == n || Named(leaves[1..], n) {
      if Named(leaves[1..], n) {
        var j :| 0 <= j < |leaves| - 1 && LibName(leaves[1..][j].path) == n;
        assert leaves[j + 1] == leaves[1..][j];
      }
      if Named(leaves, n) && LibName(leaves[0].path) != n {
        var i :| 0 <= i < |leaves| && LibName(leaves[i].path) == n;
        assert leaves[1..][i - 1] == leaves[i];
      }
    }
  }

  /** Compile and register the leaves in order onto `acc`; a later leaf with the same name
      replaces an earlier one. */
  function Register(leaves: seq<Item>, compile: (Path, string) -> Option<string>, acc: Registry): (r: Result<Registry, LoadError>)
    requires forall i :: 0 <= i < |leaves| ==> leaves[i].node.Value?
    ensures r.Ok? <==> forall i :: 0 <= i < |leaves| ==> compile(leaves[i].path, Wrap(leaves[i].node.data)).None?
    ensures r.Ok? ==> forall n :: n in r.value <==> n in acc || Named(leaves, n)
    ensures r.Err? ==> r.error.LoadCompileFailed?
  {
    if |leaves| == 0 then Ok(acc)
    else
      var it := leaves[0];
      var src := Wrap(it.node.data);
      match compile(it.path, src)
      case Some(msg) => Err(LoadCompileFailed(it.path, msg))
      case None =>
        var rest := leaves[1..];
        assert forall i :: 1 <= i < |leaves| ==> leaves[i] == rest[i - 1];
        NamedCons(leaves);
        var acc' := acc[LibName(it.path) := Lib(src, None)];
        var r := Register(rest, compile, acc');
        r
  }

  /** Registering adds only modules not yet evaluated; everything else is `acc`'s. */
  lemma {:induction false} RegisterFresh(leaves: seq<Item>, compile: (Path, string) -> Option<string>, acc: Registry)
    requires forall i :: 0 <= i < |leaves| ==> leaves[i].node.Value?
    ensures var r := Register(leaves, compile, acc);
      r.Ok? ==> forall n :: n in r.value ==> r.value[n].val.None? || (n in acc && r.value[n] == acc[n])
  {
    if |leaves| > 0 && compile(leaves[0].path, Wrap(leaves[0].node.data)).None? {
      var rest := leaves[1..];
      assert forall i :: 0 <= i < |rest| ==> rest[i] == leaves[i + 1];
      var acc' := acc[LibName(leaves[0].path) := Lib(Wrap(leaves[0].node.data), None)];
      RegisterFresh(rest, compile, acc');
      assert Register(leaves, compile, acc) == Register(rest, compile, acc');
    }
  }

  /** `Load`: no `lib` gives an empty registry. */
  function Load(st: Node, compile: (Path, string) -> Option<string>): (r: Result<Registry, LoadError>)
    ensures !Exists(st, LibRoot) ==> r == Ok(map[])
    ensures r.Ok? ==> forall n :: n in r.value ==> r.value[n].val.None?
  {
    match Leaves(st, LibRoot)
    case Err(e) => Err(LoadStoreFailed(e))
    case Ok(leaves) =>
      RegisterFresh(leaves, compile, map[]);
      Register(leaves, compile, map[])
  }

  /** The registry holds exactly the names of the values below `lib`, at any depth. */
  lemma LoadComplete(st: Node, compile: (Path, string) -> Option<string>, n: string)
    requires WF(st) && Load(st, compile).Ok?
    ensures n in Load(st, compile).value <==> exists q, d :: LeafOf(st, LibRoot, q, d) && LibName(q) == n
  {
    var leaves := Leaves(st, LibRoot).value;
    LoadNames(st, compile, n);
    if n in Load(st, compile).value {
      var i :| 0 <= i < |leaves| && LibName(leaves[i].path) == n;
      var q, d := LeafAt(st, leaves, i);
      assert LeafOf(st, LibRoot, q, d) && LibName(q) == n;
    }
    if exists q, d :: LeafOf(st, LibRoot, q, d) && LibName(q) == n {
      var q, d :| LeafOf(st, LibRoot, q, d) && LibName(q) == n;
      var i := IndexOfLeaf(st, leaves, q, d);
      assert LibName(leaves[i].path) == n;
    }
  }

  /** The registry's names are the names of the walked leaves. */
  lemma LoadNames(st: Node, compile: (Path, string) -> Option<string>, n: string)
    requires Load(st, compile).Ok?
    ensures Leaves(st, LibRoot).Ok?
    ensures n in Load(st, compile).value <==> Named(Leaves(st, LibRoot).value, n)
  {
  }

  /** The `i`-th walked leaf is a leaf of `lib`. */
  lemma LeafAt(st: Node, leaves: seq<Item>, i: nat) returns (q: Path, d: Bytes)
    requires WF(st) && Leaves(st, LibRoot) == Ok(leaves) && i < |leaves|
    ensures leaves[i] == Item(q, Value(d)) && LeafOf(st, LibRoot, q, d)
  {
    q, d := leaves[i].path, leaves[i].node.data;
    assert leaves[i] == Item(q, Value(d)) && leaves[i] in leaves;
    LeavesComplete(st, LibRoot, q, d);
  }

  /** Every leaf of `lib` is walked. */
  lemma IndexOfLeaf(st: Node, leaves: seq<Item>, q: Path, d: Bytes) returns (i: nat)
    requires WF(st) && Leaves(st, LibRoot) == Ok(leaves) && LeafOf(st, LibRoot, q, d)
    ensures i < |leaves| && leaves[i] == Item(q, Value(d))
  {
    LeavesComplete(st, LibRoot, q, d);
    i :| 0 <= i < |leaves| && leaves[i] == Item(q, Value(d));
  }

  /** A successful `Load` compiled every library. */
  lemma LoadCompiled(st: Node, compile: (Path, string) -> Option<string>, q: Path, d: Bytes)
    requires WF(st) && Load(st, compile).Ok? && LeafOf(st, LibRoot, q, d)
    ensures compile(q, Wrap(d)).None?
  {
    var leaves := Leaves(st, LibRoot).value;
    var i := IndexOfLeaf(st, leaves, q, d);
    assert compile(leaves[i].path, Wrap(leaves[i].node.data)).None?;
  }

  /** A failed `Load` of a map `lib` names a library that does not compile. */
  lemma LoadFails(st: Node, compile: (Path, string) -> Option<string>)
    requires WF(st) && IsMapAt(st, LibRoot) && Load(st, compile).Err?
    ensures exists q, d :: LeafOf(st, LibRoot, q, d) && compile(q, Wrap(d)).Some?
  {
    var leaves := LoadRegisters(st, compile);
    var i := RegisterFails(leaves, compile, map[]);
    var q, d := LeafAt(st, leaves, i);
    assert compile(q, Wrap(d)).Some?;
  }

  /** A failed registration names a leaf that does not compile. */
  lemma RegisterFails(leaves: seq<Item>, compile: (Path, string) -> Option<string>, acc: Registry) returns (i: nat)
    requires forall i :: 0 <= i < |leaves| ==> leaves[i].node.Value?
    requires Register(leaves, compile, acc).Err?
    ensures i < |leaves| && compile(leaves[i].path, Wrap(leaves[i].node.data)).Some?
  {
    i :| 0 <= i < |leaves| && compile(leaves[i].path, Wrap(leaves[i].node.data)).Some?;
  }

  /** Below a map `lib`, `Load` registers the walked leaves. */
  lemma LoadRegisters(st: Node, compile: (Path, string) -> Option<string>) returns (leaves: seq<Item>)
    requires IsMapAt(st, LibRoot)
    ensures Leaves(st, LibRoot) == Ok(leaves)
    ensures Load(st, compile) == Register(leaves, compile, map[])
  {
    assert Exists(st, LibRoot);
    leaves := Leaves(st, LibRoot).value;
  }

  /** `require`'s name: `.js` is appended when missing. */
  function ModuleName(name: string): (n: string)
    ensures Strs.HasSuffix(n, ".js")
    ensures Strs.HasSuffix(name, ".js") ==> n == name
  {
    if Strs.HasSuffix(name, ".js") then name
    else
      assert (name + ".js")[|name|..] == ".js";
      name + ".js"
  }

  datatype Required = Required(result: Result<string, string>, reg: Registry)

  /** `require(name)`: a cached module answers its exports; otherwise the program is run
      (`run` is the script VM) and, only when it succeeds, the exports are cached. */
  function Require(reg: Registry, name: string, run: string -> Result<string, string>): (r: Required)
    ensures r.reg.Keys == reg.Keys
    ensures forall m :: m in reg && m != ModuleName(name) ==> r.reg[m] == reg[m]
    ensures ModuleName(name) !in reg ==> r == Required(Err("not found: " + ModuleName(name)), reg)
    ensures ModuleName(name) in reg && reg[ModuleName(name)].val.Some? ==>
      r == Required(Ok(reg[ModuleName(name)].val.value), reg)
    ensures r.result.Err? ==> r.reg == reg
    ensures r.result.Ok? ==> ModuleName(name) in reg
    ensures r.result.Ok? ==> r.reg[ModuleName(name)] == reg[ModuleName(name)].(val := Some(r.result.value))
  {
    var n := ModuleName(name);
    if n !in reg then Required(Err("not found: " + n), reg)
    else
      var l := reg[n];
      if l.val.Some? then Required(Ok(l.val.value), reg)
      else
        match run(l.src)
        case Err(e) => Required(Err(e), reg)
        case Ok(v) => Required(Ok(v), reg[n := l.(val := Some(v))])
  }

  /** `require("x")` and `require("x.js")` are the same call. */
  lemma RequireNormalizes(reg: Registry, name: string, run: string -> Result<string, string>)
    requires !Strs.HasSuffix(name, ".js")
    ensures Require(reg, name, run) == Require(reg, name + ".js", run)
  {
    assert ModuleName(name + ".js") == name + ".js";
  }

  /** After a successful `require` the module is not run again: a second call answers the
      same exports whatever the VM would do, and changes nothing. */
  lemma RequireOnce(reg: Registry, name: string, run: string -> Result<string, string>, run': string -> Result<string, string>)
    requires Require(reg, name, run).result.Ok?
    ensures var first := Require(reg, name, run);
      Require(first.reg, name, run') == first
  {
  }

  /** A failing run caches nothing, so the next `require` runs the program again. */
  lemma RequireRetries(reg: Registry, name: string, run: string -> Result<string, string>, run': string -> Result<string, string>)
    requires Require(reg, name, run).result.Err?
    ensures Require(Require(reg, name, run).reg, name, run') == Require(reg, name, run')
  {
  }
}
