/** The WebDAV file system of the control-plane server. The first element of a WebDAV
    path names a kartusche; the rest is a `/`-separated path in that kartusche's store.
    Every change runs as the body of one write transaction of that kartusche, and a body
    that fails is rolled back, so each change below is a function from the store the
    transaction starts with to the store it commits, or the error it returns. */
module Webdav {
  import opened Wrappers
  import opened Store
  import Strs
  import GoPath
  import Move
  import Walk

  /** The `os` errors the file system answers with; a failing store operation; a move
      whose fuel ran out; and the nil-interface panic of a kartusche without a runtime. */
  datatype FsError = ErrNotExist | ErrExist | ErrInvalid | StoreFailed(err: StoreError) | MoveRanOut | NilRuntime

  /** The known kartusches by name, each with its store, `None` when it has no runtime. */
  type Registry = map<string, Option<Node>>

  predicate RegistryWF(reg: Registry) {
    forall n :: n in reg && reg[n].Some? ==> WF(reg[n].value) && reg[n].value.Map?
  }

  /* ---------------------------------------------------------------- names */

  /** `pathToDBPath`: the empty string is the root, anything else is split on `/`. */
  function PathToDBPath(s: string): (r: Path)
    ensures s == "" <==> r == []
    ensures s != "" ==> Strs.Join(r, "/") == s
    ensures forall i :: 0 <= i < |r| ==> !Strs.Contains(r[i], '/')
  {
    if s == "" then []
    else
      Strs.JoinSplit(s, '/');
      Strs.Split(s, '/')
  }

  /** Splitting and joining are inverse on paths of segments without `/`. */
  lemma DBPathRoundTrip(p: Path)
    requires |p| > 0 && forall i :: 0 <= i < |p| ==> !Strs.Contains(p[i], '/')
    requires |p| > 1 || p[0] != ""
    ensures PathToDBPath(Strs.Join(p, "/")) == p
  {
    Strs.SplitJoin(p, '/');
    if |p| > 1 {
      assert Strs.Join(p, "/") == p[0] + "/" + Strs.Join(p[1..], "/");
    }
  }

  /** The kartusche name and the in-kartusche path of a WebDAV name: the cleaned name
      without its leading slashes, cut at its first `/`. */
  function Locate(name: string): (r: (string, string))
    ensures !Strs.Contains(r.0, '/')
    ensures var c := Strs.TrimLeftSlashes(GoPath.Clean(name));
      c == r.0 + "/" + r.1 || (c == r.0 && r.1 == "")
  {
    var c := Strs.TrimLeftSlashes(GoPath.Clean(name));
    var cut := Strs.Cut(c, '/');
    (cut.0, cut.1)
  }

  /** `getKartuscheAndPath`: the located name and path when the name is registered. */
  function GetKartuscheAndPath(reg: Registry, name: string): (r: Option<(string, string)>)
    ensures r.Some? <==> Locate(name).0 in reg
    ensures r.Some? ==> r.value == Locate(name)
  {
    var loc := Locate(name);
    if loc.0 in reg then Some(loc) else None
  }

  /** Dropping the one leading slash of an absolute path of plain elements. */
  lemma TrimRootedPlain(parts: seq<string>)
    requires |parts| >= 1 && GoPath.AllPlain(parts)
    ensures Strs.TrimLeftSlashes("/" + Strs.Join(parts, "/")) == Strs.Join(parts, "/")
  {
    var out := Strs.Join(parts, "/");
    GoPath.JoinHead(parts);
    assert parts[0][0] != '/' by { assert GoPath.Plain(parts[0]); }
    assert ("/" + out)[1..] == out;
  }

  /** Locating an absolute name of plain elements cuts their join at its first `/`. */
  lemma LocateRooted(parts: seq<string>)
    requires |parts| >= 1 && GoPath.AllPlain(parts)
    ensures var c := Strs.Cut(Strs.Join(parts, "/"), '/'); Locate("/" + Strs.Join(parts, "/")) == (c.0, c.1)
  {
    GoPath.CleanRootedPlain(parts);
    TrimRootedPlain(parts);
  }

  /** A name of one plain element names a kartusche and its root. */
  lemma LocateKartusche(k: string)
    requires GoPath.Plain(k)
    ensures Locate("/" + k) == (k, "")
  {
    assert Strs.Join([k], "/") == k;
    LocateRooted([k]);
    assert !Strs.Cut(k, '/').2;
  }

  /** An absolute name of plain elements: the first names the kartusche, the others are
      joined back into the in-kartusche path. */
  lemma LocatePlain(k: string, segs: seq<string>)
    requires GoPath.Plain(k) && GoPath.AllPlain(segs) && |segs| > 0
    ensures Locate("/" + Strs.Join([k] + segs, "/")) == (k, Strs.Join(segs, "/"))
  {
    var parts := [k] + segs;
    var rest := Strs.Join(segs, "/");
    PlainCons(k, segs);
    JoinCons(k, segs);
    LocateRooted(parts);
    Strs.CutAt(k, '/', rest);
  }

  lemma PlainCons(k: string, segs: seq<string>)
    requires GoPath.Plain(k) && GoPath.AllPlain(segs)
    ensures GoPath.AllPlain([k] + segs)
  {
    var parts := [k] + segs;
    forall i | 0 <= i < |parts| ensures GoPath.Plain(parts[i]) {
      if i > 0 { assert parts[i] == segs[i - 1]; }
    }
  }

  lemma JoinCons(k: string, segs: seq<string>)
    requires |segs| > 0
    ensures Strs.Join([k] + segs, "/") == k + ['/'] + Strs.Join(segs, "/")
  {
    assert ([k] + segs)[1..] == segs;
  }

  /** A registered kartusche's store for a WebDAV name, with the in-kartusche store path. */
  function Resolve(reg: Registry, name: string): (r: Result<(string, Node, Path), FsError>)
    requires RegistryWF(reg)
    ensures r.Ok? ==> WF(r.value.1) && r.value.1.Map?
    ensures GetKartuscheAndPath(reg, name).None? <==> r == Err(ErrNotExist)
    ensures r.Ok? <==> GetKartuscheAndPath(reg, name).Some? && reg[Locate(name).0].Some?
    ensures r.Ok? ==> r.value == (Locate(name).0, reg[Locate(name).0].value, PathToDBPath(Locate(name).1))
  {
    match GetKartuscheAndPath(reg, name)
    case None => Err(ErrNotExist)
    case Some((k, p)) =>
      if reg[k].None? then Err(NilRuntime) else Ok((k, reg[k].value, PathToDBPath(p)))
  }

  /** The store a change commits in the kartusche it names. */
  datatype Change = Change(kartusche: string, after: Node)

  function StoreErr(e: StoreError): FsError { StoreFailed(e) }

  /* ---------------------------------------------------------------- Mkdir */

  /** The body of `Mkdir`: an existing path is `ErrExist`, otherwise one new empty map. */
  function MkdirBody(st: Node, p: Path): (r: Result<Node, FsError>)
    requires WF(st)
    ensures Exists(st, p) ==> r == Err(ErrExist)
    ensures r.Ok? <==> !Exists(st, p) && IsMapAt(st, Parent(p))
    ensures r.Ok? ==> WF(r.value) && Lookup(r.value, p) == Some(Map([]))
  {
    if Exists(st, p) then Err(ErrExist)
    else
      match CreateMap(st, p)
      case Ok(s) => WriteHere(st, p, Some(Map([]))); Ok(s)
      case Err(e) => Err(StoreErr(e))
  }

  /** A successful `Mkdir` adds exactly one node and changes nothing beside it. */
  lemma MkdirAddsOne(st: Node, p: Path, q: Path)
    requires WF(st) && MkdirBody(st, p).Ok?
    ensures Exists(MkdirBody(st, p).value, q) <==> Exists(st, q) || q == p
    ensures Disjoint(p, q) ==> Lookup(MkdirBody(st, p).value, q) == Lookup(st, q)
  {
    CreateMapExists(st, p, q);
    if Disjoint(p, q) { WriteFrame(st, p, Some(Map([])), q); }
  }

  /** `Mkdir`. */
  function Mkdir(reg: Registry, name: string): (r: Result<Change, FsError>)
    requires RegistryWF(reg)
    ensures Resolve(reg, name).Err? ==> r == Err(Resolve(reg, name).error)
    ensures Resolve(reg, name).Ok? ==> var (k, st, p) := Resolve(reg, name).value;
      (r.Ok? <==> MkdirBody(st, p).Ok?) && (r.Ok? ==> r.value == Change(k, MkdirBody(st, p).value))
  {
    var (k, st, p) :- Resolve(reg, name);
    var s :- MkdirBody(st, p);
    Ok(Change(k, s))
  }

  /* ---------------------------------------------------------------- RemoveAll */

  /** The body of `RemoveAll`: a missing path is `ErrNotExist`, otherwise its subtree goes. */
  function RemoveAllBody(st: Node, p: Path): (r: Result<Node, FsError>)
    requires WF(st)
    ensures !Exists(st, p) ==> r == Err(ErrNotExist)
    ensures r.Ok? <==> Exists(st, p) && |p| > 0
    ensures r.Ok? ==> WF(r.value)
  {
    if !Exists(st, p) then Err(ErrNotExist)
    else
      match Delete(st, p)
      case Ok(s) => Ok(s)
      case Err(e) => Err(StoreErr(e))
  }

  /** A successful `RemoveAll` removes exactly the path and what lies below it. */
  lemma RemoveAllDeletesSubtree(st: Node, p: Path, q: Path)
    requires WF(st) && RemoveAllBody(st, p).Ok?
    ensures Exists(RemoveAllBody(st, p).value, q) <==> Exists(st, q) && !IsPrefix(p, q)
  {
    DeleteExists(st, p, q);
  }

  /** `RemoveAll`. */
  function RemoveAll(reg: Registry, name: string): (r: Result<Change, FsError>)
    requires RegistryWF(reg)
    ensures Resolve(reg, name).Err? ==> r == Err(Resolve(reg, name).error)
    ensures Resolve(reg, name).Ok? ==> var (k, st, p) := Resolve(reg, name).value;
      (r.Ok? <==> RemoveAllBody(st, p).Ok?) && (r.Ok? ==> r.value == Change(k, RemoveAllBody(st, p).value))
  {
    var (k, st, p) :- Resolve(reg, name);
    var s :- RemoveAllBody(st, p);
    Ok(Change(k, s))
  }

  /* ---------------------------------------------------------------- Rename */

  /** The body of `Rename` as written: a missing source is `ErrNotExist`, otherwise
      `moveAll`, with `fuel` bounding its rounds. */
  function RenameBody(st: Node, src: Path, dst: Path, fuel: nat): (r: Result<Node, FsError>)
    requires WF(st)
    ensures !Exists(st, src) ==> r == Err(ErrNotExist)
    ensures Exists(st, src) ==> (r == Err(MoveRanOut) <==> Move.MoveAll(st, src, dst, fuel) == Move.OutOfFuel)
    ensures r.Ok? ==> WF(r.value) && !Exists(r.value, src)
    ensures r.Ok? ==> Exists(st, src) && Move.MoveAll(st, src, dst, fuel) == Move.Finished(r.value)
  {
    if !Exists(st, src) then Err(ErrNotExist)
    else MoveResult(Move.MoveAll(st, src, dst, fuel))
  }

  /** How the outcome of a move answers a rename. */
  function MoveResult(o: Move.Outcome): (r: Result<Node, FsError>)
    ensures r.Ok? <==> o.Finished?
    ensures r == Err(MoveRanOut) <==> o == Move.OutOfFuel
    ensures r == Err(ErrInvalid) <==> o == Move.Invalid
    ensures r.Ok? ==> r.value == o.st
  {
    match o
    case Finished(s) => Ok(s)
    case Failed(e) => Err(StoreErr(e))
    case OutOfFuel => Err(MoveRanOut)
    case Invalid => Err(ErrInvalid)
  }

  /** Renaming onto a missing path beside the source, whose parent is a map, succeeds:
      the new path holds exactly the node the old one held, the old path is gone and
      nothing beside both changes. */
  lemma RenameMoves(st: Node, src: Path, dst: Path, fuel: nat)
    requires WF(st) && Disjoint(src, dst)
    requires Exists(st, src) && !Exists(st, dst) && IsMapAt(st, Parent(dst))
    requires fuel >= Walk.NodeSize(Lookup(st, src).value)
    ensures RenameBody(st, src, dst, fuel).Ok?
    ensures var s := RenameBody(st, src, dst, fuel).value;
      Lookup(s, dst) == Lookup(st, src) && !Exists(s, src) &&
      forall q :: Disjoint(q, src) && Disjoint(q, dst) ==> Lookup(s, q) == Lookup(st, q)
  {
    Move.MoveAllCopies(st, src, dst, fuel);
  }

  /** As written, renaming the empty directory `a` to `a/b` never ends: every fuel bound
      runs out. */
  lemma RenameBelowItselfRunsOut(fuel: nat)
    ensures RenameBody(Map([Entry("a", Map([]))]), ["a"], ["a", "b"], fuel) == Err(MoveRanOut)
  {
    var st := Map([Entry("a", Map([]))]);
    assert Lookup(st, ["a"]) == Some(Map([]));
    Move.MoveBelowItselfRunsForever(fuel);
  }

  /** As written, renaming a file onto its own name deletes it. */
  lemma RenameOntoItselfDeletes(st: Node, p: Path, fuel: nat)
    requires WF(st) && |p| > 0 && IsValueAt(st, p) && fuel >= 1
    ensures RenameBody(st, p, p, fuel).Ok?
    ensures !Exists(RenameBody(st, p, p, fuel).value, p)
  {
    Move.MoveOntoItselfDeletes(st, p, fuel);
  }

  /** The body of `Rename` with the checked move: a rename onto itself keeps the store, a
      destination strictly below the source is refused with `ErrInvalid`, and any other
      rename is the one as written. */
  function RenameBodyChecked(st: Node, src: Path, dst: Path, fuel: nat): (r: Result<Node, FsError>)
    requires WF(st)
    ensures !Exists(st, src) ==> r == Err(ErrNotExist)
    ensures Exists(st, src) && src == dst ==> r == Ok(st)
    ensures Exists(st, src) && IsPrefix(src, dst) && src != dst ==> r == Err(ErrInvalid)
    ensures !IsPrefix(src, dst) ==> r == RenameBody(st, src, dst, fuel)
  {
    if !Exists(st, src) then Err(ErrNotExist)
    else MoveResult(Move.MoveChecked(st, src, dst, fuel))
  }

  /** The checked rename of an existing node, with fuel for each node below it, never
      runs out. */
  lemma RenameCheckedEnds(st: Node, src: Path, dst: Path, fuel: nat)
    requires WF(st) && Exists(st, src) && fuel >= Walk.NodeSize(Lookup(st, src).value)
    ensures RenameBodyChecked(st, src, dst, fuel) != Err(MoveRanOut)
  {
    Move.MoveCheckedEnds(st, src, dst, fuel);
  }

  /** `Rename`'s name checks: both names must be registered and name the same kartusche,
      which must be running; the result is its store and the two store paths. */
  function RenameTarget(reg: Registry, oldName: string, newName: string): (r: Result<(string, Node, Path, Path), FsError>)
    requires RegistryWF(reg)
    ensures GetKartuscheAndPath(reg, oldName).None? || GetKartuscheAndPath(reg, newName).None? ==>
      r == Err(ErrNotExist)
    ensures Locate(oldName).0 != Locate(newName).0 ==> r == Err(ErrNotExist)
    ensures r.Ok? ==> WF(r.value.1)
    ensures r.Ok? ==> r.value.0 == Locate(oldName).0 && reg[r.value.0] == Some(r.value.1)
    ensures r.Ok? ==> r.value.2 == PathToDBPath(Locate(oldName).1) && r.value.3 == PathToDBPath(Locate(newName).1)
  {
    match GetKartuscheAndPath(reg, oldName)
    case None => Err(ErrNotExist)
    case Some((ok, op)) =>
      match GetKartuscheAndPath(reg, newName)
      case None => Err(ErrNotExist)
      case Some((nk, np)) =>
        if nk != ok then Err(ErrNotExist)
        else if reg[ok].None? then Err(NilRuntime)
        else Ok((ok, reg[ok].value, PathToDBPath(op), PathToDBPath(np)))
  }

  /** `Rename` as written: the name checks, then the rename body in that kartusche. */
  function Rename(reg: Registry, oldName: string, newName: string, fuel: nat): (r: Result<Change, FsError>)
    requires RegistryWF(reg)
    ensures GetKartuscheAndPath(reg, oldName).None? || GetKartuscheAndPath(reg, newName).None? ==>
      r == Err(ErrNotExist)
    ensures Locate(oldName).0 != Locate(newName).0 ==> r == Err(ErrNotExist)
    ensures r.Ok? ==>
      r.value.kartusche == Locate(oldName).0 && reg[r.value.kartusche].Some? &&
      RenameBody(reg[r.value.kartusche].value, PathToDBPath(Locate(oldName).1),
                 PathToDBPath(Locate(newName).1), fuel) == Ok(r.value.after)
  {
    var (k, st, op, np) :- RenameTarget(reg, oldName, newName);
    var s :- RenameBody(st, op, np, fuel);
    Ok(Change(k, s))
  }

  /** `Rename` with the checked move. */
  function RenameChecked(reg: Registry, oldName: string, newName: string, fuel: nat): (r: Result<Change, FsError>)
    requires RegistryWF(reg)
    ensures GetKartuscheAndPath(reg, oldName).None? || GetKartuscheAndPath(reg, newName).None? ==>
      r == Err(ErrNotExist)
    ensures Locate(oldName).0 != Locate(newName).0 ==> r == Err(ErrNotExist)
    ensures r.Ok? ==>
      r.value.kartusche == Locate(oldName).0 && reg[r.value.kartusche].Some? &&
      RenameBodyChecked(reg[r.value.kartusche].value, PathToDBPath(Locate(oldName).1),
                        PathToDBPath(Locate(newName).1), fuel) == Ok(r.value.after)
  {
    var (k, st, op, np) :- RenameTarget(reg, oldName, newName);
    var s :- RenameBodyChecked(st, op, np, fuel);
    Ok(Change(k, s))
  }

  /* ---------------------------------------------------------------- Stat */

  /** What `Stat` reports: a name, whether it is a directory, and a size. */
  datatype Info = Info(name: string, isDir: bool, size: nat)

  /** `webdavFS.Stat`. It never fills in the size, so a value reports size 0. */
  function Stat(reg: Registry, name: string): (r: Result<Info, FsError>)
    requires RegistryWF(reg)
    ensures name == "" || name == "/" ==> r == Ok(Info(name, true, 0))
    ensures name != "" && name != "/" && GetKartuscheAndPath(reg, name).None? ==> r == Err(ErrNotExist)
    ensures r.Ok? ==> r.value.size == 0
    ensures name != "" && name != "/" && Resolve(reg, name).Ok? ==> var (_, st, p) := Resolve(reg, name).value;
      (r.Ok? <==> Exists(st, p)) && (r.Ok? ==> r.value.isDir == IsMapAt(st, p) && r.value.name == GoPath.Base(name))
  {
    if name == "" || name == "/" then Ok(Info(name, true, 0))
    else
      var (_, st, p) :- Resolve(reg, name);
      if !Exists(st, p) then Err(ErrNotExist)
      else Ok(Info(GoPath.Base(name), IsMapAt(st, p), 0))
  }

  /* ---------------------------------------------------------------- OpenFile and Close */

  /** The `os.O_*` bits `OpenFile` looks at. */
  datatype Flags = Flags(append: bool, excl: bool, create: bool, trunc: bool, rdwr: bool, wronly: bool)

  /** What `OpenFile` hands out: the listing of all kartusches, a directory of one, or a
      file buffer that `Close` writes back unless it is read-only. */
  datatype Handle =
    | ServerRoot
    | Dir(kartusche: string, relPath: string)
    | File(kartusche: string, path: Path, contents: Bytes, readOnly: bool)

  /** `OpenFile`. A missing path opened with `O_CREATE` gives an empty writable buffer
      whatever the access mode; an existing value starts from its bytes, or empty under
      `O_TRUNC` or `O_CREATE`, and is writable exactly when `O_RDWR` or `O_WRONLY` is set. */
  function OpenFile(reg: Registry, name: string, flags: Flags): (r: Result<Handle, FsError>)
    requires RegistryWF(reg)
    ensures flags.append || flags.excl ==> r == Err(ErrInvalid)
    ensures !flags.append && !flags.excl && (name == "" || name == "/") ==> r == Ok(ServerRoot)
    ensures !flags.append && !flags.excl && name != "" && name != "/" ==>
      (GetKartuscheAndPath(reg, name).None? ==> r == Err(ErrNotExist))
    ensures !flags.append && !flags.excl && name != "" && name != "/" && Resolve(reg, name).Ok? ==>
      var (k, st, p) := Resolve(reg, name).value;
      if !Exists(st, p) then
        r == (if flags.create then Ok(File(k, p, "", false)) else Err(ErrNotExist))
      else if IsMapAt(st, p) then r == Ok(Dir(k, Locate(name).1))
      else r == Ok(File(k, p, if flags.trunc || flags.create then "" else Get(st, p).value,
                        !flags.rdwr && !flags.wronly))
  {
    if flags.append || flags.excl then Err(ErrInvalid)
    else if name == "" || name == "/" then Ok(ServerRoot)
    else
      var (k, st, p) :- Resolve(reg, name);
      if !Exists(st, p) then
        if flags.create then Ok(File(k, p, "", false)) else Err(ErrNotExist)
      else if IsMapAt(st, p) then Ok(Dir(k, Locate(name).1))
      else
        var data := Get(st, p).value;
        var contents := if flags.trunc || flags.create then "" else data;
        Ok(File(k, p, contents, !(flags.rdwr || flags.wronly)))
  }

  /** `fileWriter.Close` in the store of the file's kartusche: a read-only buffer writes
      nothing, any other is put whole at its path. */
  function Close(st: Node, f: Handle): (r: Result<Node, FsError>)
    requires WF(st) && f.File?
    ensures f.readOnly ==> r == Ok(st)
    ensures !f.readOnly ==> (r.Ok? <==> |f.path| > 0 && IsMapAt(st, Parent(f.path)) && !IsMapAt(st, f.path))
    ensures !f.readOnly && r.Ok? ==> Get(r.value, f.path) == Ok(f.contents)
  {
    if f.readOnly then Ok(st)
    else
      match Put(st, f.path, f.contents)
      case Ok(s) => WriteHere(st, f.path, Some(Value(f.contents))); Ok(s)
      case Err(e) => Err(StoreErr(e))
  }

  /** Opening a value for writing without truncating and closing it again writes its own
      bytes back: the store is unchanged. */
  lemma OpenCloseUnchanged(reg: Registry, name: string, flags: Flags)
    requires RegistryWF(reg) && name != "" && name != "/"
    requires !flags.append && !flags.excl && !flags.trunc && !flags.create && (flags.rdwr || flags.wronly)
    requires Resolve(reg, name).Ok? && IsValueAt(Resolve(reg, name).value.1, Resolve(reg, name).value.2)
    ensures OpenFile(reg, name, flags).Ok? && OpenFile(reg, name, flags).value.File?
    ensures Close(Resolve(reg, name).value.1, OpenFile(reg, name, flags).value) == Ok(Resolve(reg, name).value.1)
  {
    var (k, st, p) := Resolve(reg, name).value;
    assert |p| > 0;
    Move.ReplaceSame(st, p);
  }

  /** Creating a missing file, even read-only, and closing it stores an empty value. */
  lemma CreateWritesEmpty(reg: Registry, name: string, flags: Flags)
    requires RegistryWF(reg) && name != "" && name != "/"
    requires !flags.append && !flags.excl && flags.create
    requires Resolve(reg, name).Ok? && !Exists(Resolve(reg, name).value.1, Resolve(reg, name).value.2)
    requires IsMapAt(Resolve(reg, name).value.1, Parent(Resolve(reg, name).value.2))
    ensures OpenFile(reg, name, flags).Ok? && OpenFile(reg, name, flags).value.File?
    ensures var st := Resolve(reg, name).value.1;
      Close(st, OpenFile(reg, name, flags).value).Ok? &&
      Get(Close(st, OpenFile(reg, name, flags).value).value, Resolve(reg, name).value.2) == Ok("")
  {
    var (k, st, p) := Resolve(reg, name).value;
    assert |p| > 0;
  }
}
