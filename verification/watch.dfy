/** The development watcher's path handling: the paths it reports, the directories it
    watches, and the file events it forwards. */
module Watch {
  import opened Wrappers
  import Strs

  /** `normalize`: drop one leading "./"; a directory path ends in "/". */
  function Normalize(path: string, dir: bool): (r: string)
    ensures dir ==> Strs.HasSuffix(r, "/")
    ensures !dir ==> r == Strs.TrimPrefix(path, "./")
    ensures dir ==> r == Strs.TrimPrefix(path, "./") ||
                    r == Strs.TrimPrefix(path, "./") + "/"
  {
    var p := Strs.TrimPrefix(path, "./");
    if dir && !Strs.HasSuffix(p, "/") then
      assert Strs.HasSuffix(p + "/", "/") by { assert (p + "/")[|p|..] == "/"; }
      p + "/"
    else p
  }

  /** Only one "./" goes, so normalising twice can differ from once. */
  lemma NormalizeOnce()
    ensures Normalize("././a", false) == "./a"
    ensures Normalize("./a", false) == "a"
  {
    assert "././a"[..2] == "./" && "././a"[2..] == "./a";
    assert "./a"[..2] == "./" && "./a"[2..] == "a";
  }

  /** Normalising a normalised path changes it exactly when it still starts with "./":
      for every other path `normalize` is idempotent. */
  lemma NormalizeIdempotent(path: string, dir: bool)
    ensures Normalize(Normalize(path, dir), dir) == Normalize(path, dir) <==>
            !Strs.HasPrefix(Normalize(path, dir), "./")
  {
    var r := Normalize(path, dir);
    var t := Strs.TrimPrefix(r, "./");
    if Strs.HasPrefix(r, "./") {
      assert |t| == |r| - 2;
      assert |Normalize(r, dir)| <= |t| + 1;
    } else {
      assert t == r;
      if dir {
        assert Strs.HasSuffix(t, "/");
      }
    }
  }

  /** A directory gets its slash once. */
  lemma NormalizeDir()
    ensures Normalize("./d", true) == "d/"
  {
    assert Strs.TrimPrefix("./d", "./") == "d" by {
      assert "./d"[..2] == "./" && "./d"[2..] == "d";
    }
    assert !Strs.HasSuffix("d", "/") by { assert "d"[0..] == "d"; }
  }

  lemma NormalizeDirSlash()
    ensures Normalize("d/", true) == "d/"
  {
    assert Strs.TrimPrefix("d/", "./") == "d/" by { assert "d/"[..2] == "d/"; }
    assert Strs.HasSuffix("d/", "/") by { assert "d/"[1..] == "/"; }
  }

  /** What `walker` tells `filepath.Walk` for one visited path. */
  datatype Visit = Ignore | SkipDir | AddWatch(path: string)

  /** `walker`: errors and non-directories are ignored, the project's `.kartusche/`
      directory is skipped with its contents, every other directory is watched. */
  function Walker(path: string, isDir: bool, failed: bool): (r: Visit)
    ensures r.AddWatch? ==> isDir && !failed && r.path == Normalize(path, true) && r.path != ".kartusche/"
    ensures r == SkipDir <==> !failed && isDir && Normalize(path, true) == ".kartusche/"
    ensures r == Ignore <==> failed || !isDir
  {
    if failed || !isDir then Ignore
    else
      var p := Normalize(path, true);
      if p == ".kartusche/" then SkipDir else AddWatch(p)
  }

  /** fsnotify's operation bits. */
  type Op = bv32
  const Create: Op := 1
  const Chmod: Op := 16

  /** Every bit but Chmod. */
  const ChmodMask: Op := !0 ^ Chmod

  /** What the loop does with an event: drop it, or report a path (and walk it again when
      a directory was created). `stat` is `None` when the path cannot be stat'ed, else
      whether it is a directory. */
  datatype Handled = Dropped | Report(path: string, rewalk: bool)

  function HandleEvent(name: string, op: Op, stat: Option<bool>): (r: Handled)
    ensures r == Dropped <==> stat.None? || op == 0 || op == Chmod
    ensures r.Report? ==> r.path == Normalize(name, stat.value)
    ensures r.Report? ==> (r.rewalk <==> op & Create != 0 && stat.value)
  {
    if stat.None? then Dropped
    else
      var path := Normalize(name, stat.value);
      if op & ChmodMask == 0 then Dropped
      else Report(path, op & Create > 0 && stat.value)
  }

  /** A created directory is reported and walked again from its reported path `p`. The
      walk's first visit normalises `p` once more, so it watches `p` itself unless `p` is
      `.kartusche/` or still starts with "./". */
  lemma CreatedDirRewalked(name: string, op: Op)
    requires op & Create != 0
    ensures HandleEvent(name, op, Some(true)) == Report(Normalize(name, true), true)
    ensures var p := Normalize(name, true);
      !Strs.HasPrefix(p, "./") ==>
        Walker(p, true, false) == if p == ".kartusche/" then SkipDir else AddWatch(p)
  {
    assert op != 0 && op != Chmod;
    NormalizeIdempotent(name, true);
  }
}
