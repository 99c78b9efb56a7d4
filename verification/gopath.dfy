/** Go's slash-separated path helpers (`path.Clean`, `path.Join`; `filepath.Join` on a
    system whose separator is `/` behaves the same). */
module GoPath {
  import Strs

  /** The lexical stack machine of `path.Clean` over the `/`-separated elements:
      empty and `.` elements vanish, `..` removes the preceding real element, and a
      leading `..` is kept only in a relative path. */
  function CleanSegs(segs: seq<string>, stack: seq<string>, rooted: bool): seq<string>
    decreases |segs|
  {
    if |segs| == 0 then stack
    else
      var s := segs[0];
      var next :=
        if s == "" || s == "." then stack
        else if s == ".." then
          (if |stack| > 0 && stack[|stack| - 1] != ".." then stack[..|stack| - 1]
           else if rooted then stack
           else stack + [".."])
        else stack + [s];
      CleanSegs(segs[1..], next, rooted)
  }

  /** A non-empty element without a `/`: what the stack machine keeps. */
  predicate Element(s: string) {
    s != "" && !Strs.Contains(s, '/')
  }

  predicate AllElements(segs: seq<string>) {
    forall i :: 0 <= i < |segs| ==> Element(segs[i])
  }

  /** The stack machine only ever keeps elements. */
  lemma {:induction false} CleanSegsElements(segs: seq<string>, stack: seq<string>, rooted: bool)
    requires forall i :: 0 <= i < |segs| ==> !Strs.Contains(segs[i], '/')
    requires AllElements(stack)
    ensures AllElements(CleanSegs(segs, stack, rooted))
    decreases |segs|
  {
    if |segs| > 0 {
      var s := segs[0];
      var next :=
        if s == "" || s == "." then stack
        else if s == ".." then
          (if |stack| > 0 && stack[|stack| - 1] != ".." then stack[..|stack| - 1]
           else if rooted then stack
           else stack + [".."])
        else stack + [s];
      assert !Strs.Contains("..", '/') by {
        forall i | 0 <= i < 2 ensures ".."[i] != '/' { }
      }
      assert AllElements(next);
      assert forall i :: 1 <= i < |segs| ==> segs[1..][i - 1] == segs[i];
      assert CleanSegs(segs, stack, rooted) == CleanSegs(segs[1..], next, rooted);
      CleanSegsElements(segs[1..], next, rooted);
    }
  }

  /** Go's `path.Clean`: never empty, and rooted exactly when the input is. */
  function Clean(p: string): (r: string)
    ensures r != ""
    ensures r[0] == '/' <==> |p| > 0 && p[0] == '/'
  {
    if p == "" then "."
    else
      var rooted := p[0] == '/';
      var parts := CleanSegs(Strs.Split(p, '/'), [], rooted);
      var out := Strs.Join(parts, "/");
      CleanSegsElements(Strs.Split(p, '/'), [], rooted);
      if rooted then "/" + out
      else if |parts| == 0 then "."
      else
        assert Element(parts[0]);
        JoinHead(parts);
        out
  }

  /** Go's `path.Join`: leading empty elements are skipped, the rest joined by `/` and
      cleaned; the result is empty exactly when every element is. */
  function Join(elems: seq<string>): (r: string)
    ensures r == "" <==> forall i :: 0 <= i < |elems| ==> elems[i] == ""
  {
    if |elems| == 0 then ""
    else if elems[0] == "" then
      assert forall i :: 1 <= i < |elems| ==> elems[1..][i - 1] == elems[i];
      Join(elems[1..])
    else Clean(Strs.Join(elems, "/"))
  }

  /** Every trailing `/` removed. */
  function TrimRightSlashes(s: string): (r: string)
    ensures |r| <= |s| && r == s[..|r|]
    ensures |r| == 0 || r[|r| - 1] != '/'
    ensures forall i :: |r| <= i < |s| ==> s[i] == '/'
  {
    if |s| > 0 && s[|s| - 1] == '/' then
      var r := TrimRightSlashes(s[..|s| - 1]);
      assert s[..|s| - 1][..|r|] == s[..|r|];
      r
    else s
  }

  /** The text after the last `/`, or all of `s` when it has none. */
  function LastElement(s: string): (r: string)
    ensures !Strs.Contains(r, '/') && Strs.HasSuffix(s, r)
    ensures |r| < |s| ==> s[|s| - |r| - 1] == '/'
  {
    if |s| == 0 then ""
    else if s[|s| - 1] == '/' then ""
    else
      var init := s[..|s| - 1];
      var r := LastElement(init);
      var c := s[|s| - 1];
      assert init[|init| - |r|..] == r;
      assert s[|s| - |r| - 1..] == init[|init| - |r|..] + [c];
      assert |r| < |init| ==> s[|s| - |r| - 2] == init[|init| - |r| - 1];
      assert !Strs.Contains(r + [c], '/') by {
        forall i | 0 <= i < |r| + 1 ensures (r + [c])[i] != '/' {
          if i < |r| { assert (r + [c])[i] == r[i]; }
        }
      }
      r + [c]
  }

  /** Go's `path.Base`: the last element after trailing slashes are removed; "." for the
      empty path and "/" for a path of slashes. */
  function Base(p: string): (r: string)
    ensures r != ""
    ensures r == "/" || !Strs.Contains(r, '/')
  {
    if p == "" then "."
    else
      var e := LastElement(TrimRightSlashes(p));
      if e == "" then "/" else e
  }

  /** A store segment that the lexical cleaning leaves alone. */
  predicate Plain(s: string) {
    s != "" && s != "." && s != ".." && !Strs.Contains(s, '/')
  }

  predicate AllPlain(segs: seq<string>) {
    forall i :: 0 <= i < |segs| ==> Plain(segs[i])
  }

  lemma {:induction false} CleanSegsPlain(segs: seq<string>, stack: seq<string>, rooted: bool)
    requires AllPlain(segs)
    ensures CleanSegs(segs, stack, rooted) == stack + segs
    decreases |segs|
  {
    if |segs| > 0 {
      CleanSegsPlain(segs[1..], stack + [segs[0]], rooted);
      assert stack + [segs[0]] + segs[1..] == stack + segs;
    }
  }

  /** Joining plain segments is the plain `/`-join: nothing is cleaned away. */
  lemma PlainJoin(segs: seq<string>)
    requires |segs| >= 1 && AllPlain(segs)
    ensures Join(segs) == Strs.Join(segs, "/")
  {
    var j := Strs.Join(segs, "/");
    Strs.SplitJoin(segs, '/');
    CleanSegsPlain(segs, [], false);
    assert j[0] == segs[0][0] by { JoinHead(segs); }
    assert segs[0][0] != '/' by { assert !Strs.Contains(segs[0], '/'); }
    assert [] + segs == segs;
  }

  /** An absolute path of plain elements splits into an empty first element and them. */
  lemma SplitRooted(parts: seq<string>)
    requires |parts| >= 1 && AllPlain(parts)
    ensures Strs.Split("/" + Strs.Join(parts, "/"), '/') == [""] + parts
  {
    var all := [""] + parts;
    assert all[1..] == parts;
    assert Strs.Join(all, "/") == "/" + Strs.Join(parts, "/");
    forall i | 0 <= i < |all| ensures !Strs.Contains(all[i], '/') {
      if i > 0 { assert all[i] == parts[i - 1]; }
    }
    Strs.SplitJoin(all, '/');
  }

  /** Cleaning an absolute path of plain elements changes nothing. */
  lemma CleanRootedPlain(parts: seq<string>)
    requires |parts| >= 1 && AllPlain(parts)
    ensures Clean("/" + Strs.Join(parts, "/")) == "/" + Strs.Join(parts, "/")
  {
    var name := "/" + Strs.Join(parts, "/");
    SplitRooted(parts);
    CleanSegsPlain(parts, [], true);
    assert CleanSegs([""] + parts, [], true) == parts by {
      assert ([""] + parts)[1..] == parts;
    }
  }

  lemma {:induction false} JoinHead(segs: seq<string>)
    requires |segs| >= 1 && |segs[0]| > 0
    ensures |Strs.Join(segs, "/")| > 0 && Strs.Join(segs, "/")[0] == segs[0][0]
  {
  }
}
