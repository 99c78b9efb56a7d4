/** The mapping between store paths and file paths used by dumps and the development
    watcher: each segment is escaped so that it holds no separator and no NUL, and the
    segments are joined with `/` (the separator of the systems modelled here). */
module PathCodec {
  import Strs
  import GoPath

  /** The escape of one byte. */
  function EscapeByte(c: char): string {
    if c == '%' then "%25"
    else if c == '/' then "%2F"
    else if c == '\0' then "%00"
    else [c]
  }

  /** `dbToFilePathReplacer.Replace`: byte by byte. */
  function Escape(s: string): (r: string)
    ensures |r| >= |s|
  {
    if |s| == 0 then "" else EscapeByte(s[0]) + Escape(s[1..])
  }

  /** `fileToDBPathReplacer.Replace`: left to right, a recognised three-byte escape is
      replaced and skipped; anything else, `%2f` included, is copied. */
  function Unescape(s: string): (r: string)
    ensures |r| <= |s|
    ensures !Strs.Contains(s, '%') ==> r == s
  {
    if |s| >= 3 && s[..3] == "%25" then "%" + Unescape(s[3..])
    else if |s| >= 3 && s[..3] == "%2F" then "/" + Unescape(s[3..])
    else if |s| >= 3 && s[..3] == "%00" then "\0" + Unescape(s[3..])
    else if |s| == 0 then ""
    else
      assert Strs.Contains(s[1..], '%') ==> Strs.Contains(s, '%') by {
        if Strs.Contains(s[1..], '%') {
          var i :| 0 <= i < |s[1..]| && s[1..][i] == '%';
          assert s[i + 1] == '%';
        }
      }
      [s[0]] + Unescape(s[1..])
  }

  /** An escaped segment holds neither a separator nor a NUL. */
  lemma {:induction false} EscapeClean(s: string)
    ensures !Strs.Contains(Escape(s), '/') && !Strs.Contains(Escape(s), '\0')
  {
    if |s| > 0 {
      EscapeClean(s[1..]);
      var e := EscapeByte(s[0]);
      var r := Escape(s[1..]);
      assert Escape(s) == e + r;
      assert forall i :: 0 <= i < |e| ==> e[i] != '/' && e[i] != '\0';
      forall i | 0 <= i < |e + r| ensures (e + r)[i] != '/' && (e + r)[i] != '\0' {
        if i >= |e| { assert (e + r)[i] == r[i - |e|]; }
      }
    }
  }

  /** A byte that does not start an escape is copied. */
  lemma UnescapeCopy(s: string)
    requires |s| > 0 && s[0] != '%'
    ensures Unescape(s) == [s[0]] + Unescape(s[1..])
  {
    if |s| >= 3 {
      assert s[..3][0] != '%';
      assert "%25"[0] == '%' && "%2F"[0] == '%' && "%00"[0] == '%';
    }
  }

  /** Unescaping the escape of one byte ahead of `r` gives the byte back. */
  lemma UnescapeByte(c: char, r: string)
    ensures Unescape(EscapeByte(c) + r) == [c] + Unescape(r)
  {
    var e := EscapeByte(c);
    var t := e + r;
    if c == '%' || c == '/' || c == '\0' {
      assert t[..3] == e && t[3..] == r;
      assert "%25"[2] != "%2F"[2] && "%25"[2] != "%00"[2] && "%2F"[2] != "%00"[2];
    } else {
      assert t[0] == c && t[1..] == r;
      UnescapeCopy(t);
    }
  }

  /** Unescaping undoes escaping, for every segment. */
  lemma {:induction false} EscapeRoundTrip(s: string)
    ensures Unescape(Escape(s)) == s
  {
    if |s| > 0 {
      EscapeRoundTrip(s[1..]);
      assert Escape(s) == EscapeByte(s[0]) + Escape(s[1..]);
      UnescapeByte(s[0], Escape(s[1..]));
      assert s == [s[0]] + s[1..];
    }
  }

  /** A lowercase `%2f` is not an escape. */
  lemma LowercaseKept()
    ensures Unescape("%2f") == "%2f"
    ensures Unescape("a%2Fb%25") == "a/b%"
  {
    LowercaseNotEscape();
    UpperEscapes();
  }

  lemma LowercaseNotEscape()
    ensures Unescape("%2f") == "%2f"
  {
    var x := "%2f";
    assert x[..3] == x;
    assert x[1] != "%00"[1] && x[2] != "%25"[2] && x[2] != "%2F"[2];
    assert x[1..] == "2f";
    assert Unescape("2f") == "2f" by {
      UnescapeCopy("2f");
      assert "2f"[1..] == "f";
      UnescapeCopy("f");
      assert "f"[1..] == "";
    }
  }

  lemma UpperEscapes()
    ensures Unescape("a%2Fb%25") == "a/b%"
  {
    var y := "a%2Fb%25";
    UnescapeCopy(y);
    assert y[1..] == "%2Fb%25";
    UnescapeSlashTail();
    assert [y[0]] + "/b%" == "a/b%";
  }

  lemma UnescapeSlashTail()
    ensures Unescape("%2Fb%25") == "/b%"
  {
    UnescapeByte('/', "b%25");
    assert "%2F" + "b%25" == "%2Fb%25";
    UnescapePercentTail();
  }

  lemma UnescapePercentTail()
    ensures Unescape("b%25") == "b%"
  {
    UnescapeCopy("b%25");
    assert "b%25"[1..] == "%25";
    UnescapeByte('%', "");
    assert "%25" + "" == "%25";
  }

  /** `DBPathToFilePath`: escape each segment, then `filepath.Join`. */
  function DBPathToFilePath(p: seq<string>): (r: string)
    ensures |p| >= 1 && AllNamed(p) ==> r == Strs.Join(EscapeAll(p), "/")
  {
    var es := EscapeAll(p);
    if |p| >= 1 && AllNamed(p) then
      EscapeAllPlain(p);
      GoPath.PlainJoin(es);
      GoPath.Join(es)
    else GoPath.Join(es)
  }

  /** Every segment is a name: not empty, `.` or `..`. */
  predicate AllNamed(p: seq<string>) {
    forall i :: 0 <= i < |p| ==> p[i] != "" && p[i] != "." && p[i] != ".."
  }

  /** Escaped names are plain path elements, which joining leaves alone. */
  lemma EscapeAllPlain(p: seq<string>)
    requires AllNamed(p)
    ensures GoPath.AllPlain(EscapeAll(p))
  {
    var es := EscapeAll(p);
    forall i | 0 <= i < |es| ensures GoPath.Plain(es[i]) { EscapePlain(p[i]); }
  }

  function EscapeAll(p: seq<string>): (r: seq<string>)
    ensures |r| == |p| && forall i :: 0 <= i < |p| ==> r[i] == Escape(p[i])
  {
    if |p| == 0 then [] else [Escape(p[0])] + EscapeAll(p[1..])
  }

  function UnescapeAll(p: seq<string>): (r: seq<string>)
    ensures |r| == |p| && forall i :: 0 <= i < |p| ==> r[i] == Unescape(p[i])
  {
    if |p| == 0 then [] else [Unescape(p[0])] + UnescapeAll(p[1..])
  }

  /** `FilePathToDBPath`: split on the separator, unescape each part. */
  function FilePathToDBPath(s: string): (r: seq<string>)
    ensures |r| >= 1
    ensures !Strs.Contains(s, '/') ==> r == [Unescape(s)]
  {
    UnescapeAll(Strs.Split(s, '/'))
  }

  /** The number of occurrences of `c`. */
  function Count(s: string, c: char): nat {
    if |s| == 0 then 0 else (if s[0] == c then 1 else 0) + Count(s[1..], c)
  }

  lemma {:induction false} CountConcat(a: string, b: string, c: char)
    ensures Count(a + b, c) == Count(a, c) + Count(b, c)
  {
    if |a| > 0 {
      assert (a + b)[1..] == a[1..] + b;
      CountConcat(a[1..], b, c);
    } else {
      assert a + b == b;
    }
  }

  lemma {:induction false} CountAbsent(s: string, c: char)
    requires !Strs.Contains(s, c)
    ensures Count(s, c) == 0
  {
    if |s| > 0 {
      assert forall i :: 0 <= i < |s[1..]| ==> s[1..][i] == s[i + 1];
      CountAbsent(s[1..], c);
    }
  }

  /** A file path has one more segment than separators. */
  lemma {:induction false} SegmentCount(s: string)
    ensures |FilePathToDBPath(s)| == Count(s, '/') + 1
    decreases |s|
  {
    var cut := Strs.Cut(s, '/');
    if cut.2 {
      SegmentCount(cut.1);
      CountConcat(cut.0 + "/", cut.1, '/');
      CountConcat(cut.0, "/", '/');
      CountAbsent(cut.0, '/');
      assert Count("/", '/') == 1;
    } else {
      CountAbsent(s, '/');
    }
  }

  /** A segment that is empty, `.` or `..` after escaping was so before. */
  lemma EscapePlain(s: string)
    requires s != "" && s != "." && s != ".."
    ensures GoPath.Plain(Escape(s))
  {
    EscapeClean(s);
    EscapeRoundTrip(s);
    assert Unescape(".") == "." by { assert "."[1..] == ""; }
    assert Unescape("..") == ".." by { assert ".."[1..] == "." && "."[1..] == ""; }
  }

  /** Store path to file path and back is the identity on non-empty paths of non-empty
      segments other than `.` and `..`. */
  lemma FilePathRoundTrip(p: seq<string>)
    requires |p| >= 1 && AllNamed(p)
    ensures FilePathToDBPath(DBPathToFilePath(p)) == p
  {
    var es := EscapeAll(p);
    EscapeAllPlain(p);
    Strs.SplitJoin(es, '/');
    assert "/" == ['/'];
    forall i | 0 <= i < |p| ensures UnescapeAll(es)[i] == p[i] { EscapeRoundTrip(p[i]); }
  }
}
