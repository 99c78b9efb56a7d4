/** Base64 with the standard alphabet and `=` padding, as in section 4 of RFC 4648, the
    way Go's `base64.StdEncoding` decodes it: carriage returns and line feeds are skipped,
    the rest must be whole four-symbol quanta with padding only at the end, and the unused
    low bits of a padded quantum are ignored. Bytes are chars below 256. */
module Base64 {
  import opened Wrappers

  predicate IsByte(c: char) {
    c < 256 as char
  }

  predicate AllBytes(s: seq<char>) {
    forall i :: 0 <= i < |s| ==> IsByte(s[i])
  }

  /** The symbol for a six-bit value. */
  function Sym(v: nat): char
    requires v < 64
  {
    if v < 26 then ('A' as int + v) as char
    else if v < 52 then ('a' as int + v - 26) as char
    else if v < 62 then ('0' as int + v - 52) as char
    else if v == 62 then '+'
    else '/'
  }

  /** The six-bit value of a symbol; `=` and everything outside the alphabet have none. */
  function Val(c: char): (r: Option<nat>)
    ensures r.Some? ==> r.value < 64
  {
    if 'A' <= c <= 'Z' then Some(c as int - 'A' as int)
    else if 'a' <= c <= 'z' then Some(c as int - 'a' as int + 26)
    else if '0' <= c <= '9' then Some(c as int - '0' as int + 52)
    else if c == '+' then Some(62)
    else if c == '/' then Some(63)
    else None
  }

  lemma SymVal(v: nat)
    requires v < 64
    ensures Val(Sym(v)) == Some(v) && Sym(v) != '=' && Sym(v) != '\r' && Sym(v) != '\n'
  {
  }

  /** The four six-bit groups of three bytes `x y z` (missing bytes count as zero). */
  function G0(x: nat): (v: nat) requires x < 256 ensures v < 64 { x / 4 }
  function G1(x: nat, y: nat): (v: nat) requires x < 256 && y < 256 ensures v < 64 { x % 4 * 16 + y / 16 }
  function G2(y: nat, z: nat): (v: nat) requires y < 256 && z < 256 ensures v < 64 { y % 16 * 4 + z / 64 }
  function G3(z: nat): (v: nat) requires z < 256 ensures v < 64 { z % 64 }

  function Encode(b: seq<char>): (r: string)
    requires AllBytes(b)
    ensures |r| % 4 == 0
  {
    if |b| == 0 then ""
    else
      var x := b[0] as int;
      if |b| == 1 then [Sym(G0(x)), Sym(G1(x, 0)), '=', '=']
      else
        var y := b[1] as int;
        if |b| == 2 then [Sym(G0(x)), Sym(G1(x, y)), Sym(G2(y, 0)), '=']
        else
          var z := b[2] as int;
          [Sym(G0(x)), Sym(G1(x, y)), Sym(G2(y, z)), Sym(G3(z))] + Encode(b[3..])
  }

  /** Go's decoder skips line breaks anywhere in the input. */
  function DropNewlines(s: string): (r: string)
    ensures |r| <= |s|
  {
    if |s| == 0 then ""
    else if s[0] == '\r' || s[0] == '\n' then DropNewlines(s[1..])
    else [s[0]] + DropNewlines(s[1..])
  }

  function Byte0(a: nat, b: nat): char
    requires a < 64 && b < 64
  {
    (a * 4 + b / 16) as char
  }

  function Byte1(b: nat, c: nat): char
    requires b < 64 && c < 64
  {
    (b % 16 * 16 + c / 4) as char
  }

  function Byte2(c: nat, d: nat): char
    requires c < 64 && d < 64
  {
    (c % 4 * 64 + d) as char
  }

  /** Whole quanta; only the last may end in `=` or `==`. */
  function DecodeQuanta(t: string): (r: Option<seq<char>>)
    requires |t| % 4 == 0
    ensures r.Some? ==> AllBytes(r.value)
    ensures r.Some? ==> 4 * |r.value| <= 3 * |t| && 3 * |t| <= 4 * |r.value| + 8
    decreases |t|
  {
    if |t| == 0 then Some([])
    else
      var a :- Val(t[0]);
      var b :- Val(t[1]);
      if |t| == 4 && t[2] == '=' && t[3] == '=' then Some([Byte0(a, b)])
      else
        var c :- Val(t[2]);
        if |t| == 4 && t[3] == '=' then Some([Byte0(a, b), Byte1(b, c)])
        else
          var d :- Val(t[3]);
          var rest :- DecodeQuanta(t[4..]);
          Some([Byte0(a, b), Byte1(b, c), Byte2(c, d)] + rest)
  }

  /** `StdEncoding.DecodeString`; `None` is a `CorruptInputError`. */
  function Decode(s: string): (r: Option<seq<char>>)
    ensures r.Some? ==> AllBytes(r.value)
    ensures r.Some? ==> 4 * |r.value| <= 3 * |s|
  {
    var t := DropNewlines(s);
    if |t| % 4 != 0 then None else DecodeQuanta(t)
  }

  lemma {:induction false} EncodeNoNewlines(b: seq<char>)
    requires AllBytes(b)
    ensures DropNewlines(Encode(b)) == Encode(b)
    decreases |b|
  {
    var e := Encode(b);
    if |b| > 0 {
      var q := e[..4];
      var rest := e[4..];
      assert e == q + rest;
      assert forall i :: 0 <= i < 4 ==> q[i] != '\r' && q[i] != '\n' by {
        var x := b[0] as int;
        SymVal(G0(x));
        SymVal(G1(x, 0));
        if |b| >= 2 {
          var y := b[1] as int;
          SymVal(G1(x, y));
          SymVal(G2(y, 0));
          if |b| >= 3 {
            var z := b[2] as int;
            SymVal(G2(y, z));
            SymVal(G3(z));
          }
        }
      }
      if |b| >= 3 {
        EncodeNoNewlines(b[3..]);
        assert rest == Encode(b[3..]);
      } else {
        assert rest == [];
      }
      DropQuantum(q, rest);
    }
  }

  lemma {:induction false} DropQuantum(q: string, rest: string)
    requires forall i :: 0 <= i < |q| ==> q[i] != '\r' && q[i] != '\n'
    requires DropNewlines(rest) == rest
    ensures DropNewlines(q + rest) == q + rest
    decreases |q|
  {
    if |q| > 0 {
      var t := q[1..];
      assert q + rest == [q[0]] + (t + rest);
      DropQuantum(t, rest);
      DropCons(q[0], t + rest);
      assert DropNewlines(q + rest) == [q[0]] + (t + rest);
    } else {
      assert q + rest == rest;
    }
  }

  lemma DropCons(c: char, rest: string)
    requires c != '\r' && c != '\n'
    ensures DropNewlines([c] + rest) == [c] + DropNewlines(rest)
  {
    assert ([c] + rest)[1..] == rest;
  }

  /** A full quantum decodes to three bytes ahead of the rest. */
  lemma DecodeFull(a: nat, b: nat, c: nat, d: nat, rest: string)
    requires a < 64 && b < 64 && c < 64 && d < 64
    requires |rest| % 4 == 0 && DecodeQuanta(rest).Some?
    ensures DecodeQuanta([Sym(a), Sym(b), Sym(c), Sym(d)] + rest) ==
      Some([Byte0(a, b), Byte1(b, c), Byte2(c, d)] + DecodeQuanta(rest).value)
  {
    SymVal(a); SymVal(b); SymVal(c); SymVal(d);
    var t := [Sym(a), Sym(b), Sym(c), Sym(d)] + rest;
    assert t[4..] == rest;
  }

  /** The six-bit groups of three bytes put back together. */
  lemma Regroup(x: nat, y: nat, z: nat)
    requires x < 256 && y < 256 && z < 256
    ensures Byte0(G0(x), G1(x, y)) == x as char
    ensures Byte1(G1(x, y), G2(y, z)) == y as char
    ensures Byte2(G2(y, z), G3(z)) == z as char
  {
    Regroup0(x, y);
    Regroup1(x, y, z);
    Regroup2(y, z);
  }

  lemma Regroup0(x: nat, y: nat)
    requires x < 256 && y < 256
    ensures Byte0(G0(x), G1(x, y)) == x as char
  {
    var r, s := x % 4, y / 16;
    assert G1(x, y) == r * 16 + s && s < 16;
    assert G1(x, y) / 16 == r;
    assert G0(x) * 4 + r == x;
  }

  lemma Regroup1(x: nat, y: nat, z: nat)
    requires x < 256 && y < 256 && z < 256
    ensures Byte1(G1(x, y), G2(y, z)) == y as char
  {
    var r, s := x % 4, y / 16;
    assert G1(x, y) == r * 16 + s && s < 16;
    assert G1(x, y) % 16 == s;
    var u, w := y % 16, z / 64;
    assert G2(y, z) == u * 4 + w && w < 4;
    assert G2(y, z) / 4 == u;
    assert s * 16 + u == y;
  }

  lemma Regroup2(y: nat, z: nat)
    requires y < 256 && z < 256
    ensures Byte2(G2(y, z), G3(z)) == z as char
  {
    var u, w := y % 16, z / 64;
    assert G2(y, z) == u * 4 + w && w < 4;
    assert G2(y, z) % 4 == w;
    assert w * 64 + G3(z) == z;
  }

  lemma DecodeEncodeOne(b: seq<char>)
    requires AllBytes(b) && |b| == 1
    ensures DecodeQuanta(Encode(b)) == Some(b)
  {
    var x := b[0] as int;
    assert Encode(b) == [Sym(G0(x)), Sym(G1(x, 0)), '=', '='];
    SymVal(G0(x)); SymVal(G1(x, 0));
    Regroup0(x, 0);
    assert b == [b[0]];
  }

  lemma DecodeEncodeTwo(b: seq<char>)
    requires AllBytes(b) && |b| == 2
    ensures DecodeQuanta(Encode(b)) == Some(b)
  {
    var x, y := b[0] as int, b[1] as int;
    assert Encode(b) == [Sym(G0(x)), Sym(G1(x, y)), Sym(G2(y, 0)), '='];
    SymVal(G0(x)); SymVal(G1(x, y)); SymVal(G2(y, 0));
    Regroup0(x, y);
    Regroup1(x, y, 0);
    assert b == [b[0], b[1]];
  }

  lemma {:induction false} DecodeEncode(b: seq<char>)
    requires AllBytes(b)
    ensures DecodeQuanta(Encode(b)) == Some(b)
    decreases |b|
  {
    if |b| == 1 {
      DecodeEncodeOne(b);
    } else if |b| == 2 {
      DecodeEncodeTwo(b);
    } else if |b| >= 3 {
      var x, y, z := b[0] as int, b[1] as int, b[2] as int;
      var rest := Encode(b[3..]);
      assert Encode(b) == [Sym(G0(x)), Sym(G1(x, y)), Sym(G2(y, z)), Sym(G3(z))] + rest;
      DecodeEncode(b[3..]);
      DecodeFull(G0(x), G1(x, y), G2(y, z), G3(z), rest);
      Regroup(x, y, z);
      assert b == [b[0], b[1], b[2]] + b[3..];
    }
  }

  /** Decoding undoes encoding for every byte string. */
  lemma RoundTrip(b: seq<char>)
    requires AllBytes(b)
    ensures Decode(Encode(b)) == Some(b)
  {
    EncodeNoNewlines(b);
    DecodeEncode(b);
  }

  /** Padding in the middle and a missing pad are rejected; line breaks are skipped;
      "QR==" decodes although its unused bits are not zero. */
  lemma DecodeExamples()
    ensures Decode("QQ=") == None
    ensures Decode("QQ==QQ==") == None
    ensures Decode("QQ==") == Some("A")
    ensures Decode("QR==") == Some("A")
    ensures Decode("Q\r\nQ==") == Some("A")
  {
    RejectExamples();
    PaddedExample();
    LooseBitsExample();
    NewlineExample();
  }

  lemma RejectExamples()
    ensures Decode("QQ=") == None
    ensures Decode("QQ==QQ==") == None
  {
    assert Val('Q') == Some(16) && Val('=') == None;
    assert DropNewlines("QQ=") == "QQ=";
    assert DropNewlines("QQ==QQ==") == "QQ==QQ==";
  }

  lemma PaddedExample()
    ensures Decode("QQ==") == Some("A")
  {
    assert Val('Q') == Some(16);
    assert DropNewlines("QQ==") == "QQ==";
    assert Byte0(16, 16) == 'A';
  }

  lemma LooseBitsExample()
    ensures Decode("QR==") == Some("A")
  {
    assert Val('Q') == Some(16) && Val('R') == Some(17);
    assert DropNewlines("QR==") == "QR==";
    assert Byte0(16, 17) == 'A';
  }

  lemma NewlineExample()
    ensures Decode("Q\r\nQ==") == Some("A")
  {
    assert DropNewlines("Q\r\nQ==") == "QQ==";
    PaddedExample();
  }

}
