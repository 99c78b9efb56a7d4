/** `smartUncapitalize`, the name mapper that exposes Go struct fields and methods to
    scripts. Its "all capitals" pattern `^[:upper:]+$` is, in RE2, a bracket expression
    over the five bytes `:`, `u`, `p`, `e`, `r`, not the POSIX class `[[:upper:]]`. */
module Uncapitalize {
  import opened Wrappers
  import Strs

  /** One byte of the bracket expression `[:upper:]`. */
  predicate InUpperBracket(c: char) {
    c == ':' || c == 'u' || c == 'p' || c == 'e' || c == 'r'
  }

  /** `allCapsMatcher.MatchString`: one or more bytes, all from the bracket expression. */
  predicate AllCapsMatch(s: string) {
    |s| > 0 && forall i :: 0 <= i < |s| ==> InUpperBracket(s[i])
  }

  predicate IsAscii(c: char) {
    c < 128 as char
  }

  /** `smartUncapitalize`; `None` is the panic of `s[0:1]` on the empty string. A first
      byte outside ASCII goes through Unicode case mapping, which `lowerRune` stands for. */
  function SmartUncapitalize(s: string, lowerRune: char -> string): (r: Option<string>)
    ensures r.None? <==> s == ""
    ensures AllCapsMatch(s) ==> r == Some(s)
    ensures s != "" && IsAscii(s[0]) ==>
      r.Some? && |r.value| == |s| && r.value[0] == Strs.LowerByte(s[0]) && r.value[1..] == s[1..]
  {
    if AllCapsMatch(s) then
      assert Strs.LowerAscii(s) == s by { LowerBracket(s); }
      Some(Strs.LowerAscii(s))
    else if s == "" then None
    else if IsAscii(s[0]) then Some([Strs.LowerByte(s[0])] + s[1..])
    else Some(lowerRune(s[0]) + s[1..])
  }

  /** Lowercasing leaves the bracket bytes alone. */
  lemma {:induction false} LowerBracket(s: string)
    requires forall i :: 0 <= i < |s| ==> InUpperBracket(s[i])
    ensures Strs.LowerAscii(s) == s
  {
    if |s| > 0 {
      LowerBracket(s[1..]);
    }
  }

  /** "URL" is not matched by the pattern and only its first byte is lowered; the pattern
      fires on words of the bracket bytes, where lowering changes nothing. */
  lemma UncapitalizeExamples(lowerRune: char -> string)
    ensures SmartUncapitalize("URL", lowerRune) == Some("uRL")
    ensures SmartUncapitalize("ID", lowerRune) == Some("iD")
    ensures SmartUncapitalize("upper", lowerRune) == Some("upper")
    ensures SmartUncapitalize("Name", lowerRune) == Some("name")
  {
    assert !InUpperBracket("URL"[0]) && Strs.LowerByte('U') == 'u' && "URL"[1..] == "RL";
    assert !AllCapsMatch("URL");
    assert IsAscii('U');
    assert ['u'] + "RL" == "uRL";
    assert !InUpperBracket("ID"[0]) && Strs.LowerByte('I') == 'i' && "ID"[1..] == "D";
    assert !AllCapsMatch("ID") && IsAscii('I') && ['i'] + "D" == "iD";
    assert !InUpperBracket("Name"[0]) && Strs.LowerByte('N') == 'n' && "Name"[1..] == "ame";
    assert !AllCapsMatch("Name") && IsAscii('N') && ['n'] + "ame" == "name";
  }

  /** The name scripts see for an exported struct field or method: both go through the
      mapping as written. Go identifiers are never empty, so the mapping never panics
      here. An all-capitals name such as `URL` keeps its capitals after the first. */
  function ScriptName(name: string, lowerRune: char -> string): (r: string)
    requires name != ""
    ensures Some(r) == SmartUncapitalize(name, lowerRune)
    ensures AllCapsMatch(name) ==> r == name
    ensures IsAscii(name[0]) && !AllCapsMatch(name) ==>
      |r| == |name| && r[0] == Strs.LowerByte(name[0]) && r[1..] == name[1..]
    ensures AllUpper(name) ==> r == [Strs.LowerByte(name[0])] + name[1..]
  {
    SmartUncapitalize(name, lowerRune).value
  }

  /* ---------------------------------------------------------------- as intended */

  /** What the pattern evidently means, `^[[:upper:]]+$`: one or more ASCII capitals. */
  predicate AllUpper(s: string) {
    |s| > 0 && forall i :: 0 <= i < |s| ==> Strs.IsAsciiUpper(s[i])
  }

  /** `smartUncapitalize` with the POSIX class: an all-capitals name is lowered whole, any
      other name has its first byte lowered. */
  function SmartUncapitalizeIntended(s: string, lowerRune: char -> string): (r: Option<string>)
    ensures r.None? <==> s == ""
    ensures AllUpper(s) ==> r.Some? && |r.value| == |s| && forall i :: 0 <= i < |s| ==> r.value[i] as int == s[i] as int + 32
  {
    if AllUpper(s) then Some(Strs.LowerAscii(s))
    else if s == "" then None
    else if IsAscii(s[0]) then Some([Strs.LowerByte(s[0])] + s[1..])
    else Some(lowerRune(s[0]) + s[1..])
  }

  /** The two mappings agree on every name that is not all capitals: a name of bracket
      bytes starts with a byte that lowering keeps. */
  lemma IntendedAgreesElsewhere(s: string, lowerRune: char -> string)
    requires !AllUpper(s)
    ensures SmartUncapitalizeIntended(s, lowerRune) == SmartUncapitalize(s, lowerRune)
  {
    if AllCapsMatch(s) {
      assert [Strs.LowerByte(s[0])] + s[1..] == s;
    }
  }

  /** "URL" and "ID" come out as "url" and "id" as intended, where the code as written
      gives "uRL" and "iD". */
  lemma IntendedExamples(lowerRune: char -> string)
    ensures SmartUncapitalizeIntended("URL", lowerRune) == Some("url")
    ensures SmartUncapitalizeIntended("ID", lowerRune) == Some("id")
    ensures SmartUncapitalize("URL", lowerRune) != SmartUncapitalizeIntended("URL", lowerRune)
  {
    assert AllUpper("URL") && AllUpper("ID");
    assert Strs.LowerAscii("URL") == "url";
    assert Strs.LowerAscii("ID") == "id";
    UncapitalizeExamples(lowerRune);
  }

  /** The script name with the mapping as intended: an all-capitals name is lowered
      whole. */
  function ScriptNameIntended(name: string, lowerRune: char -> string): (r: string)
    requires name != ""
    ensures Some(r) == SmartUncapitalizeIntended(name, lowerRune)
    ensures AllUpper(name) ==> r == Strs.LowerAscii(name)
    ensures IsAscii(name[0]) && !AllUpper(name) ==>
      |r| == |name| && r[0] == Strs.LowerByte(name[0]) && r[1..] == name[1..]
  {
    SmartUncapitalizeIntended(name, lowerRune).value
  }

  /** Scripts see a different name than intended exactly for all-capitals names of two or
      more letters. */
  lemma ScriptNameDiffers(name: string, lowerRune: char -> string)
    requires name != ""
    ensures ScriptName(name, lowerRune) != ScriptNameIntended(name, lowerRune) <==>
      AllUpper(name) && |name| >= 2
  {
    if !AllUpper(name) {
      IntendedAgreesElsewhere(name, lowerRune);
    } else if |name| >= 2 {
      assert ScriptName(name, lowerRune)[1] == name[1];
      assert ScriptNameIntended(name, lowerRune)[1] == Strs.LowerByte(name[1]) != name[1];
    } else {
      assert Strs.LowerAscii(name) == [Strs.LowerByte(name[0])];
      assert name[1..] == [];
    }
  }
}
