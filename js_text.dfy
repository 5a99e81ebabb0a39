/**
 * The few JavaScript string built-ins the game rules rely on:
 * `String.prototype.trim`, `toUpperCase` and `toLowerCase`.
 * A string is a sequence of Unicode scalar values; JavaScript's strings
 * are UTF-16 code units, which differ only for characters outside the
 * Basic Multilingual Plane.
 */
module JsText {

  /** The characters `trim` removes: the WhiteSpace and LineTerminator
      productions of ECMAScript (TAB, VT, FF, SP, NBSP, ZWNBSP, the other
      Zs space separators, LF, CR, LS and PS). */
  predicate IsSpace(c: char) {
    var n := c as int;
    (9 <= n <= 13) || n == 0x20 || n == 0xA0 || n == 0x1680 ||
    (0x2000 <= n <= 0x200A) || n == 0x2028 || n == 0x2029 ||
    n == 0x202F || n == 0x205F || n == 0x3000 || n == 0xFEFF
  }

  /** Drops leading white space. */
  function TrimStart(s: string): (r: string)
    ensures |r| <= |s| && r == s[|s| - |r|..]
    ensures r == [] || !IsSpace(r[0])
    ensures forall i :: 0 <= i < |s| - |r| ==> IsSpace(s[i])
  {
    if s != [] && IsSpace(s[0]) then TrimStart(s[1..]) else s
  }

  /** Drops trailing white space. */
  function TrimEnd(s: string): (r: string)
    ensures |r| <= |s| && r == s[..|r|]
    ensures r == [] || !IsSpace(r[|r| - 1])
    ensures forall i :: |r| <= i < |s| ==> IsSpace(s[i])
  {
    if s != [] && IsSpace(s[|s| - 1]) then TrimEnd(s[..|s| - 1]) else s
  }

  /** `s.trim()`. */
  function Trim(s: string): string {
    TrimEnd(TrimStart(s))
  }

  /** `!s.trim()`: the trimmed string is empty, hence falsy. */
  predicate IsBlank(s: string) {
    Trim(s) == []
  }

  lemma {:induction false} TrimStartAllSpace(s: string)
    requires forall i :: 0 <= i < |s| ==> IsSpace(s[i])
    ensures TrimStart(s) == []
  {
    if s != [] {
      TrimStartAllSpace(s[1..]);
    }
  }

  /** A string is blank exactly when every one of its characters is white space. */
  lemma BlankIffAllSpace(s: string)
    ensures IsBlank(s) <==> forall i :: 0 <= i < |s| ==> IsSpace(s[i])
  {
    if IsBlank(s) {
      // the trailing trim would stop at a non-space first unit, so nothing survived the leading trim
      assert TrimStart(s) == [];
    }
    if forall i :: 0 <= i < |s| ==> IsSpace(s[i]) {
      TrimStartAllSpace(s);
    }
  }

  /** Where the trimmed text starts inside the original. */
  function TrimOffset(s: string): nat {
    |s| - |TrimStart(s)|
  }

  /** A trimmed string is a contiguous piece of the original with no white space at either end. */
  lemma TrimShape(s: string)
    ensures TrimOffset(s) + |Trim(s)| <= |s|
    ensures Trim(s) == s[TrimOffset(s)..TrimOffset(s) + |Trim(s)|]
    ensures Trim(s) == [] || (!IsSpace(Trim(s)[0]) && !IsSpace(Trim(s)[|Trim(s)| - 1]))
  {
    var t := TrimStart(s);
    var r := TrimEnd(t);
    var i := |s| - |t|;
    assert Trim(s) == r && TrimOffset(s) == i;
    assert t == s[i..];
    assert r == t[..|r|];
    assert s[i..][..|r|] == s[i..i + |r|];
    if r != [] {
      assert r[0] == t[0];
    }
  }

  /** Trimming twice is trimming once. */
  lemma TrimIdempotent(s: string)
    ensures Trim(Trim(s)) == Trim(s)
  {
    var t := Trim(s);
    TrimShape(s);
    assert TrimStart(t) == t;
    if t != [] {
      assert TrimEnd(t) == t;
    }
  }

  function UpperChar(c: char): char {
    if 'a' <= c <= 'z' then (c as int - 32) as char else c
  }

  function LowerChar(c: char): char {
    if 'A' <= c <= 'Z' then (c as int + 32) as char else c
  }

  /** `s.toUpperCase()` for the ASCII letters. */
  function ToUpper(s: string): (r: string)
    ensures |r| == |s| && forall i :: 0 <= i < |s| ==> r[i] == UpperChar(s[i])
  {
    if s == [] then [] else [UpperChar(s[0])] + ToUpper(s[1..])
  }

  /** `s.toLowerCase()` for the ASCII letters. */
  function ToLower(s: string): (r: string)
    ensures |r| == |s| && forall i :: 0 <= i < |s| ==> r[i] == LowerChar(s[i])
  {
    if s == [] then [] else [LowerChar(s[0])] + ToLower(s[1..])
  }

  /** Upper- and lower-casing agree on which strings are the same up to
      case: a room code typed in either case finds the same room, and a name
      in either case clashes with the same names. */
  lemma CaseMappingsAgree(s: string)
    ensures ToUpper(ToLower(s)) == ToUpper(s) && ToLower(ToUpper(s)) == ToLower(s)
    ensures ToUpper(ToUpper(s)) == ToUpper(s) && ToLower(ToLower(s)) == ToLower(s)
  {
  }
}
