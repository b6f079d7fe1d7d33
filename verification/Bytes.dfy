/** Bytes, texts and C strings: the values every component below works on. */
module Bytes {
  type byte = b: int | 0 <= b < 256
  type Text = seq<byte>

  const NEWLINE: byte := 10
  const SPACE: byte := 32

  /** The lower-case hexadecimal digit of d. */
  function HexDigit(d: nat): byte
    requires d < 16
  {
    if d < 10 then 48 + d else 87 + d
  }

  /** What a C reader sees of a buffer: everything before the first NUL. */
  function CString(s: Text): Text {
    if s == [] || s[0] == 0 then [] else [s[0]] + CString(s[1..])
  }

  predicate NulFree(s: Text) {
    forall i :: 0 <= i < |s| ==> s[i] != 0
  }

  /** A C string with its terminator: the only form in which the parser sees a text. */
  predicate Terminated(s: Text) {
    s != [] && s[|s| - 1] == 0
  }

  predicate StartsWith(s: Text, prefix: Text) {
    |prefix| <= |s| && s[..|prefix|] == prefix
  }

  lemma {:induction false} CStringOfNulFree(s: Text, rest: Text)
    requires NulFree(s)
    ensures CString(s + [0] + rest) == s
  {
    if s == [] {
      assert (s + [0] + rest)[0] == 0;
    } else {
      assert (s + [0] + rest)[1..] == s[1..] + [0] + rest;
      CStringOfNulFree(s[1..], rest);
    }
  }

  lemma {:induction false} CStringIdentity(s: Text)
    requires NulFree(s)
    ensures CString(s) == s
  {
    if s != [] {
      CStringIdentity(s[1..]);
    }
  }

  lemma {:induction false} CStringIsNulFree(s: Text)
    ensures NulFree(CString(s))
    ensures CString(s) <= s
  {
    if s != [] && s[0] != 0 {
      CStringIsNulFree(s[1..]);
    }
  }
}
