/** Octets, and the ASCII characters that the text formats give a meaning to. */
module Bytes {
  newtype byte = b: int | 0 <= b < 256

  const NUL: byte := 0
  const EOT: byte := 4
  const TAB: byte := 9
  const LF: byte := 10
  const CR: byte := 13
  const SPACE: byte := 32
  const QUOTE: byte := 34
  const COMMA: byte := 44
  const MINUS: byte := 45
  const DOT: byte := 46
  const SLASH: byte := 47
  const ZERO: byte := 48
  const NINE: byte := 57
  const COLON: byte := 58
  const LBRACKET: byte := 91
  const BACKSLASH: byte := 92
  const RBRACKET: byte := 93
  const UNDERSCORE: byte := 95
  const LBRACE: byte := 123
  const RBRACE: byte := 125
  const DEL: byte := 127

  predicate IsDigit(b: byte) {
    ZERO <= b <= NINE
  }

  predicate IsUpper(b: byte) {
    65 <= b <= 90
  }

  predicate IsLower(b: byte) {
    97 <= b <= 122
  }

  /** `isalnum` in the C locale. */
  predicate IsAlnum(b: byte) {
    IsDigit(b) || IsUpper(b) || IsLower(b)
  }

  /** What a C function sees of a string: everything before the first NUL. */
  function CString(s: seq<byte>): seq<byte> {
    if s == [] || s[0] == NUL then [] else [s[0]] + CString(s[1..])
  }

  function ZeroBytes(n: nat): (z: seq<byte>)
    ensures |z| == n
  {
    seq(n, i => 0)
  }

  /** A string ends at its first NUL. */
  lemma {:induction false} CStringEnds(s: seq<byte>, n: nat)
    requires n < |s| && s[n] == NUL && forall i :: 0 <= i < n ==> s[i] != NUL
    ensures CString(s) == s[..n]
    decreases n
  {
    if n > 0 {
      CStringEnds(s[1..], n - 1);
      assert s[..n] == [s[0]] + s[1..][..n - 1];
    }
  }

  /** Plain text as bytes. */
  function Ascii(s: string): (b: seq<byte>)
    ensures |b| == |s|
  {
    seq(|s|, i requires 0 <= i < |s| => (s[i] as int % 256) as byte)
  }
}
