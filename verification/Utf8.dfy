/**
  UTF-8 (section 3 of RFC 3629): the validating decoder and the encoder.

  Iterators are positions in a sequence of octets. A right shift by k is division by 2^k,
  a mask with 2^k - 1 is the remainder, and `|` of disjoint bit fields is addition.
 */
module Utf8 {
  import opened Bytes

  datatype Utf8Error = Utf8Ok | NotEnoughRoom | InvalidLead | IncompleteSequence | OverlongSequence | InvalidCodePoint

  /** What `validate_next` leaves behind: the error, the new position and the code point. */
  datatype Step = Step(error: Utf8Error, next: nat, codePoint: nat)

  const CODE_POINT_MAX := 0x10FFFF
  const LEAD_SURROGATE_MIN := 0xD800
  const LEAD_SURROGATE_MAX := 0xDBFF
  const TRAIL_SURROGATE_MIN := 0xDC00
  const TRAIL_SURROGATE_MAX := 0xDFFF

  predicate IsTrail(b: byte) {
    b / 64 == 2
  }

  predicate IsSurrogate(cp: nat) {
    LEAD_SURROGATE_MIN <= cp <= TRAIL_SURROGATE_MAX
  }

  predicate IsCodePointValid(cp: nat) {
    cp <= CODE_POINT_MAX && !IsSurrogate(cp)
  }

  function SequenceLength(lead: byte): nat {
    if lead < 0x80 then 1
    else if lead / 32 == 0x6 then 2
    else if lead / 16 == 0xE then 3
    else if lead / 8 == 0x1E then 4
    else 0
  }

  predicate IsOverlong(cp: nat, length: nat) {
    if cp < 0x80 then length != 1
    else if cp < 0x800 then length != 2
    else if cp < 0x10000 then length != 3
    else false
  }

  /** `increase_safely`: the error of moving onto the octet at k. */
  function IncreaseSafely(s: seq<byte>, k: nat): Utf8Error {
    if k >= |s| then NotEnoughRoom
    else if !IsTrail(s[k]) then IncompleteSequence
    else Utf8Ok
  }

  /** The first error met while stepping over the trail octets of a sequence of `length` octets at pos. */
  function TrailError(s: seq<byte>, pos: nat, length: nat): Utf8Error {
    if length >= 2 && IncreaseSafely(s, pos + 1) != Utf8Ok then IncreaseSafely(s, pos + 1)
    else if length >= 3 && IncreaseSafely(s, pos + 2) != Utf8Ok then IncreaseSafely(s, pos + 2)
    else if length >= 4 then IncreaseSafely(s, pos + 3)
    else Utf8Ok
  }

  // The code points assembled by `get_sequence_2`, `get_sequence_3` and `get_sequence_4`.

  function Join2(a: int, b: int): int {
    (a * 64) % 0x800 + b % 64
  }

  function Join3(a: int, b: int, c: int): int {
    (a * 4096) % 0x10000 + (b * 64) % 0x1000 + c % 64
  }

  function Join4(a: int, b: int, c: int, d: int): int {
    (a * 0x40000) % 0x200000 + (b * 4096) % 0x40000 + (c * 64) % 0x1000 + d % 64
  }

  function Assemble(s: seq<byte>, pos: nat, length: nat): (cp: nat)
    requires 1 <= length <= 4 && pos + length <= |s|
  {
    if length == 1 then s[pos] as int
    else if length == 2 then Join2(s[pos] as int, s[pos + 1] as int)
    else if length == 3 then Join3(s[pos] as int, s[pos + 1] as int, s[pos + 2] as int)
    else Join4(s[pos] as int, s[pos + 1] as int, s[pos + 2] as int, s[pos + 3] as int)
  }

  function ValidateNext(s: seq<byte>, pos: nat): (r: Step)
    requires pos < |s|
    ensures r.error == Utf8Ok ==> pos < r.next <= |s| && IsCodePointValid(r.codePoint)
    ensures r.error != Utf8Ok ==> r.next == pos
  {
    var length := SequenceLength(s[pos]);
    if length == 0 then Step(InvalidLead, pos, 0)
    else
      var error := TrailError(s, pos, length);
      if error != Utf8Ok then Step(error, pos, 0)
      else
        var cp := Assemble(s, pos, length);
        if !IsCodePointValid(cp) then Step(InvalidCodePoint, pos, 0)
        else if IsOverlong(cp, length) then Step(OverlongSequence, pos, 0)
        else Step(Utf8Ok, pos + length, cp)
  }

  /** On a lead and trails of the right shape, the shifts and masks place the payload bits side by side. */
  lemma JoinIsPositional(a: int, b: int, c: int, d: int)
    requires 0x80 <= b < 0xC0 && 0x80 <= c < 0xC0 && 0x80 <= d < 0xC0
    ensures 0xC0 <= a < 0xE0 ==> Join2(a, b) == (a - 0xC0) * 64 + (b - 0x80)
    ensures 0xE0 <= a < 0xF0 ==> Join3(a, b, c) == (a - 0xE0) * 4096 + (b - 0x80) * 64 + (c - 0x80)
    ensures 0xF0 <= a < 0xF8
        ==> Join4(a, b, c, d) == (a - 0xF0) * 0x40000 + (b - 0x80) * 4096 + (c - 0x80) * 64 + (d - 0x80)
  {
  }

  // ---------------------------------------------------------------- encoding

  /** The octets `append` writes for a valid code point. */
  function Encode(cp: nat): (r: seq<byte>)
    requires IsCodePointValid(cp)
    ensures 1 <= |r| <= 4
  {
    if cp < 0x80 then [cp as byte]
    else if cp < 0x800 then [(0xC0 + cp / 64) as byte, (0x80 + cp % 64) as byte]
    else if cp < 0x10000 then [(0xE0 + cp / 4096) as byte, (0x80 + (cp / 64) % 64) as byte, (0x80 + cp % 64) as byte]
    else [(0xF0 + cp / 0x40000) as byte, (0x80 + (cp / 4096) % 64) as byte,
          (0x80 + (cp / 64) % 64) as byte, (0x80 + cp % 64) as byte]
  }

  predicate AllValid(cps: seq<nat>) {
    forall i :: 0 <= i < |cps| ==> IsCodePointValid(cps[i])
  }

  function EncodeAll(cps: seq<nat>): seq<byte>
    requires AllValid(cps)
  {
    if cps == [] then [] else Encode(cps[0]) + EncodeAll(cps[1..])
  }

  /** The base-64 digits of a number below 2^21 determine it, and it determines them. */
  lemma Base64Digits(cp: nat)
    requires cp < 0x200000
    ensures cp == (cp / 64) * 64 + cp % 64
    ensures cp / 64 == (cp / 4096) * 64 + (cp / 64) % 64
    ensures cp / 4096 == (cp / 0x40000) * 64 + (cp / 4096) % 64
  {
  }

  lemma Base64DigitsUnique(a: int, b: int, c: int, d: int)
    requires 0 <= a < 8 && 0 <= b < 64 && 0 <= c < 64 && 0 <= d < 64
    ensures var cp := a * 0x40000 + b * 4096 + c * 64 + d;
      cp / 0x40000 == a && (cp / 4096) % 64 == b && (cp / 64) % 64 == c && cp % 64 == d
  {
    var cp := a * 0x40000 + b * 4096 + c * 64 + d;
    assert cp / 64 == a * 4096 + b * 64 + c;
    assert cp / 4096 == a * 64 + b;
  }

  /** `e` occurs in `s` at `pos`. */
  predicate At(e: seq<byte>, s: seq<byte>, pos: nat) {
    pos + |e| <= |s| && s[pos..pos + |e|] == e
  }

  /** Decoding the encoding of a code point, whatever surrounds it, gives the code point back. */
  lemma DecodeUndoesEncode(cp: nat, s: seq<byte>, pos: nat)
    requires IsCodePointValid(cp) && At(Encode(cp), s, pos)
    ensures pos < |s| && ValidateNext(s, pos) == Step(Utf8Ok, pos + |Encode(cp)|, cp)
  {
    var e := Encode(cp);
    assert forall k {:trigger e[k]} :: 0 <= k < |e| ==> s[pos + k] == e[k] by {
      assert forall k {:trigger e[k]} :: 0 <= k < |e| ==> s[pos..pos + |e|][k] == e[k];
    }
    Base64Digits(cp);
    if cp < 0x80 {
      assert s[pos] == e[0];
    } else if cp < 0x800 {
      Decodes2(cp, s, pos);
    } else if cp < 0x10000 {
      Decodes3(cp, s, pos);
    } else {
      Decodes4(cp, s, pos);
    }
  }

  lemma Decodes2(cp: nat, s: seq<byte>, pos: nat)
    requires 0x80 <= cp < 0x800 && pos + 2 <= |s| && cp == (cp / 64) * 64 + cp % 64
    requires s[pos] as int == 0xC0 + cp / 64 && s[pos + 1] as int == 0x80 + cp % 64
    ensures ValidateNext(s, pos) == Step(Utf8Ok, pos + 2, cp)
  {
    JoinIsPositional(s[pos] as int, s[pos + 1] as int, 0x80, 0x80);
  }

  lemma Decodes3(cp: nat, s: seq<byte>, pos: nat)
    requires 0x800 <= cp < 0x10000 && IsCodePointValid(cp) && pos + 3 <= |s|
    requires cp == (cp / 64) * 64 + cp % 64 && cp / 64 == (cp / 4096) * 64 + (cp / 64) % 64
    requires s[pos] as int == 0xE0 + cp / 4096 && s[pos + 1] as int == 0x80 + (cp / 64) % 64
    requires s[pos + 2] as int == 0x80 + cp % 64
    ensures ValidateNext(s, pos) == Step(Utf8Ok, pos + 3, cp)
  {
    JoinIsPositional(s[pos] as int, s[pos + 1] as int, s[pos + 2] as int, 0x80);
  }

  lemma Decodes4(cp: nat, s: seq<byte>, pos: nat)
    requires 0x10000 <= cp <= CODE_POINT_MAX && pos + 4 <= |s|
    requires cp == (cp / 64) * 64 + cp % 64 && cp / 64 == (cp / 4096) * 64 + (cp / 64) % 64
    requires cp / 4096 == (cp / 0x40000) * 64 + (cp / 4096) % 64
    requires s[pos] as int == 0xF0 + cp / 0x40000 && s[pos + 1] as int == 0x80 + (cp / 4096) % 64
    requires s[pos + 2] as int == 0x80 + (cp / 64) % 64 && s[pos + 3] as int == 0x80 + cp % 64
    ensures ValidateNext(s, pos) == Step(Utf8Ok, pos + 4, cp)
  {
    JoinIsPositional(s[pos] as int, s[pos + 1] as int, s[pos + 2] as int, s[pos + 3] as int);
  }

  lemma Encodes2(a: int, b: int)
    requires 0xC0 <= a < 0xE0 && 0x80 <= b < 0xC0
    ensures 0x80 <= Join2(a, b) ==> IsCodePointValid(Join2(a, b)) && Encode(Join2(a, b)) == [a as byte, b as byte]
  {
    JoinIsPositional(a, b, 0x80, 0x80);
    Base64DigitsUnique(0, 0, a - 0xC0, b - 0x80);
    assert Join2(a, b) / 64 == a - 0xC0;
  }

  lemma Encodes3(a: int, b: int, c: int)
    requires 0xE0 <= a < 0xF0 && 0x80 <= b < 0xC0 && 0x80 <= c < 0xC0
    ensures 0x800 <= Join3(a, b, c) < 0x10000 && IsCodePointValid(Join3(a, b, c)) ==>
              Encode(Join3(a, b, c)) == [a as byte, b as byte, c as byte]
  {
    JoinIsPositional(a, b, c, 0x80);
    Base64DigitsUnique(0, a - 0xE0, b - 0x80, c - 0x80);
    assert Join3(a, b, c) / 4096 == a - 0xE0;
  }

  lemma Encodes4(a: int, b: int, c: int, d: int)
    requires 0xF0 <= a < 0xF8 && 0x80 <= b < 0xC0 && 0x80 <= c < 0xC0 && 0x80 <= d < 0xC0
    ensures 0x10000 <= Join4(a, b, c, d) <= CODE_POINT_MAX ==>
              Encode(Join4(a, b, c, d)) == [a as byte, b as byte, c as byte, d as byte]
  {
    hide Join4;
    JoinIsPositional(a, b, c, d);
    Base64DigitsUnique(a - 0xF0, b - 0x80, c - 0x80, d - 0x80);
  }

  /** What the decoder accepts is the one encoding of the code point it reports: no overlong or surrogate form. */
  lemma EncodeUndoesDecode(s: seq<byte>, pos: nat)
    requires pos < |s| && ValidateNext(s, pos).error == Utf8Ok
    ensures var r := ValidateNext(s, pos); At(Encode(r.codePoint), s, pos) && r.next == pos + |Encode(r.codePoint)|
  {
    hide Encode, Join2, Join3, Join4;
    var length := SequenceLength(s[pos]);
    if length == 1 {
      EncodesAscii(s[pos]);
    } else if length == 2 {
      Encodes2(s[pos] as int, s[pos + 1] as int);
      SliceIs(s, pos, 2);
    } else if length == 3 {
      JoinIsPositional(s[pos] as int, s[pos + 1] as int, s[pos + 2] as int, 0x80);
      Encodes3(s[pos] as int, s[pos + 1] as int, s[pos + 2] as int);
      SliceIs(s, pos, 3);
    } else {
      Encodes4(s[pos] as int, s[pos + 1] as int, s[pos + 2] as int, s[pos + 3] as int);
      SliceIs(s, pos, 4);
    }
  }

  lemma SliceIs(s: seq<byte>, pos: nat, n: nat)
    requires pos + n <= |s|
    ensures n == 2 ==> s[pos..pos + n] == [s[pos], s[pos + 1]]
    ensures n == 3 ==> s[pos..pos + n] == [s[pos], s[pos + 1], s[pos + 2]]
    ensures n == 4 ==> s[pos..pos + n] == [s[pos], s[pos + 1], s[pos + 2], s[pos + 3]]
  {
  }

  lemma EncodesAscii(b: byte)
    requires b < 0x80
    ensures Encode(b as int) == [b]
  {
  }

  // ---------------------------------------------------------------- scanning

  /** The decoder looks only at what follows: position p of s behaves like position 0 of the suffix. */
  lemma ValidateNextShifts(s: seq<byte>, pos: nat)
    requires pos < |s|
    ensures var a := ValidateNext(s, pos); var b := ValidateNext(s[pos..], 0);
      a.error == b.error && a.codePoint == b.codePoint && a.next == pos + b.next
  {
    var t := s[pos..];
    assert t[0] == s[pos];
    assert forall k {:trigger IncreaseSafely(t, k)} ::
      1 <= k <= 3 ==> IncreaseSafely(s, pos + k) == IncreaseSafely(t, k);
  }

  predicate InRange(cp: nat, lo: nat, hi: nat) {
    lo <= cp <= hi
  }

  /** Does s start with an accepted sequence whose code point lies outside lo..hi? */
  predicate StartsClean(s: seq<byte>, lo: nat, hi: nat) {
    s != [] && ValidateNext(s, 0).error == Utf8Ok && !InRange(ValidateNext(s, 0).codePoint, lo, hi)
  }

  /** Length of the longest prefix made of such sequences. */
  function CleanLength(s: seq<byte>, lo: nat, hi: nat): (n: nat)
    ensures n <= |s|
  {
    if StartsClean(s, lo, hi) then
      var n := ValidateNext(s, 0).next;
      n + CleanLength(s[n..], lo, hi)
    else 0
  }

  /** The value that stands for "no code point of the excluded range". */
  const UINT32_MAX := 0xFFFF_FFFF

  /** `fc::find_invalid`; with lo > hi it is the `utf8::find_invalid` it was adapted from. */
  method FindInvalid(s: seq<byte>, start: nat, lo: nat, hi: nat) returns (pos: nat, value: nat)
    requires start <= |s|
    ensures pos == start + CleanLength(s[start..], lo, hi) <= |s|
    ensures !StartsClean(s[pos..], lo, hi)
    ensures value == if pos < |s| && ValidateNext(s[pos..], 0).error == Utf8Ok
                     then ValidateNext(s[pos..], 0).codePoint else UINT32_MAX
  {
    hide ValidateNext;
    pos := start;
    while pos != |s|
      invariant start <= pos <= |s|
      invariant start + CleanLength(s[start..], lo, hi) == pos + CleanLength(s[pos..], lo, hi)
      decreases |s| - pos
    {
      ValidateNextShifts(s, pos);
      var step := ValidateNext(s, pos);
      if step.error != Utf8Ok {
        return pos, UINT32_MAX;
      }
      if lo <= step.codePoint <= hi {
        return pos, step.codePoint;
      }
      assert s[pos..][step.next - pos..] == s[step.next..];
      pos := step.next;
    }
    value := UINT32_MAX;
  }
}
