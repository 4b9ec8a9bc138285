/** The sanitiser, which removes what a strict reader of UTF-8 would refuse, and what it leaves alone. */
module Sanitizer {
  import opened Bytes
  import opened Utf8

  // ---------------------------------------------------------------- the sanitiser

  const C1_FIRST := 0x80
  const C1_LAST := 0x9F

  predicate IsC1(cp: nat) {
    InRange(cp, C1_FIRST, C1_LAST)
  }

  /** The property `is_valid_utf8` decides: well-formed, and no code point U+0080..U+009F. */
  ghost predicate Clean(s: seq<byte>) {
    exists cps: seq<nat> :: EncodesClean(cps, s)
  }

  ghost predicate EncodesClean(cps: seq<nat>, s: seq<byte>) {
    && AllValid(cps)
    && (forall i :: 0 <= i < |cps| ==> !IsC1(cps[i]))
    && EncodeAll(cps) == s
  }

  lemma CleanCons(cp: nat, s: seq<byte>)
    requires IsCodePointValid(cp) && !IsC1(cp) && Clean(s)
    ensures Clean(Encode(cp) + s)
  {
    var cps :| EncodesClean(cps, s);
    assert ([cp] + cps)[1..] == cps;
    assert EncodesClean([cp] + cps, Encode(cp) + s);
  }

  lemma CleanConcat(a: seq<byte>, b: seq<byte>)
    requires Clean(a) && Clean(b)
    ensures Clean(a + b)
  {
    var cps :| EncodesClean(cps, a);
    CleanConcatPoints(cps, b);
  }

  lemma {:induction false} CleanConcatPoints(cps: seq<nat>, b: seq<byte>)
    requires EncodesClean(cps, if AllValid(cps) then EncodeAll(cps) else []) && Clean(b)
    ensures Clean(EncodeAll(cps) + b)
  {
    if cps == [] {
      assert EncodeAll(cps) + b == b;
    } else {
      assert EncodesClean(cps[1..], EncodeAll(cps[1..]));
      CleanConcatPoints(cps[1..], b);
      CleanCons(cps[0], EncodeAll(cps[1..]) + b);
      assert EncodeAll(cps) + b == Encode(cps[0]) + (EncodeAll(cps[1..]) + b);
    }
  }

  lemma EmptyIsClean()
    ensures Clean([])
  {
    assert EncodesClean([], []);
  }

  lemma AsciiIsClean(s: seq<byte>)
    requires forall i :: 0 <= i < |s| ==> s[i] < 0x80
    ensures Clean(s)
  {
    if s == [] {
      EmptyIsClean();
    } else {
      AsciiIsClean(s[1..]);
      CleanCons(s[0] as int, s[1..]);
      assert s == Encode(s[0] as int) + s[1..];
    }
  }

  /** The scan reaches the end exactly on clean strings. */
  lemma {:induction false} CleanIffScanned(s: seq<byte>)
    ensures CleanLength(s, C1_FIRST, C1_LAST) == |s| <==> Clean(s)
    decreases |s|
  {
    hide ValidateNext, Encode, Clean;
    if s == [] {
      EmptyIsClean();
    } else if StartsClean(s, C1_FIRST, C1_LAST) {
      var r := ValidateNext(s, 0);
      EncodeUndoesDecode(s, 0);
      assert s == Encode(r.codePoint) + s[r.next..];
      CleanIffScanned(s[r.next..]);
      if Clean(s[r.next..]) {
        CleanCons(r.codePoint, s[r.next..]);
      }
      if Clean(s) {
        CleanTail(s);
      }
    } else if Clean(s) {
      CleanTail(s);
      assert false;
    }
  }

  /** A non-empty clean string starts with an accepted sequence, and stays clean without it. */
  lemma CleanTail(s: seq<byte>)
    requires Clean(s) && s != []
    ensures StartsClean(s, C1_FIRST, C1_LAST)
    ensures Clean(s[ValidateNext(s, 0).next..])
  {
    var cps :| EncodesClean(cps, s);
    var e := Encode(cps[0]);
    assert At(e, s, 0) by {
      assert s == e + EncodeAll(cps[1..]);
    }
    DecodeUndoesEncode(cps[0], s, 0);
    assert s[|e|..] == EncodeAll(cps[1..]);
    assert EncodesClean(cps[1..], s[|e|..]);
  }

  method IsValidUtf8(s: seq<byte>) returns (valid: bool)
    ensures valid <==> Clean(s)
  {
    var pos, value := FindInvalid(s, 0, C1_FIRST, C1_LAST);
    CleanIffScanned(s);
    assert s[0..] == s;
    valid := pos == |s|;
  }

  function HexDigit(d: nat): byte
    requires d < 16
  {
    if d < 10 then ZERO + d as byte else 87 + d as byte
  }

  /** The six characters \u00xx. */
  function UnicodeEscape(v: nat): (r: seq<byte>)
    requires v < 256
    ensures |r| == 6 && forall i :: 0 <= i < |r| ==> SPACE <= r[i] < DEL
  {
    [BACKSLASH, 117, ZERO, ZERO, HexDigit(v / 16), HexDigit(v % 16)]
  }

  /** How many octets the sanitiser settles at once, and what it writes for them. */
  function UnitLength(s: seq<byte>): (n: nat)
    requires s != []
    ensures 1 <= n <= |s|
  {
    if ValidateNext(s, 0).error == Utf8Ok then ValidateNext(s, 0).next else 1
  }

  function UnitText(s: seq<byte>): seq<byte>
    requires s != []
  {
    var r := ValidateNext(s, 0);
    if r.error != Utf8Ok then []
    else if IsC1(r.codePoint) then UnicodeEscape(r.codePoint)
    else s[..r.next]
  }

  /** Accepted sequences are kept, C1 characters are spelled out, every other octet is dropped. */
  function Sanitize(s: seq<byte>): seq<byte> {
    if s == [] then [] else UnitText(s) + Sanitize(s[UnitLength(s)..])
  }

  lemma SanitizeKeepsCleanUnit(s: seq<byte>)
    requires StartsClean(s, C1_FIRST, C1_LAST)
    ensures var k := ValidateNext(s, 0).next; Sanitize(s) == s[..k] + Sanitize(s[k..])
  {
    hide ValidateNext;
  }

  lemma {:induction false} SanitizeKeepsCleanPrefix(s: seq<byte>)
    ensures var n := CleanLength(s, C1_FIRST, C1_LAST); Sanitize(s) == s[..n] + Sanitize(s[n..])
    decreases |s|
  {
    hide ValidateNext, Sanitize;
    var n := CleanLength(s, C1_FIRST, C1_LAST);
    if StartsClean(s, C1_FIRST, C1_LAST) {
      SanitizeKeepsCleanUnit(s);
      var k := ValidateNext(s, 0).next;
      var t := s[k..];
      SanitizeKeepsCleanPrefix(t);
      assert t[n - k..] == s[n..];
      assert s[..n] == s[..k] + t[..n - k];
    } else {
      assert s[n..] == s;
    }
  }

  /** A C1 character is two octets; the second alone is no lead octet, so it is dropped. */
  lemma C1IsTwoOctets(s: seq<byte>)
    requires s != [] && ValidateNext(s, 0).error == Utf8Ok && IsC1(ValidateNext(s, 0).codePoint)
    ensures ValidateNext(s, 0).next == 2 && ValidateNext(s[1..], 0).error == InvalidLead
  {
    var cp := ValidateNext(s, 0).codePoint;
    EncodeUndoesDecode(s, 0);
    assert |Encode(cp)| == 2 && s[0..2] == Encode(cp);
    assert s[1..][0] == s[0..2][1] == Encode(cp)[1];
    assert SequenceLength(s[1..][0]) == 0;
  }

  lemma SanitizeC1(s: seq<byte>)
    requires s != [] && ValidateNext(s, 0).error == Utf8Ok && IsC1(ValidateNext(s, 0).codePoint)
    ensures Sanitize(s) == UnicodeEscape(ValidateNext(s, 0).codePoint) + Sanitize(s[1..])
  {
    C1IsTwoOctets(s);
    hide ValidateNext, UnicodeEscape;
    assert Sanitize(s[1..]) == Sanitize(s[2..]) by {
      assert s[1..][1..] == s[2..];
      assert UnitText(s[1..]) + Sanitize(s[2..]) == Sanitize(s[2..]);
    }
  }

  /** What the octets after the stop at pos contribute. */
  ghost function Remaining(s: seq<byte>, pos: nat): seq<byte>
    requires pos <= |s|
  {
    if pos == |s| then [] else Sanitize(s[pos + 1..])
  }

  method PruneInvalidUtf8(s: seq<byte>) returns (result: seq<byte>)
    ensures result == Sanitize(s)
  {
    hide ValidateNext, Sanitize, CleanLength, UnicodeEscape;
    var pos, value := FindInvalid(s, 0, C1_FIRST, C1_LAST);
    assert s[0..] == s;
    SanitizeKeepsCleanPrefix(s);
    PruneStep(s, pos, value);
    if pos == |s| {
      return s;
    }
    result := s[..pos];
    if value != UINT32_MAX {
      result := result + UnicodeEscape(value);
    }
    while pos != |s|
      invariant pos <= |s|
      invariant Sanitize(s) == result + Remaining(s, pos)
      decreases |s| - pos
    {
      pos := pos + 1;
      var start := pos;
      pos, value := FindInvalid(s, start, C1_FIRST, C1_LAST);
      SanitizeKeepsCleanPrefix(s[start..]);
      assert s[start..][..pos - start] == s[start..pos] && s[start..][pos - start..] == s[pos..];
      result := result + s[start..pos];
      if value != UINT32_MAX {
        result := result + UnicodeEscape(value);
      }
      PruneStep(s, pos, value);
    }
  }

  /** What is left to write when the scan has stopped at pos. */
  lemma PruneStep(s: seq<byte>, pos: nat, value: nat)
    requires pos <= |s| && !StartsClean(s[pos..], C1_FIRST, C1_LAST)
    requires value == if pos < |s| && ValidateNext(s[pos..], 0).error == Utf8Ok
                      then ValidateNext(s[pos..], 0).codePoint else UINT32_MAX
    ensures value != UINT32_MAX ==> value < 256
    ensures Sanitize(s[pos..]) == (if value != UINT32_MAX then UnicodeEscape(value) else []) + Remaining(s, pos)
  {
    if pos < |s| {
      assert s[pos..][1..] == s[pos + 1..];
      if value != UINT32_MAX {
        SanitizeC1(s[pos..]);
      }
    }
  }

  /** The sanitiser's output is always accepted. */
  lemma {:induction false} SanitizeIsClean(s: seq<byte>)
    ensures Clean(Sanitize(s))
    decreases |s|
  {
    if s == [] {
      EmptyIsClean();
    } else {
      var rest := s[UnitLength(s)..];
      SanitizeIsClean(rest);
      var r := ValidateNext(s, 0);
      if r.error != Utf8Ok {
        EmptyIsClean();
      } else if IsC1(r.codePoint) {
        AsciiIsClean(UnitText(s));
      } else {
        EncodeUndoesDecode(s, 0);
        EmptyIsClean();
        CleanCons(r.codePoint, []);
        assert UnitText(s) == Encode(r.codePoint) + [];
      }
      CleanConcat(UnitText(s), Sanitize(rest));
    }
  }

  /** It changes exactly the strings that are not accepted. */
  lemma SanitizeIsIdentityIffClean(s: seq<byte>)
    ensures Sanitize(s) == s <==> Clean(s)
  {
    if Clean(s) {
      CleanIffScanned(s);
      SanitizeKeepsCleanPrefix(s);
      assert s[..|s|] == s;
    } else {
      SanitizeIsClean(s);
    }
  }

  lemma SanitizeIsIdempotent(s: seq<byte>)
    ensures Sanitize(Sanitize(s)) == Sanitize(s)
  {
    SanitizeIsClean(s);
    SanitizeIsIdentityIffClean(Sanitize(s));
  }
}
