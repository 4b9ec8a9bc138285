/** Whole-string conversions between UTF-8, UTF-32 and UTF-16; an exception is `None`. */
module Transcode {
  import opened Bytes
  import opened Options
  import opened Utf8

  newtype word = w: int | 0 <= w < 0x10000

  // ---------------------------------------------------------------- UTF-32

  /** The code points of s, or None if the decoder refuses some sequence of it. */
  function DecodeAll(s: seq<byte>): Option<seq<nat>> {
    if s == [] then Some([])
    else
      var r := ValidateNext(s, 0);
      if r.error != Utf8Ok then None
      else
        match DecodeAll(s[r.next..])
        case None => None
        case Some(rest) => Some([r.codePoint] + rest)
  }

  lemma {:induction false} DecodeAllUndoesEncodeAll(cps: seq<nat>)
    requires AllValid(cps)
    ensures DecodeAll(EncodeAll(cps)) == Some(cps)
  {
    if cps != [] {
      hide ValidateNext, Encode;
      var s := EncodeAll(cps);
      var e := Encode(cps[0]);
      assert At(e, s, 0);
      DecodeUndoesEncode(cps[0], s, 0);
      assert s[|e|..] == EncodeAll(cps[1..]);
      DecodeAllUndoesEncodeAll(cps[1..]);
      assert [cps[0]] + cps[1..] == cps;
    }
  }

  /** Every accepted byte string is re-encoded byte for byte. */
  lemma {:induction false} EncodeAllUndoesDecodeAll(s: seq<byte>, cps: seq<nat>)
    requires DecodeAll(s) == Some(cps)
    ensures AllValid(cps) && EncodeAll(cps) == s
    decreases |s|
  {
    if s != [] {
      var r := ValidateNext(s, 0);
      var rest := s[r.next..];
      DecodeAllHead(s, cps);
      hide *;
      EncodeAllUndoesDecodeAll(rest, cps[1..]);
      EncodeAllCons(cps[0], cps[1..]);
    }
  }

  lemma DecodeAllHead(s: seq<byte>, cps: seq<nat>)
    requires s != [] && DecodeAll(s) == Some(cps)
    ensures var n := ValidateNext(s, 0).next;
      && n <= |s| && |s[n..]| < |s| && cps != [] && cps == [cps[0]] + cps[1..]
      && DecodeAll(s[n..]) == Some(cps[1..])
      && IsCodePointValid(cps[0]) && s == Encode(cps[0]) + s[n..]
  {
    hide ValidateNext, Encode;
    EncodeUndoesDecode(s, 0);
    var r := ValidateNext(s, 0);
    assert s == s[0..r.next] + s[r.next..];
    assert cps[1..] == DecodeAll(s[r.next..]).value;
  }

  lemma EncodeAllCons(cp: nat, cps: seq<nat>)
    requires IsCodePointValid(cp) && AllValid(cps)
    ensures AllValid([cp] + cps) && EncodeAll([cp] + cps) == Encode(cp) + EncodeAll(cps)
  {
    assert ([cp] + cps)[1..] == cps;
  }

  lemma {:induction false} EncodeAllSnoc(cps: seq<nat>, cp: nat)
    requires AllValid(cps) && IsCodePointValid(cp)
    ensures EncodeAll(cps + [cp]) == EncodeAll(cps) + Encode(cp)
  {
    hide Encode;
    if cps == [] {
      assert (cps + [cp])[1..] == [];
    } else {
      EncodeAllSnoc(cps[1..], cp);
      assert (cps + [cp])[1..] == cps[1..] + [cp];
    }
  }

  method Utf32To8(input: seq<nat>) returns (r: Option<seq<byte>>)
    ensures r == if AllValid(input) then Some(EncodeAll(input)) else None
  {
    hide Encode, IsCodePointValid;
    var result: seq<byte> := [];
    for i := 0 to |input|
      invariant AllValid(input[..i]) && result == EncodeAll(input[..i])
    {
      if !IsCodePointValid(input[i]) {
        return None;
      }
      EncodeAllSnoc(input[..i], input[i]);
      assert input[..i] + [input[i]] == input[..i + 1];
      result := result + Encode(input[i]);
    }
    assert input[..|input|] == input;
    return Some(result);
  }

  method Utf8To32(input: seq<byte>) returns (r: Option<seq<nat>>)
    ensures r == DecodeAll(input)
  {
    hide ValidateNext;
    var result: seq<nat> := [];
    var start := 0;
    assert input[0..] == input;
    PrependNothing(DecodeAll(input));
    while start != |input|
      invariant start <= |input|
      invariant DecodeAll(input) == Prepend(result, DecodeAll(input[start..]))
      decreases |input| - start
    {
      ValidateNextShifts(input, start);
      var step := ValidateNext(input, start);
      if step.error != Utf8Ok {
        return None;
      }
      assert input[start..][step.next - start..] == input[step.next..];
      PrependTwice(result, [step.codePoint], DecodeAll(input[step.next..]));
      result := result + [step.codePoint];
      start := step.next;
    }
    assert input[start..] == [];
    assert result + [] == result;
    return Some(result);
  }

  // ---------------------------------------------------------------- UTF-16

  const LEAD_OFFSET := LEAD_SURROGATE_MIN - 0x10000 / 1024
  const SURROGATE_OFFSET := (0x10000 - LEAD_SURROGATE_MIN * 1024 - TRAIL_SURROGATE_MIN) % 0x1_0000_0000

  predicate IsLeadSurrogate(w: word) {
    LEAD_SURROGATE_MIN <= w as int <= LEAD_SURROGATE_MAX
  }

  predicate IsTrailSurrogate(w: word) {
    TRAIL_SURROGATE_MIN <= w as int <= TRAIL_SURROGATE_MAX
  }

  /** The code units `utf8to16` writes for one code point. */
  function Units(cp: nat): (u: seq<word>)
    requires IsCodePointValid(cp)
    ensures 1 <= |u| <= 2
  {
    if cp > 0xFFFF then [((cp / 1024 + LEAD_OFFSET) % 0x10000) as word,
        ((cp % 1024 + TRAIL_SURROGATE_MIN) % 0x10000) as word]
    else [cp as word]
  }

  function UnitsAll(cps: seq<nat>): seq<word>
    requires AllValid(cps)
  {
    if cps == [] then [] else Units(cps[0]) + UnitsAll(cps[1..])
  }

  /** The code point of a surrogate pair, in wrapping 32-bit arithmetic. */
  function Combine(lead: word, trail: word): nat {
    (lead as int * 1024 + trail as int + SURROGATE_OFFSET) % 0x1_0000_0000
  }

  /** The code points of a string of code units, or None on an unpaired surrogate. */
  function PointsOf(w: seq<word>): Option<seq<nat>> {
    if w == [] then Some([])
    else if IsLeadSurrogate(w[0]) then
      if |w| >= 2 && IsTrailSurrogate(w[1]) then Prepend([Combine(w[0], w[1])], PointsOf(w[2..])) else None
    else if IsTrailSurrogate(w[0]) then None
    else Prepend([w[0] as int], PointsOf(w[1..]))
  }

  lemma CombineIsValid(lead: word, trail: word)
    requires IsLeadSurrogate(lead) && IsTrailSurrogate(trail)
    ensures 0xFFFF < Combine(lead, trail) <= CODE_POINT_MAX && Units(Combine(lead, trail)) == [lead, trail]
  {
    var x, y := lead as int - LEAD_SURROGATE_MIN, trail as int - TRAIL_SURROGATE_MIN;
    var cp := (64 + x) * 1024 + y;
    assert Combine(lead, trail) == cp;
    assert cp / 1024 == 64 + x && cp % 1024 == y;
    hide Combine;
  }

  lemma UnitsOfPair(cp: nat)
    requires 0xFFFF < cp <= CODE_POINT_MAX
    ensures var u := Units(cp); |u| == 2 && IsLeadSurrogate(u[0]) && IsTrailSurrogate(u[1]) && Combine(u[0], u[1]) == cp
  {
  }

  lemma {:induction false} PointsOfUndoesUnitsAll(cps: seq<nat>)
    requires AllValid(cps)
    ensures PointsOf(UnitsAll(cps)) == Some(cps)
  {
    if cps != [] {
      PointsOfUndoesUnitsAll(cps[1..]);
      var w := UnitsAll(cps);
      var u := Units(cps[0]);
      assert w[|u|..] == UnitsAll(cps[1..]);
      if cps[0] > 0xFFFF {
        UnitsOfPair(cps[0]);
      }
      assert [cps[0]] + cps[1..] == cps;
    }
  }

  lemma {:induction false} UnitsAllUndoesPointsOf(w: seq<word>)
    requires PointsOf(w).Some?
    ensures AllValid(PointsOf(w).value) && UnitsAll(PointsOf(w).value) == w
    decreases |w|
  {
    if w != [] {
      var cps := PointsOf(w).value;
      if IsLeadSurrogate(w[0]) {
        CombineIsValid(w[0], w[1]);
        UnitsAllUndoesPointsOf(w[2..]);
        assert cps[1..] == PointsOf(w[2..]).value;
        assert w == [w[0], w[1]] + w[2..];
      } else {
        UnitsAllUndoesPointsOf(w[1..]);
        assert cps[1..] == PointsOf(w[1..]).value;
        assert w == [w[0]] + w[1..];
      }
    }
  }

  /** What `utf16to8` and `utf8to16` compute. */
  function From16(w: seq<word>): Option<seq<byte>> {
    match PointsOf(w)
    case None => None
    case Some(cps) =>
      UnitsAllUndoesPointsOf(w);
      Some(EncodeAll(cps))
  }

  function To16(s: seq<byte>): Option<seq<word>> {
    match DecodeAll(s)
    case None => None
    case Some(cps) =>
      EncodeAllUndoesDecodeAll(s, cps);
      Some(UnitsAll(cps))
  }

  method Utf16To8(input: seq<word>) returns (r: Option<seq<byte>>)
    ensures r == From16(input)
  {
    hide Encode, Combine, Units;
    var result: seq<byte> := [];
    ghost var done: seq<nat> := [];
    var start := 0;
    assert input[0..] == input;
    PrependNothing(PointsOf(input));
    while start != |input|
      invariant start <= |input|
      invariant AllValid(done) && result == EncodeAll(done)
      invariant PointsOf(input) == Prepend(done, PointsOf(input[start..]))
      decreases |input| - start
    {
      ghost var w := input[start..];
      var unit := input[start];
      var cp: nat := unit as int;
      start := start + 1;
      if IsLeadSurrogate(unit) {
        if start == |input| {
          return None;
        }
        var trail := input[start];
        start := start + 1;
        if !IsTrailSurrogate(trail) {
          return None;
        }
        CombineIsValid(w[0], w[1]);
        cp := Combine(unit, trail);
        assert w[2..] == input[start..];
      } else if IsTrailSurrogate(unit) {
        return None;
      } else {
        assert w[1..] == input[start..];
      }
      PrependTwice(done, [cp], PointsOf(input[start..]));
      EncodeAllSnoc(done, cp);
      done := done + [cp];
      result := result + Encode(cp);
    }
    assert input[start..] == [];
    assert done + [] == done;
    return Some(result);
  }

  lemma {:induction false} UnitsAllSnoc(cps: seq<nat>, cp: nat)
    requires AllValid(cps) && IsCodePointValid(cp)
    ensures UnitsAll(cps + [cp]) == UnitsAll(cps) + Units(cp)
  {
    if cps == [] {
      assert (cps + [cp])[1..] == [];
    } else {
      UnitsAllSnoc(cps[1..], cp);
      assert (cps + [cp])[1..] == cps[1..] + [cp];
    }
  }

  method Utf8To16(input: seq<byte>) returns (r: Option<seq<word>>)
    ensures r == To16(input)
  {
    hide ValidateNext, Units;
    var result: seq<word> := [];
    ghost var done: seq<nat> := [];
    var start := 0;
    assert input[0..] == input;
    PrependNothing(DecodeAll(input));
    while start != |input|
      invariant start <= |input|
      invariant AllValid(done) && result == UnitsAll(done)
      invariant DecodeAll(input) == Prepend(done, DecodeAll(input[start..]))
      decreases |input| - start
    {
      ValidateNextShifts(input, start);
      var step := ValidateNext(input, start);
      if step.error != Utf8Ok {
        return None;
      }
      assert input[start..][step.next - start..] == input[step.next..];
      PrependTwice(done, [step.codePoint], DecodeAll(input[step.next..]));
      UnitsAllSnoc(done, step.codePoint);
      done := done + [step.codePoint];
      result := result + Units(step.codePoint);
      start := step.next;
    }
    assert input[start..] == [];
    assert done + [] == done;
    return Some(result);
  }

  lemma Utf16RoundTrip(w: seq<word>)
    requires From16(w).Some?
    ensures To16(From16(w).value) == Some(w)
  {
    UnitsAllUndoesPointsOf(w);
    DecodeAllUndoesEncodeAll(PointsOf(w).value);
  }

  lemma Utf8RoundTrip(s: seq<byte>)
    requires To16(s).Some?
    ensures From16(To16(s).value) == Some(s)
  {
    EncodeAllUndoesDecodeAll(s, DecodeAll(s).value);
    PointsOfUndoesUnitsAll(DecodeAll(s).value);
  }
}
