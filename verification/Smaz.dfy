/**
  The small-string compressor: fragments found in a codebook become one byte, everything else is
  kept verbatim in runs of at most 256 bytes.
 */
module Smaz {
  import opened Bytes
  import opened Options

  /**
    The two tables. A slot is a list of entries, each its length, its text and its code, closed by
    a zero; `words[c]` is the text of code c.
   */
  datatype Codebook = Codebook(slots: seq<seq<byte>>, words: seq<seq<byte>>)

  const SLOTS := 241
  const VERBATIM_BYTE: byte := 254
  const VERBATIM_RUN: byte := 255
  const LONGEST := 7

  predicate Shaped(cb: Codebook) {
    |cb.slots| == SLOTS && |cb.words| == 254
  }

  /** The entries of a slot lie inside it, and each says what the reverse table says. */
  predicate SlotAgrees(slot: seq<byte>, words: seq<seq<byte>>)
    requires |words| == 254
    decreases |slot|
  {
    |slot| >= 1 && (slot[0] != 0 ==> EntryAgrees(slot, words) && SlotAgrees(slot[slot[0] as nat + 2..], words))
  }

  predicate EntryAgrees(slot: seq<byte>, words: seq<seq<byte>>)
    requires |words| == 254 && |slot| >= 1
  {
    var n := slot[0] as nat;
    |slot| >= n + 2 && slot[n + 1] < 254 && words[slot[n + 1]] == slot[1..n + 1]
  }

  predicate Agrees(cb: Codebook) {
    Shaped(cb) && forall h :: 0 <= h < SLOTS ==> SlotAgrees(cb.slots[h], cb.words)
  }

  // ---------------------------------------------------------------- the decompressor

  /** What a compressed text stands for; none when a verbatim run is cut short. */
  function Expand(cb: Codebook, code: seq<byte>): Option<seq<byte>>
    requires Shaped(cb)
    decreases |code|
  {
    if code == [] then Some([])
    else if code[0] < VERBATIM_BYTE then Prepend(cb.words[code[0]], Expand(cb, code[1..]))
    else if |code| < 2 then None
    else if code[0] == VERBATIM_BYTE then Prepend([code[1]], Expand(cb, code[2..]))
    else if |code| < code[1] as nat + 3 then None
    else Prepend(code[2..code[1] as nat + 3], Expand(cb, code[code[1] as nat + 3..]))
  }

  /** How many bytes the unit at position c takes. */
  function UnitSize(code: seq<byte>, c: nat): (n: nat)
    requires c < |code|
    ensures n >= 1
    ensures code[c] == VERBATIM_BYTE ==> n == 2
    ensures code[c] == VERBATIM_RUN ==> n >= 2 && (c + 1 < |code| ==> n == code[c + 1] as nat + 3)
    ensures code[c] != VERBATIM_BYTE && code[c] != VERBATIM_RUN ==> n == 1
  {
    if code[c] == VERBATIM_BYTE then 2
    else if code[c] == VERBATIM_RUN && c + 1 < |code| then code[c + 1] as nat + 3
    else if code[c] == VERBATIM_RUN then 2
    else 1
  }

  /** One turn of the decompression loop. */
  lemma ExpandStep(cb: Codebook, code: seq<byte>, c: nat)
    requires Shaped(cb) && c < |code| && Expand(cb, code[c..]).Some?
    ensures code[c] == VERBATIM_BYTE || code[c] == VERBATIM_RUN || code[c] < 254
    ensures var n := UnitSize(code, c); c + n <= |code| && Expand(cb, code[c + n..]).Some?
    ensures code[c] != VERBATIM_BYTE && code[c] != VERBATIM_RUN
      ==> Expand(cb, code[c..]) == Prepend(cb.words[code[c]], Expand(cb, code[c + 1..]))
    ensures code[c] == VERBATIM_BYTE
      ==> Expand(cb, code[c..]) == Prepend([code[c + 1]], Expand(cb, code[c + 2..]))
    ensures code[c] == VERBATIM_RUN
      ==> var n := UnitSize(code, c);
          Expand(cb, code[c..]) == Prepend(code[c + 2..c + n], Expand(cb, code[c + n..]))
  {
    var rest := code[c..];
    assert rest[1..] == code[c + 1..];
    if code[c] == VERBATIM_BYTE {
      assert rest[2..] == code[c + 2..];
    } else if code[c] == VERBATIM_RUN {
      var n := code[c + 1] as nat + 3;
      assert rest[2..n] == code[c + 2..c + n] && rest[n..] == code[c + n..];
    }
  }

  method Decompress(cb: Codebook, code: seq<byte>) returns (text: seq<byte>)
    requires Shaped(cb) && Expand(cb, code).Some?
    ensures Some(text) == Expand(cb, code)
  {
    hide *;
    text := [];
    var c := 0;
    PrependNothing(Expand(cb, code));
    assert code[0..] == code;
    while c < |code|
      invariant 0 <= c <= |code| && Shaped(cb) && Expand(cb, code[c..]).Some?
      invariant Expand(cb, code) == Prepend(text, Expand(cb, code[c..]))
    {
      ExpandStep(cb, code, c);
      ShapedIs(cb);
      ghost var before := text;
      if code[c] == VERBATIM_BYTE {
        text := text + [code[c + 1]];
        c := c + 2;
        PrependTwice(before, [code[c - 1]], Expand(cb, code[c..]));
      } else if code[c] == VERBATIM_RUN {
        var len := code[c + 1] as nat + 1;
        text := text + code[c + 2..c + 2 + len];
        PrependTwice(before, code[c + 2..c + 2 + len], Expand(cb, code[c + 2 + len..]));
        c := c + 2 + len;
      } else {
        text := text + cb.words[code[c]];
        c := c + 1;
        PrependTwice(before, cb.words[code[c - 1]], Expand(cb, code[c..]));
      }
    }
    assert code[c..] == [];
    ExpandNothing(cb);
    PrependIs(text, Some([]));
  }

  lemma ShapedIs(cb: Codebook)
    requires Shaped(cb)
    ensures |cb.words| == 254
  {
  }

  lemma PrependIs(a: seq<byte>, r: Option<seq<byte>>)
    ensures r == Some([]) ==> Prepend(a, r) == Some(a)
  {
    assert a + [] == a;
  }

  lemma ExpandNothing(cb: Codebook)
    requires Shaped(cb)
    ensures Expand(cb, []) == Some([])
  {
  }

  // ---------------------------------------------------------------- looking up a fragment

  /** A byte read through a signed char, as a 32-bit word. */
  function Widened(b: byte): (w: nat)
    ensures w < 0x1_0000_0000
  {
    if b < 128 then b as nat else 0xFFFF_FF00 + b as nat
  }

  /** `a ^ b` on 32-bit words. */
  function XorWord(a: nat, b: nat): nat
    requires a < 0x1_0000_0000 && b < 0x1_0000_0000
  {
    ((a as bv32) ^ (b as bv32)) as nat
  }

  /** The hash of the first j bytes, of which only three are looked at. */
  function Hash(input: seq<byte>, j: nat): nat
    requires 1 <= j <= |input|
  {
    var h1 := Widened(input[0]) * 8 % 0x1_0000_0000;
    if j == 1 then h1
    else
      var h2 := (h1 + Widened(input[1])) % 0x1_0000_0000;
      if j == 2 then h2 else XorWord(h2, Widened(input[2]))
  }

  /** The code of the first entry of a slot that is exactly the first j bytes. */
  function Scan(slot: seq<byte>, words: seq<seq<byte>>, input: seq<byte>, j: nat): Option<byte>
    requires |words| == 254 && SlotAgrees(slot, words) && j <= |input|
    decreases |slot|
  {
    var n := slot[0] as nat;
    if n == 0 then None
    else if n == j && slot[1..n + 1] == input[..j] then Some(slot[n + 1])
    else Scan(slot[n + 2..], words, input, j)
  }

  lemma {:induction false} ScanIsSound(slot: seq<byte>, words: seq<seq<byte>>, input: seq<byte>, j: nat)
    requires |words| == 254 && SlotAgrees(slot, words) && j <= |input|
    ensures var r := Scan(slot, words, input, j); r.Some? ==> r.value < 254 && words[r.value] == input[..j]
    decreases |slot|
  {
    if slot[0] != 0 {
      ScanIsSound(slot[slot[0] as nat + 2..], words, input, j);
    }
  }

  datatype Match = Match(length: nat, code: byte)

  /** The longest fragment, of at most j bytes, that its slot holds. */
  function Longest(cb: Codebook, input: seq<byte>, j: nat): Option<Match>
    requires Agrees(cb) && j <= |input|
    decreases j
  {
    if j == 0 then None
    else
      var r := Scan(cb.slots[Hash(input, j) % SLOTS], cb.words, input, j);
      if r.Some? then Some(Match(j, r.value)) else Longest(cb, input, j - 1)
  }

  function Limit(input: seq<byte>): nat {
    if |input| < LONGEST then |input| else LONGEST
  }

  function Lookup(cb: Codebook, input: seq<byte>): Option<Match>
    requires Agrees(cb)
  {
    Longest(cb, input, Limit(input))
  }

  lemma {:induction false} LongestIsSound(cb: Codebook, input: seq<byte>, j: nat)
    requires Agrees(cb) && j <= |input|
    ensures var r := Longest(cb, input, j);
      r.Some? ==> 1 <= r.value.length <= j && r.value.code < 254 && cb.words[r.value.code] == input[..r.value.length]
    decreases j
  {
    hide Hash, Scan, SlotAgrees;
    if j > 0 {
      ScanIsSound(cb.slots[Hash(input, j) % SLOTS], cb.words, input, j);
      LongestIsSound(cb, input, j - 1);
    }
  }

  /** One entry of a slot. */
  lemma ScanStep(slot: seq<byte>, p: nat, words: seq<seq<byte>>, input: seq<byte>, j: nat)
    requires |words| == 254 && p < |slot| && SlotAgrees(slot[p..], words) && j <= |input|
    ensures slot[p] == 0 ==> Scan(slot[p..], words, input, j) == None
    ensures slot[p] != 0 ==>
              var q := p + slot[p] as nat + 2;
              q < |slot| && SlotAgrees(slot[q..], words)
              && Scan(slot[p..], words, input, j) ==
                 if slot[p] as nat == j && slot[p + 1..p + 1 + j] == input[..j] then Some(slot[q - 1])
                 else Scan(slot[q..], words, input, j)
  {
    hide *;
    var n := slot[p] as nat;
    var rest := slot[p..];
    ScanHead(rest, words, input, j);
    if n != 0 {
      assert rest[1..n + 1] == slot[p + 1..p + 1 + n] && rest[n + 2..] == slot[p + n + 2..];
    }
  }

  lemma ScanHead(slot: seq<byte>, words: seq<seq<byte>>, input: seq<byte>, j: nat)
    requires |words| == 254 && SlotAgrees(slot, words) && j <= |input|
    ensures slot != []
    ensures slot[0] == 0 ==> Scan(slot, words, input, j) == None
    ensures slot[0] != 0 ==>
              var n := slot[0] as nat;
              n + 2 < |slot| && SlotAgrees(slot[n + 2..], words)
              && Scan(slot, words, input, j) ==
                 if n == j && slot[1..n + 1] == input[..j] then Some(slot[n + 1])
                 else Scan(slot[n + 2..], words, input, j)
  {
  }

  method ScanSlot(cb: Codebook, slot: seq<byte>, input: seq<byte>, j: nat) returns (r: Option<byte>)
    requires |cb.words| == 254 && SlotAgrees(slot, cb.words) && j <= |input|
    ensures r == Scan(slot, cb.words, input, j)
  {
    hide *;
    ScanHead(slot, cb.words, input, j);
    assert slot[0..] == slot;
    var p := 0;
    while slot[p] != 0
      invariant 0 <= p < |slot| && SlotAgrees(slot[p..], cb.words)
      invariant Scan(slot, cb.words, input, j) == Scan(slot[p..], cb.words, input, j)
      decreases |slot| - p
    {
      ScanStep(slot, p, cb.words, input, j);
      var n := slot[p] as nat;
      if n == j && slot[p + 1..p + 1 + j] == input[..j] {
        return Some(slot[p + n + 1]);
      }
      p := p + n + 2;
    }
    ScanStep(slot, p, cb.words, input, j);
    return None;
  }

  method FindMatch(cb: Codebook, input: seq<byte>) returns (r: Option<Match>)
    requires Agrees(cb)
    ensures r == Lookup(cb, input)
  {
    hide Hash, Scan, SlotAgrees;
    var j: nat := Limit(input);
    while j > 0
      invariant j <= |input| && Lookup(cb, input) == Longest(cb, input, j)
    {
      var c := ScanSlot(cb, cb.slots[Hash(input, j) % SLOTS], input, j);
      if c.Some? {
        return Some(Match(j, c.value));
      }
      j := j - 1;
    }
    return None;
  }

  // ---------------------------------------------------------------- the compressor

  /** A run of verbatim bytes as it is written out. */
  function Flush(verb: seq<byte>): (f: seq<byte>)
    requires |verb| <= 256
    ensures |f| == Needed(|verb|)
  {
    if verb == [] then []
    else if |verb| == 1 then [VERBATIM_BYTE, verb[0]]
    else [VERBATIM_RUN, (|verb| - 1) as byte] + verb
  }

  function Needed(n: nat): nat {
    if n == 0 then 0 else if n == 1 then 2 else 2 + n
  }

  /** The compressed form of the rest of the input, with some verbatim bytes pending. */
  function Encode(cb: Codebook, input: seq<byte>, verb: seq<byte>): seq<byte>
    requires Agrees(cb) && |verb| < 256
    decreases |input|
  {
    if input == [] then Flush(verb)
    else
      var r := Lookup(cb, input);
      LongestIsSound(cb, input, Limit(input));
      if r.Some? then Flush(verb) + [r.value.code] + Encode(cb, input[r.value.length..], [])
      else if |verb| == 255 then Flush(verb + [input[0]]) + Encode(cb, input[1..], [])
      else Encode(cb, input[1..], verb + [input[0]])
  }

  function Compressed(cb: Codebook, input: seq<byte>): seq<byte>
    requires Agrees(cb)
  {
    Encode(cb, input, [])
  }

  lemma ExpandRun(cb: Codebook, verb: seq<byte>, rest: seq<byte>, text: seq<byte>)
    requires Shaped(cb) && |verb| <= 256 && Expand(cb, rest) == Some(text)
    ensures Expand(cb, Flush(verb) + rest) == Some(verb + text)
  {
    var f := Flush(verb) + rest;
    if verb == [] {
      assert f == rest;
      assert verb + text == text;
    } else if |verb| == 1 {
      assert f[2..] == rest && [f[1]] == verb;
    } else {
      assert f[1] as nat + 3 == |verb| + 2;
      assert f[2..|verb| + 2] == verb && f[|verb| + 2..] == rest;
    }
  }

  lemma ExpandCode(cb: Codebook, c: byte, rest: seq<byte>, text: seq<byte>)
    requires Shaped(cb) && c < 254 && Expand(cb, rest) == Some(text)
    ensures Expand(cb, [c] + rest) == Some(cb.words[c] + text)
  {
    assert ([c] + rest)[1..] == rest;
  }

  /** What has been written, then the verbatim buffer, is the input consumed so far. */
  lemma {:induction false} ExpandUndoesEncode(cb: Codebook, input: seq<byte>, verb: seq<byte>)
    requires Agrees(cb) && |verb| < 256
    ensures Shaped(cb) && Expand(cb, Encode(cb, input, verb)) == Some(verb + input)
    decreases |input|
  {
    hide *;
    AgreesIs(cb);
    if input == [] {
      EncodeEnd(cb, verb);
      ExpandNothing(cb);
      ExpandRun(cb, verb, [], []);
      assert Flush(verb) + [] == Flush(verb);
    } else {
      UnfoldEncode(cb, input, verb);
      var r := Lookup(cb, input);
      if r.Some? {
        var c, after := r.value.code, input[r.value.length..];
        ExpandUndoesEncode(cb, after, []);
        var rest := Encode(cb, after, []);
        assert [] + after == after;
        ExpandCode(cb, c, rest, after);
        ExpandRun(cb, verb, [c] + rest, cb.words[c] + after);
        assert Flush(verb) + [c] + rest == Flush(verb) + ([c] + rest);
        assert cb.words[c] + after == input;
      } else if |verb| == 255 || |input| == 1 {
        ExpandUndoesEncode(cb, input[1..], []);
        assert [] + input[1..] == input[1..];
        ExpandRun(cb, verb + [input[0]], Encode(cb, input[1..], []), input[1..]);
        assert verb + [input[0]] + input[1..] == verb + input;
      } else {
        ExpandUndoesEncode(cb, input[1..], verb + [input[0]]);
        assert verb + [input[0]] + input[1..] == verb + input;
      }
    }
  }

  lemma AgreesIs(cb: Codebook)
    requires Agrees(cb)
    ensures Shaped(cb) && |cb.words| == 254
  {
  }

  lemma EncodeEnd(cb: Codebook, verb: seq<byte>)
    requires Agrees(cb) && |verb| < 256
    ensures Encode(cb, [], verb) == Flush(verb)
  {
  }

  /** Twice the input is always enough room. */
  lemma {:induction false} EncodeAtMostDoubles(cb: Codebook, input: seq<byte>, verb: seq<byte>)
    requires Agrees(cb) && |verb| < 256
    ensures |Encode(cb, input, verb)| <= 2 * |verb| + 2 * |input|
    decreases |input|
  {
    hide *;
    NeededAtMostDoubles(|verb|);
    NeededAtMostDoubles(|verb| + 1);
    if input == [] {
      EncodeEnd(cb, verb);
    } else {
      UnfoldEncode(cb, input, verb);
      var r := Lookup(cb, input);
      if r.Some? {
        EncodeAtMostDoubles(cb, input[r.value.length..], []);
      } else if |verb| == 255 || |input| == 1 {
        EncodeAtMostDoubles(cb, input[1..], []);
      } else {
        EncodeAtMostDoubles(cb, input[1..], verb + [input[0]]);
      }
    }
  }

  lemma NeededAtMostDoubles(n: nat)
    ensures Needed(n) <= 2 * n
  {
  }

  /** `memcpy(out + at, verb, n)`. */
  method CopyTo(out: array<byte>, at: nat, verb: array<byte>, n: nat)
    requires out != verb && n <= verb.Length && at + n <= out.Length
    modifies out
    ensures forall k :: 0 <= k < out.Length ==> out[k] == if at <= k < at + n then verb[k - at] else old(out[k])
  {
    for k := 0 to n
      invariant forall i :: 0 <= i < out.Length ==> out[i] == if at <= i < at + k then verb[i - at] else old(out[i])
    {
      out[at + k] := verb[k];
    }
  }

  lemma FlushOfRun(verb: seq<byte>)
    requires 2 <= |verb| <= 256
    ensures Flush(verb) == [VERBATIM_RUN, (|verb| - 1) as byte] + verb && Needed(|verb|) == 2 + |verb|
  {
  }

  /** Writes a verbatim run of n bytes at position `at`. */
  method WriteRun(out: array<byte>, at: nat, verb: array<byte>, n: nat)
    requires out != verb && 1 <= n <= 256 <= verb.Length && at + Needed(n) <= out.Length
    modifies out
    ensures out[..at + Needed(n)] == old(out[..at]) + Flush(verb[..n])
    ensures forall k :: at + Needed(n) <= k < out.Length ==> out[k] == old(out[k])
  {
    if n == 1 {
      out[at] := VERBATIM_BYTE;
      out[at + 1] := verb[0];
    } else {
      out[at] := VERBATIM_RUN;
      out[at + 1] := (n - 1) as byte;
      CopyTo(out, at + 2, verb, n);
      FlushOfRun(verb[..n]);
      hide Flush;
      assert out[at + 2..at + 2 + n] == verb[..n];
    }
  }

  /** Writes a verbatim run into the room kept for it between what was written before and after. */
  method FillGap(out: array<byte>, at: nat, verb: array<byte>, n: nat, ghost done: seq<byte>, ghost tail: seq<byte>)
    requires out != verb && 1 <= n <= 256 <= verb.Length && at + Needed(n) + |tail| <= out.Length
    requires out[..at] == done && out[at + Needed(n)..at + Needed(n) + |tail|] == tail
    modifies out
    ensures out[..at + Needed(n) + |tail|] == done + Flush(verb[..n]) + tail
  {
    hide *;
    ghost var after := at + Needed(n);
    ghost var was := out[after..after + |tail|];
    WriteRun(out, at, verb, n);
    assert out[after..after + |tail|] == was;
    assert out[..after + |tail|] == out[..after] + out[after..after + |tail|];
  }

  /**
    Reports the length of the compressed text and writes exactly that text, or reports one more
    than the room there is, exactly when the text does not fit.
   */
  method Compress(cb: Codebook, input: seq<byte>, out: array<byte>) returns (r: nat)
    requires Agrees(cb)
    modifies out
    ensures r == if |Compressed(cb, input)| <= out.Length then |Compressed(cb, input)| else out.Length + 1
    ensures r <= out.Length ==> out[..r] == Compressed(cb, input)
    ensures r <= out.Length ==> Expand(cb, out[..r]) == Some(input)
  {
    hide *;
    var verb := new byte[256];
    var verblen, pos, i := 0, 0, 0;
    ghost var whole := Compressed(cb, input);
    Start(cb, input);
    assert out[..0] == [] && input[0..] == input && verb[..0] == [];
    while i < |input|
      invariant 0 <= i <= |input| && 0 <= verblen < 256 && 0 <= pos <= out.Length
      invariant i == |input| ==> verblen == 0
      invariant Written(cb, whole, out[..pos], input[i..], verb[..verblen])
    {
      ghost var rest, pending, done := input[i..], verb[..verblen], out[..pos];
      Turn(cb, whole, done, rest, pending);
      NeededFacts(verblen);
      var flush := -1;
      var found := FindMatch(cb, input[i..]);
      if found.Some? {
        if verblen > 0 {
          flush := pos;
          pos := pos + Needed(verblen);
        }
        if out.Length - pos <= 0 {
          return out.Length + 1;
        }
        out[pos] := found.value.code;
        pos := pos + 1;
        i := i + found.value.length;
        assert input[i..] == rest[found.value.length..];
      } else {
        verb[verblen] := input[i];
        verblen := verblen + 1;
        i := i + 1;
        assert verb[..verblen] == pending + [rest[0]];
        assert input[i..] == rest[1..];
      }
      NeededFacts(verblen);
      if flush < 0 && (verblen == 256 || (verblen > 0 && i == |input|)) {
        flush := pos;
        pos := pos + Needed(verblen);
        if out.Length - pos < 0 {
          return out.Length + 1;
        }
      }
      if flush >= 0 {
        FillGap(out, flush, verb, verblen, done, if found.Some? then [found.value.code] else []);
        assert found.None? ==> out[..pos] == done + Flush(pending + [rest[0]]);
        verblen := 0;
      } else if found.Some? {
        assert out[..pos] == done + Flush(pending) + [found.value.code];
      } else {
        assert out[..pos] == done;
      }
      assert verb[..0] == [];
    }
    assert input[i..] == [] && verb[..0] == [];
    Finish(cb, input, out[..pos]);
    return pos;
  }

  /** What has been written and what is still to come, with some verbatim bytes pending, make up the whole. */
  ghost predicate Written(cb: Codebook, whole: seq<byte>, done: seq<byte>, rest: seq<byte>, pending: seq<byte>) {
    Agrees(cb) && |pending| < 256 && whole == done + Encode(cb, rest, pending)
  }

  lemma Start(cb: Codebook, input: seq<byte>)
    requires Agrees(cb)
    ensures Written(cb, Compressed(cb, input), [], input, [])
  {
    hide Agrees, Encode;
    assert [] + Encode(cb, input, []) == Encode(cb, input, []);
  }

  lemma Finish(cb: Codebook, input: seq<byte>, done: seq<byte>)
    requires Agrees(cb) && Written(cb, Compressed(cb, input), done, [], [])
    ensures done == Compressed(cb, input) && Shaped(cb) && Expand(cb, done) == Some(input)
  {
    hide Agrees, Encode, Expand;
    EncodeNothing(cb);
    assert done + [] == done;
    ExpandUndoesEncode(cb, input, []);
    assert [] + input == input;
  }

  /** One turn of the compression loop. */
  lemma Turn(cb: Codebook, whole: seq<byte>, done: seq<byte>, rest: seq<byte>, pending: seq<byte>)
    requires Written(cb, whole, done, rest, pending) && rest != []
    ensures Agrees(cb) && |pending| < 256
    ensures var r := Lookup(cb, rest);
      if r.Some? then
        1 <= r.value.length <= |rest|
        && Written(cb, whole, done + Flush(pending) + [r.value.code], rest[r.value.length..], [])
        && |whole| >= |done| + Needed(|pending|) + 1
      else if |pending| == 255 || |rest| == 1 then
        Written(cb, whole, done + Flush(pending + [rest[0]]), rest[1..], [])
        && |whole| >= |done| + Needed(|pending| + 1)
      else
        Written(cb, whole, done, rest[1..], pending + [rest[0]])
  {
    hide Agrees, Encode, Lookup, Flush;
    UnfoldEncode(cb, rest, pending);
    var r := Lookup(cb, rest);
    if r.Some? {
      Regroup(done, Flush(pending), [r.value.code], Encode(cb, rest[r.value.length..], []));
    } else if |pending| == 255 || |rest| == 1 {
      Regroup(done, [], Flush(pending + [rest[0]]), Encode(cb, rest[1..], []));
      assert done + [] == done && [] + Flush(pending + [rest[0]]) == Flush(pending + [rest[0]]);
    }
  }

  lemma Regroup(a: seq<byte>, b: seq<byte>, c: seq<byte>, d: seq<byte>)
    ensures a + (b + c + d) == a + b + c + d
  {
  }

  lemma CompressedIs(cb: Codebook, input: seq<byte>)
    requires Agrees(cb)
    ensures Compressed(cb, input) == Encode(cb, input, [])
  {
  }

  lemma EncodeNothing(cb: Codebook)
    requires Agrees(cb)
    ensures Encode(cb, [], []) == []
  {
  }

  lemma NeededFacts(n: nat)
    ensures n == 0 <==> Needed(n) == 0
    ensures n == 0 ==> Flush([]) == []
  {
  }

  /** One turn of the compression loop. */
  lemma UnfoldEncode(cb: Codebook, input: seq<byte>, verb: seq<byte>)
    requires Agrees(cb) && |verb| < 256 && input != []
    ensures Shaped(cb)
    ensures var r := Lookup(cb, input);
      if r.Some? then
        1 <= r.value.length <= |input| && r.value.code < 254
        && cb.words[r.value.code] == input[..r.value.length]
        && Encode(cb, input, verb) == Flush(verb) + [r.value.code] + Encode(cb, input[r.value.length..], [])
      else if |verb| == 255 || |input| == 1 then
        Encode(cb, input, verb) == Flush(verb + [input[0]]) + Encode(cb, input[1..], [])
      else
        Encode(cb, input, verb) == Encode(cb, input[1..], verb + [input[0]])
  {
    LongestIsSound(cb, input, Limit(input));
    hide Flush, Longest;
    EncodeNothing(cb);
  }

  /** The string form gives room for as many bytes as there are in the input, and fails on the rest. */
  method CompressString(cb: Codebook, input: seq<byte>) returns (r: Option<seq<byte>>)
    requires Agrees(cb)
    ensures r == if |Compressed(cb, input)| <= |input| then Some(Compressed(cb, input)) else None
    ensures r.Some? ==> Expand(cb, r.value) == Some(input)
  {
    hide *;
    var out := new byte[|input|];
    var n := Compress(cb, input, out);
    return if n <= |input| then Some(out[..n]) else None;
  }

  /** Decompressing a compressed text gives the text back, and the compressed text is at most twice as long. */
  lemma RoundTrip(cb: Codebook, input: seq<byte>)
    requires Agrees(cb)
    ensures Expand(cb, Compressed(cb, input)) == Some(input)
    ensures |Compressed(cb, input)| <= 2 * |input|
  {
    hide *;
    CompressedIs(cb, input);
    ExpandUndoesEncode(cb, input, []);
    EncodeAtMostDoubles(cb, input, []);
    assert [] + input == input;
  }
}
