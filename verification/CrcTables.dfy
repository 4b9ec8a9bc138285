/** The lookup tables of CRC-32C and the loop that uses eight of them at once. */
module CrcTables {
  import opened Bytes
  import opened Bits
  import opened Crc32c

  /** Eight tables of 256 words; table k is crc_tableil8_o32, o40, .. o88 for k = 0 .. 7. */
  type Tables = seq<seq<Word>>

  predicate Shaped(t: Tables) {
    |t| == 8 && forall k :: 0 <= k < 8 ==> |t[k]| == 256
  }

  function Index(b: Octet): (i: nat)
    ensures i < 256
  {
    FromBitsBound(b);
    assert Pow2(8) == 256 by {
      assert Pow2(4) == 16 && Pow2(8) == 16 * Pow2(4);
    }
    FromBits(b)
  }

  /** The recurrence of the source's header comment. */
  predicate Generated(t: Tables) {
    && Shaped(t)
    && (forall i :: 0 <= i < 256 ==> t[0][i] == ByteStep(ToBits(i, 32)))
    && (forall k :: 1 <= k < 8 ==> RowFollows(t, k))
  }

  /** Row k comes from row k - 1. */
  predicate RowFollows(t: Tables, k: nat)
    requires 1 <= k < |t| && |t[0]| == |t[k]| == |t[k - 1]| == 256
  {
    forall i :: 0 <= i < 256 ==> t[k][i] == NextEntry(t[0], t[k - 1][i])
  }

  /** The entry of table k for an octet. */
  function Look(t: Tables, k: nat, b: Octet): Word
    requires Shaped(t) && k < 8
  {
    t[k][Index(b)]
  }

  function NextEntry(t0: seq<Word>, c: Word): Word
    requires |t0| == 256
  {
    Xor(t0[Index(c[..8])], Shr(c, 8))
  }

  /** The documented `init`. */
  method BuildTables() returns (t: Tables)
    ensures Generated(t)
  {
    hide ByteStep, NextEntry, ToBits;
    var t0: seq<Word> := [];
    for i := 0 to 256
      invariant |t0| == i && forall n :: 0 <= n < i ==> t0[n] == ByteStep(ToBits(n, 32))
    {
      var x := BitLoop(ToBits(i, 32));
      t0 := t0 + [x];
    }
    t := [t0];
    for k := 1 to 8
      invariant |t| == k && t[0] == t0 && forall j :: 0 <= j < k ==> |t[j]| == 256
      invariant forall j :: 1 <= j < k ==> RowFollows(t, j)
    {
      ghost var before := t;
      var row: seq<Word> := [];
      for i := 0 to 256
        invariant |row| == i && forall n :: 0 <= n < i ==> row[n] == NextEntry(t0, t[k - 1][n])
      {
        row := row + [NextEntry(t0, t[k - 1][i])];
      }
      t := t + [row];
      forall j | 1 <= j < k + 1 ensures RowFollows(t, j) {
        assert j < k ==> RowFollows(before, j);
      }
    }
  }

  method BitLoop(x0: Word) returns (x: Word)
    ensures x == ByteStep(x0)
  {
    hide BitStep;
    x := x0;
    for j := 0 to 8
      invariant BitSteps(8 - j, x) == ByteStep(x0)
    {
      x := BitStep(x);
    }
  }

  // ---------------------------------------------------------------- what the tables hold

  lemma ExtendIsNumber(b: Octet)
    ensures ToBits(Index(b), 32) == Extend(b)
  {
    FromBitsBound(b);
    ToBitsWider(FromBits(b), 8, 24);
    ToBitsOfFromBits(b);
  }

  lemma FirstTable(t: Tables, b: Octet)
    requires Generated(t)
    ensures Look(t, 0, b) == ByteStep(Extend(b))
  {
    hide ByteStep, Index;
    ExtendIsNumber(b);
  }

  lemma NextEntryIsStep(t: Tables, c: Word)
    requires Generated(t)
    ensures NextEntry(t[0], c) == ByteStep(c)
  {
    hide ByteStep, Xor, Index;
    FirstTable(t, c[..8]);
    ByteStepSplits(c);
  }

  /** Table k is k + 1 byte steps. */
  lemma {:induction false} TableIsSteps(t: Tables, k: nat, b: Octet)
    requires Generated(t) && k < 8
    ensures Look(t, k, b) == Steps(k + 1, Extend(b))
  {
    hide ByteStep, Index, NextEntry, Extend;
    if k == 0 {
      FirstTable(t, b);
      assert Steps(1, Extend(b)) == Steps(0, ByteStep(Extend(b)));
    } else {
      TableIsSteps(t, k - 1, b);
      NextEntryIsStep(t, Steps(k, Extend(b)));
      StepsAgain(k, Extend(b));
      assert RowFollows(t, k);
      assert Look(t, k, b) == NextEntry(t[0], Look(t, k - 1, b));
    }
  }

  // ---------------------------------------------------------------- one byte through one table

  /** crc_tableil8_o32[(crc ^ b) & 0xFF] ^ (crc >> 8). */
  function TableFeed(t: Tables, crc: Word, b: byte): Word
    requires Shaped(t)
  {
    Xor(t[0][Index(Xor(crc, Extend(OctetOf(b)))[..8])], Shr(crc, 8))
  }

  lemma TableFeedIsFeed(t: Tables, crc: Word, b: byte)
    requires Generated(t)
    ensures TableFeed(t, crc, b) == Feed(crc, b)
  {
    hide ByteStep, Index, OctetOf;
    var x := Xor(crc, Extend(OctetOf(b)));
    assert Shr(x, 8) == Shr(crc, 8) by {
      forall i | 0 <= i < 32 ensures Shr(x, 8)[i] == Shr(crc, 8)[i] {
      }
    }
    FirstTable(t, x[..8]);
    ByteStepSplits(x);
    hide Xor, Extend;
  }

  // ---------------------------------------------------------------- eight bytes through eight tables

  /** Two tables looked up with the low byte of a word and the one above it. */
  function LookTwice(t: Tables, k: nat, x: Word): Word
    requires Shaped(t) && 1 <= k < 8
  {
    Xor(Look(t, k, x[..8]), Look(t, k - 1, Shr(x, 8)[..8]))
  }

  /** The same mixed into a word, one after the other. */
  function MixTwice(t: Tables, k: nat, y: Word, x: Word): Word
    requires Shaped(t) && 1 <= k < 8
  {
    Xor(Xor(y, Look(t, k, x[..8])), Look(t, k - 1, Shr(x, 8)[..8]))
  }

  /** The body of the middle loop. */
  function SliceFeed(t: Tables, crc: Word, d: seq<byte>): Word
    requires Shaped(t) && |d| == 8
  {
    var x := Xor(crc, Load(d[..4]));
    var term1 := LookTwice(t, 7, x);
    var term2 := Shr(x, 16);
    var y := MixTwice(t, 5, term1, term2);
    var w := Load(d[4..]);
    var term3 := LookTwice(t, 3, w);
    var term4 := Shr(w, 16);
    MixTwice(t, 1, Xor(y, term3), term4)
  }

  lemma ShiftedOctets(x: Word)
    ensures Shr(x, 8)[..8] == x[8..16]
    ensures Shr(x, 16)[..8] == x[16..24]
    ensures Shr(Shr(x, 16), 8)[..8] == x[24..]
  {
  }

  lemma LookTwiceIs(t: Tables, k: nat, x: Word)
    requires Generated(t) && 1 <= k < 8
    ensures LookTwice(t, k, x) == Xor(Steps(k + 1, Extend(x[..8])), Steps(k, Extend(x[8..16])))
    ensures LookTwice(t, k, Shr(x, 16)) == Xor(Steps(k + 1, Extend(x[16..24])), Steps(k, Extend(x[24..])))
  {
    hide Xor, Steps, Index, Extend, Look;
    ShiftedOctets(x);
    TableIsSteps(t, k, x[..8]);
    TableIsSteps(t, k - 1, x[8..16]);
    TableIsSteps(t, k, x[16..24]);
    TableIsSteps(t, k - 1, x[24..]);
  }

  /** Four lookups are the steps of a word. */
  lemma WordLookup(t: Tables, k: nat, x: Word)
    requires Generated(t) && 3 <= k < 8
    ensures Steps(k + 1, x) == Xor(LookTwice(t, k, x), LookTwice(t, k - 2, Shr(x, 16)))
  {
    hide Xor, Steps, Index, Extend, Look, LookTwice, Shr;
    LookTwiceIs(t, k, x);
    LookTwiceIs(t, k - 2, x);
    StepsOfWord(k + 1, x);
  }

  lemma MixIsXor(t: Tables, k: nat, y: Word, x: Word)
    requires Shaped(t) && 1 <= k < 8
    ensures MixTwice(t, k, y, x) == Xor(y, LookTwice(t, k, x))
  {
    hide Xor, Look, Shr;
    XorAssoc(y, Look(t, k, x[..8]), Look(t, k - 1, Shr(x, 8)[..8]));
  }

  /** Eight bytes are two words, the first stepped on by eight bytes and the second by four. */
  lemma EightBytesInTwo(crc: Word, d: seq<byte>)
    requires |d| == 8
    ensures Update(crc, d) == Xor(Steps(8, Xor(crc, Load(d[..4]))), Steps(4, Load(d[4..])))
  {
    hide Xor, Steps, Load, Update;
    var x, w := Xor(crc, Load(d[..4])), Load(d[4..]);
    var mid := Update(crc, d[..4]);
    assert d == d[..4] + d[4..];
    UpdateConcat(crc, d[..4], d[4..]);
    UpdateWord(crc, d[..4]);
    UpdateWord(mid, d[4..]);
    StepsIsLinear(4, mid, w);
    StepsAdd(4, 4, x);
  }

  lemma SliceFeedIsUpdate(t: Tables, crc: Word, d: seq<byte>)
    requires Generated(t) && |d| == 8
    ensures SliceFeed(t, crc, d) == Update(crc, d)
  {
    hide Xor, Steps, Load, Update, Shr, LookTwice, MixTwice;
    var x, w := Xor(crc, Load(d[..4])), Load(d[4..]);
    EightBytesInTwo(crc, d);
    WordLookup(t, 7, x);
    WordLookup(t, 3, w);
    var a, b, c, e := LookTwice(t, 7, x), LookTwice(t, 5, Shr(x, 16)), LookTwice(t, 3, w), LookTwice(t, 1, Shr(w, 16));
    MixIsXor(t, 5, a, Shr(x, 16));
    MixIsXor(t, 1, Xor(Xor(a, b), c), Shr(w, 16));
    XorAssoc(Xor(a, b), c, e);
  }

  // ---------------------------------------------------------------- the loop

  /** `crc32cSlicingBy8`: a prefix up to a word boundary, eight bytes at a time, the rest byte by byte. */
  method SlicingBy8(t: Tables, crc0: Word, data: seq<byte>, address: nat) returns (crc: Word)
    requires Generated(t)
    ensures crc == Update(crc0, data)
  {
    hide TableFeed, SliceFeed, Feed, Generated;
    crc := crc0;
    var pos := 0;
    var length := |data|;
    var initial := (4 - address % 4) % 4;
    if length < initial {
      initial := length;
    }
    for i := 0 to initial
      invariant pos == i && crc == Update(crc0, data[..pos])
    {
      OneMore(t, crc0, crc, data, pos);
      crc := TableFeed(t, crc, data[pos]);
      pos := pos + 1;
    }
    length := length - initial;
    var running := length - length % 8;
    var trailing := length - running;
    for i := 0 to running / 8
      invariant pos == initial + 8 * i && crc == Update(crc0, data[..pos])
    {
      EightMore(t, crc0, crc, data, pos);
      crc := SliceFeed(t, crc, data[pos..pos + 8]);
      pos := pos + 8;
    }
    for i := 0 to trailing
      invariant pos == initial + running + i && crc == Update(crc0, data[..pos])
    {
      OneMore(t, crc0, crc, data, pos);
      crc := TableFeed(t, crc, data[pos]);
      pos := pos + 1;
    }
    assert data[..pos] == data;
  }

  lemma OneMore(t: Tables, crc0: Word, crc: Word, data: seq<byte>, pos: nat)
    requires Generated(t) && pos < |data| && crc == Update(crc0, data[..pos])
    ensures Shaped(t) && TableFeed(t, crc, data[pos]) == Update(crc0, data[..pos + 1])
  {
    hide Feed, TableFeed;
    TableFeedIsFeed(t, crc, data[pos]);
    assert data[..pos + 1] == data[..pos] + [data[pos]];
    UpdateConcat(crc0, data[..pos], [data[pos]]);
    assert [data[pos]][1..] == [];
    assert Update(crc, [data[pos]]) == Update(Feed(crc, data[pos]), []);
  }

  lemma EightMore(t: Tables, crc0: Word, crc: Word, data: seq<byte>, pos: nat)
    requires Generated(t) && pos + 8 <= |data| && crc == Update(crc0, data[..pos])
    ensures Shaped(t) && SliceFeed(t, crc, data[pos..pos + 8]) == Update(crc0, data[..pos + 8])
  {
    hide SliceFeed, Update;
    SliceFeedIsUpdate(t, crc, data[pos..pos + 8]);
    assert data[..pos + 8] == data[..pos] + data[pos..pos + 8];
    UpdateConcat(crc0, data[..pos], data[pos..pos + 8]);
  }
}
