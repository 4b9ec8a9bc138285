/** The encoder object of the SHA3-256 implementation: any number of writes, then the digest of FIPS 202. */
module Sha3Encoder {
  import opened Bytes
  import opened Bits
  import opened BitStrings
  import opened Keccak
  import opened Sha3
  import opened Sha3Bits
  import Fips202

  // ---------------------------------------------------------------- the encoder

  const KECCAK_SUFFIX: byte := 0x01
  const SHA3_SUFFIX: byte := 0x06

  lemma NothingWritten()
    ensures StateOf([]) == ZeroState()
  {
    hide XorBytes;
    XorNothing(ZeroState());
  }

  method Clear(words: array<Lane>)
    requires words.Length == 25
    modifies words
    ensures words[..] == ZeroState()
  {
    for i := 0 to 25
      invariant forall k :: 0 <= k < i ==> words[k] == Zeros(64)
    {
      words[i] := Zeros(64);
    }
  }

  class Encoder {
    var words: array<Lane>
    var point: nat
    var keccak: bool
    /** Everything written since the last reset. */
    ghost var message: seq<byte>

    ghost predicate Valid()
      reads this, words
    {
      words.Length == 25 && words[..] == StateOf(message) && point == |message| % RATE
    }

    constructor ()
      ensures Valid() && message == [] && fresh(words)
    {
      hide StateOf, ZeroState;
      words := new Lane[25](_ => Zeros(64));
      point, keccak, message := 0, false, [];
      new;
      NothingWritten();
      Clear(words);
    }

    /** `reset`. */
    method Init()
      requires words.Length == 25
      modifies this, words
      ensures Valid() && words == old(words) && message == []
    {
      hide StateOf, ZeroState;
      NothingWritten();
      Clear(words);
      point, keccak, message := 0, false, [];
    }

    /** `bytes[j] ^= b`. */
    method XorByte(j: nat, b: byte)
      requires words.Length == 25 && j < 200
      modifies words
      ensures words[..] == XorByteAt(old(words[..]), j, b)
    {
      hide XorOctet;
      words[j / 8] := XorOctet(words[j / 8], j % 8, b);
    }

    /** One byte mixed in, and the block absorbed when it is full. */
    method Put(j: nat, b: byte, ghost m: seq<byte>) returns (next: nat)
      requires words.Length == 25 && words[..] == StateOf(m) && j == |m| % RATE
      modifies words
      ensures words[..] == StateOf(m + [b]) && next == (|m| + 1) % RATE
    {
      hide StateOf, XorByteAt, KeccakF;
      OneByteWritten(m, b);
      XorByte(j, b);
      next := j + 1;
      if next >= RATE {
        UpdateStep(words);
        next := 0;
      }
    }

    /** `write`: however a message is split into writes, the state depends on the message alone. */
    method Update(data: seq<byte>)
      requires Valid()
      modifies this, words
      ensures Valid() && words == old(words) && keccak == old(keccak)
      ensures message == old(message) + data
    {
      hide StateOf;
      ghost var m := message;
      assert m + data[..0] == m;
      var j := point;
      for i := 0 to |data|
        invariant words == old(words) && keccak == old(keccak) && message == m
        invariant words.Length == 25 && words[..] == StateOf(m + data[..i]) && j == |m + data[..i]| % RATE
      {
        assert m + data[..i] + [data[i]] == m + data[..i + 1];
        j := Put(j, data[i], m + data[..i]);
      }
      assert data[..|data|] == data;
      point := j;
      message := m + data;
    }

    /** `result`: the encoder must be reset before it is used again. */
    method Result(isNist: bool) returns (hash: seq<byte>)
      requires Valid()
      modifies this, words
      ensures words == old(words) && message == old(message)
      ensures hash == Digest(message, if isNist then SHA3_SUFFIX else KECCAK_SUFFIX)
      ensures |hash| == 32
      ensures BitsOf(hash) ==
        if isNist then Fips202.Sha3_256(BitsOf(message)) else Fips202.Keccak512(BitsOf(message))
    {
      hide StateOf, XorByteAt, KeccakF, Pad, StateByte, BitsOf, Fips202.Sha3_256, Fips202.Keccak512;
      keccak := !isNist;
      var suffix := if keccak then KECCAK_SUFFIX else SHA3_SUFFIX;
      FinishedIsSponge(message, suffix);
      XorByte(point, suffix);
      XorByte(RATE - 1, 0x80);
      UpdateStep(words);
      hash := Squeezed(words[..]);
      DigestIsStandard(message);
    }
  }
}
