/** The three buffer modes of the block cipher, in place and from one buffer to another. */
module BlowfishModes {
  import opened Bytes
  import opened Blowfish

  /** Every mode number other than those of CBC and CFB means ECB. */
  datatype Mode = ECB | CBC | CFB
  datatype Op = Encrypt | Decrypt

  function Opposite(op: Op): Op {
    if op.Encrypt? then Decrypt else Encrypt
  }

  /** What one block becomes, and the chain block for the next. */
  datatype Turned = Turned(output: Block, chain: Block)

  function Turn(k: Keys, op: Op, mode: Mode, chain: Block, work: Block): Turned
    requires k.Valid()
  {
    match mode
    case ECB => Turned(if op.Encrypt? then Encipher(k, work) else Decipher(k, work), chain)
    case CBC =>
      if op.Encrypt? then
        var c := Encipher(k, XBlock(work, chain));
        Turned(c, c)
      else Turned(XBlock(Decipher(k, work), chain), work)
    case CFB =>
      var c := XBlock(work, Encipher(k, chain));
      Turned(c, if op.Encrypt? then c else work)
  }

  lemma TurnUndone(k: Keys, op: Op, mode: Mode, chain: Block, work: Block)
    requires k.Valid()
    ensures var t := Turn(k, op, mode, chain, work);
      Turn(k, Opposite(op), mode, chain, t.output) == Turned(work, t.chain)
  {
    hide Encipher, Decipher, XBlock;
    DecipherUndoesEncipher(k, work);
    DecipherUndoesEncipher(k, XBlock(work, chain));
    XBlockCancels(work, chain);
    XBlockCancels(Decipher(k, work), chain);
    XBlockCancels(work, Encipher(k, chain));
  }

  /** A buffer of whole blocks. */
  function Crypt(k: Keys, op: Op, mode: Mode, chain: Block, s: seq<byte>): seq<byte>
    requires k.Valid()
    decreases |s|
  {
    if |s| < 8 then []
    else
      var t := Turn(k, op, mode, chain, ToBlock(s[..8]));
      FromBlock(t.output) + Crypt(k, op, mode, t.chain, s[8..])
  }

  /** In each mode, decrypting undoes encrypting and encrypting undoes decrypting. */
  lemma {:induction false} CryptUndone(k: Keys, op: Op, mode: Mode, chain: Block, s: seq<byte>)
    requires k.Valid() && |s| % 8 == 0
    ensures Crypt(k, Opposite(op), mode, chain, Crypt(k, op, mode, chain, s)) == s
    decreases |s|
  {
    hide Turn, ToBlock, FromBlock, Opposite;
    if s != [] {
      assert |s| >= 8;
      var work := ToBlock(s[..8]);
      var t := Turn(k, op, mode, chain, work);
      TurnUndone(k, op, mode, chain, work);
      CryptUndone(k, op, mode, t.chain, s[8..]);
      ToBlockOfFromBlock(t.output);
      FromBlockOfToBlock(s[..8]);
      var c := Crypt(k, op, mode, chain, s);
      assert c[..8] == FromBlock(t.output) && c[8..] == Crypt(k, op, mode, t.chain, s[8..]);
      assert s[..8] + s[8..] == s;
    }
  }

  // ---------------------------------------------------------------- the loops

  /** The invariant of every loop: what is written and what the rest will give make up the whole. */
  ghost predicate Halfway(k: Keys, op: Op, mode: Mode, first: Block, s: seq<byte>, i: nat, done: seq<byte>,
      chain: Block)
    requires k.Valid()
  {
    i <= |s| && (|s| - i) % 8 == 0
    && Crypt(k, op, mode, first, s) == done + Crypt(k, op, mode, chain, s[i..])
  }

  lemma Begin(k: Keys, op: Op, mode: Mode, chain: Block, s: seq<byte>)
    requires k.Valid() && |s| % 8 == 0
    ensures Halfway(k, op, mode, chain, s, 0, [], chain)
  {
    assert s[0..] == s;
    assert [] + Crypt(k, op, mode, chain, s) == Crypt(k, op, mode, chain, s);
  }

  lemma Advance(k: Keys, op: Op, mode: Mode, first: Block, s: seq<byte>, i: nat, done: seq<byte>, chain: Block)
    requires k.Valid() && Halfway(k, op, mode, first, s, i, done, chain) && i + 8 <= |s|
    ensures var t := Turn(k, op, mode, chain, ToBlock(s[i..i + 8]));
      Halfway(k, op, mode, first, s, i + 8, done + FromBlock(t.output), t.chain)
  {
    hide Turn, ToBlock, FromBlock;
    assert s[i..][..8] == s[i..i + 8] && s[i..][8..] == s[i + 8..];
  }

  lemma Finish(k: Keys, op: Op, mode: Mode, first: Block, s: seq<byte>, done: seq<byte>, chain: Block)
    requires k.Valid() && Halfway(k, op, mode, first, s, |s|, done, chain)
    ensures done == Crypt(k, op, mode, first, s)
  {
    assert s[|s|..] == [];
  }

  method ReadBlock(buf: array<byte>, i: nat) returns (b: Block)
    requires i + 8 <= buf.Length
    ensures b == ToBlock(buf[i..i + 8])
  {
    hide WordOfBytes;
    b := Block(WordOfBytes(buf[i], buf[i + 1], buf[i + 2], buf[i + 3]),
               WordOfBytes(buf[i + 4], buf[i + 5], buf[i + 6], buf[i + 7]));
  }

  /** From the last byte to the first, as the source does. */
  method WriteBlock(b: Block, buf: array<byte>, i: nat)
    requires i + 8 <= buf.Length
    modifies buf
    ensures buf[..i + 8] == old(buf[..i]) + FromBlock(b)
    ensures forall k :: i + 8 <= k < buf.Length ==> buf[k] == old(buf[k])
  {
    var r, l := BytesOfWord(b.r), BytesOfWord(b.l);
    hide BytesOfWord;
    WriteWord(r, buf, i + 4);
    WriteWord(l, buf, i);
  }

  method WriteWord(w: seq<byte>, buf: array<byte>, i: nat)
    requires |w| == 4 && i + 4 <= buf.Length
    modifies buf
    ensures forall k :: 0 <= k < buf.Length ==> buf[k] == if i <= k < i + 4 then w[k - i] else old(buf[k])
  {
    buf[i + 3] := w[3];
    buf[i + 2] := w[2];
    buf[i + 1] := w[1];
    buf[i] := w[0];
  }

  /** From position i on a buffer still holds what it held at first. */
  ghost predicate Holds(buf: array<byte>, s: seq<byte>, i: nat)
    reads buf
  {
    |s| <= buf.Length && forall k :: i <= k < |s| ==> buf[k] == s[k]
  }

  class Cipher {
    const keys: Keys
    var chain0: Block
    var chain: Block

    constructor (keys: Keys, start: Block)
      ensures this.keys == keys && chain0 == start && chain == start
    {
      this.keys, this.chain0, this.chain := keys, start, start;
    }

    method ResetChain()
      modifies this
      ensures chain == old(chain0) && chain0 == old(chain0)
    {
      chain := chain0;
    }

    method EncryptCbc(inp: array<byte>, out: array<byte>, n: nat)
      requires keys.Valid() && n % 8 == 0 && n <= inp.Length && n <= out.Length
      modifies out
      ensures out[..n] == Crypt(keys, Encrypt, CBC, chain, old(inp[..n]))
      ensures Holds(out, old(out[..]), n)
    {
      hide Crypt, Halfway, ToBlock, FromBlock, Encipher, Decipher, XBlock;
      ghost var s, t := inp[..n], out[..];
      var c, i := chain, 0;
      Begin(keys, Encrypt, CBC, c, s);
      while n - i >= 8
        invariant 0 <= i <= n && (n - i) % 8 == 0
        invariant Holds(inp, s, i) && Holds(out, t, n)
        invariant Halfway(keys, Encrypt, CBC, chain, s, i, out[..i], c)
        decreases n - i
      {
        Advance(keys, Encrypt, CBC, chain, s, i, out[..i], c);
        assert inp[i..i + 8] == s[i..i + 8];
        var work := ReadBlock(inp, i);
        work := XBlock(work, c);
        work := EncryptBlock(keys, work);
        c := work;
        WriteBlock(work, out, i);
        i := i + 8;
      }
      Finish(keys, Encrypt, CBC, chain, s, out[..n], c);
    }

    method EncryptCfb(inp: array<byte>, out: array<byte>, n: nat)
      requires keys.Valid() && n % 8 == 0 && n <= inp.Length && n <= out.Length
      modifies out
      ensures out[..n] == Crypt(keys, Encrypt, CFB, chain, old(inp[..n]))
      ensures Holds(out, old(out[..]), n)
    {
      hide Crypt, Halfway, ToBlock, FromBlock, Encipher, Decipher, XBlock;
      ghost var s, t := inp[..n], out[..];
      var c, i := chain, 0;
      Begin(keys, Encrypt, CFB, c, s);
      while n - i >= 8
        invariant 0 <= i <= n && (n - i) % 8 == 0
        invariant Holds(inp, s, i) && Holds(out, t, n)
        invariant Halfway(keys, Encrypt, CFB, chain, s, i, out[..i], c)
        decreases n - i
      {
        Advance(keys, Encrypt, CFB, chain, s, i, out[..i], c);
        assert inp[i..i + 8] == s[i..i + 8];
        c := EncryptBlock(keys, c);
        var work := ReadBlock(inp, i);
        work := XBlock(work, c);
        c := work;
        WriteBlock(work, out, i);
        i := i + 8;
      }
      Finish(keys, Encrypt, CFB, chain, s, out[..n], c);
    }

    method EncryptEcb(inp: array<byte>, out: array<byte>, n: nat)
      requires keys.Valid() && n % 8 == 0 && n <= inp.Length && n <= out.Length
      modifies out
      ensures out[..n] == Crypt(keys, Encrypt, ECB, chain, old(inp[..n]))
      ensures Holds(out, old(out[..]), n)
    {
      hide Crypt, Halfway, ToBlock, FromBlock, Encipher, Decipher, XBlock;
      ghost var s, t := inp[..n], out[..];
      var c, i := chain, 0;
      Begin(keys, Encrypt, ECB, c, s);
      while n - i >= 8
        invariant 0 <= i <= n && (n - i) % 8 == 0
        invariant Holds(inp, s, i) && Holds(out, t, n)
        invariant Halfway(keys, Encrypt, ECB, chain, s, i, out[..i], c)
        decreases n - i
      {
        Advance(keys, Encrypt, ECB, chain, s, i, out[..i], c);
        assert inp[i..i + 8] == s[i..i + 8];
        var work := ReadBlock(inp, i);
        work := EncryptBlock(keys, work);
        WriteBlock(work, out, i);
        i := i + 8;
      }
      Finish(keys, Encrypt, ECB, chain, s, out[..n], c);
    }

    method DecryptCbc(inp: array<byte>, out: array<byte>, n: nat)
      requires keys.Valid() && n % 8 == 0 && n <= inp.Length && n <= out.Length
      modifies out
      ensures out[..n] == Crypt(keys, Decrypt, CBC, chain, old(inp[..n]))
      ensures Holds(out, old(out[..]), n)
    {
      hide Crypt, Halfway, ToBlock, FromBlock, Encipher, Decipher, XBlock;
      ghost var s, t := inp[..n], out[..];
      var c, i := chain, 0;
      Begin(keys, Decrypt, CBC, c, s);
      while n - i >= 8
        invariant 0 <= i <= n && (n - i) % 8 == 0
        invariant Holds(inp, s, i) && Holds(out, t, n)
        invariant Halfway(keys, Decrypt, CBC, chain, s, i, out[..i], c)
        decreases n - i
      {
        Advance(keys, Decrypt, CBC, chain, s, i, out[..i], c);
        assert inp[i..i + 8] == s[i..i + 8];
        var work := ReadBlock(inp, i);
        var crypt := work;
        work := DecryptBlock(keys, work);
        work := XBlock(work, c);
        c := crypt;
        WriteBlock(work, out, i);
        i := i + 8;
      }
      Finish(keys, Decrypt, CBC, chain, s, out[..n], c);
    }

    method DecryptCfb(inp: array<byte>, out: array<byte>, n: nat)
      requires keys.Valid() && n % 8 == 0 && n <= inp.Length && n <= out.Length
      modifies out
      ensures out[..n] == Crypt(keys, Decrypt, CFB, chain, old(inp[..n]))
      ensures Holds(out, old(out[..]), n)
    {
      hide Crypt, Halfway, ToBlock, FromBlock, Encipher, Decipher, XBlock;
      ghost var s, t := inp[..n], out[..];
      var c, i := chain, 0;
      Begin(keys, Decrypt, CFB, c, s);
      while n - i >= 8
        invariant 0 <= i <= n && (n - i) % 8 == 0
        invariant Holds(inp, s, i) && Holds(out, t, n)
        invariant Halfway(keys, Decrypt, CFB, chain, s, i, out[..i], c)
        decreases n - i
      {
        Advance(keys, Decrypt, CFB, chain, s, i, out[..i], c);
        assert inp[i..i + 8] == s[i..i + 8];
        var work := ReadBlock(inp, i);
        c := EncryptBlock(keys, c);
        var crypt := work;
        work := XBlock(work, c);
        c := crypt;
        WriteBlock(work, out, i);
        i := i + 8;
      }
      Finish(keys, Decrypt, CFB, chain, s, out[..n], c);
    }

    method DecryptEcb(inp: array<byte>, out: array<byte>, n: nat)
      requires keys.Valid() && n % 8 == 0 && n <= inp.Length && n <= out.Length
      modifies out
      ensures out[..n] == Crypt(keys, Decrypt, ECB, chain, old(inp[..n]))
      ensures Holds(out, old(out[..]), n)
    {
      hide Crypt, Halfway, ToBlock, FromBlock, Encipher, Decipher, XBlock;
      ghost var s, t := inp[..n], out[..];
      var c, i := chain, 0;
      Begin(keys, Decrypt, ECB, c, s);
      while n - i >= 8
        invariant 0 <= i <= n && (n - i) % 8 == 0
        invariant Holds(inp, s, i) && Holds(out, t, n)
        invariant Halfway(keys, Decrypt, ECB, chain, s, i, out[..i], c)
        decreases n - i
      {
        Advance(keys, Decrypt, ECB, chain, s, i, out[..i], c);
        assert inp[i..i + 8] == s[i..i + 8];
        var work := ReadBlock(inp, i);
        work := DecryptBlock(keys, work);
        WriteBlock(work, out, i);
        i := i + 8;
      }
      Finish(keys, Decrypt, ECB, chain, s, out[..n], c);
    }

    /** Fails, changing nothing, when n is zero or no multiple of 8. The buffers may be one. */
    method EncryptBuffer(inp: array<byte>, out: array<byte>, n: nat, mode: Mode) returns (ok: bool)
      requires keys.Valid() && n <= inp.Length && n <= out.Length
      modifies out
      ensures ok <==> n != 0 && n % 8 == 0
      ensures Holds(out, old(out[..]), if ok then n else 0)
      ensures ok ==> out[..n] == Crypt(keys, Encrypt, mode, chain, old(inp[..n]))
    {
      hide Crypt;
      if n == 0 || n % 8 != 0 {
        return false;
      }
      match mode {
        case CBC => EncryptCbc(inp, out, n);
        case CFB => EncryptCfb(inp, out, n);
        case ECB => EncryptEcb(inp, out, n);
      }
      return true;
    }

    /** In place: what the two-buffer form makes of a copy. */
    method EncryptInPlace(buf: array<byte>, n: nat, mode: Mode) returns (ok: bool)
      requires keys.Valid() && n <= buf.Length
      modifies buf
      ensures ok <==> n != 0 && n % 8 == 0
      ensures Holds(buf, old(buf[..]), if ok then n else 0)
      ensures ok ==> buf[..n] == Crypt(keys, Encrypt, mode, chain, old(buf[..n]))
    {
      ok := EncryptBuffer(buf, buf, n, mode);
    }

    /** Fails, changing nothing, when n is zero or no multiple of 8. The buffers may be one. */
    method DecryptBuffer(inp: array<byte>, out: array<byte>, n: nat, mode: Mode) returns (ok: bool)
      requires keys.Valid() && n <= inp.Length && n <= out.Length
      modifies out
      ensures ok <==> n != 0 && n % 8 == 0
      ensures Holds(out, old(out[..]), if ok then n else 0)
      ensures ok ==> out[..n] == Crypt(keys, Decrypt, mode, chain, old(inp[..n]))
    {
      hide Crypt;
      if n == 0 || n % 8 != 0 {
        return false;
      }
      match mode {
        case CBC => DecryptCbc(inp, out, n);
        case CFB => DecryptCfb(inp, out, n);
        case ECB => DecryptEcb(inp, out, n);
      }
      return true;
    }

    /** In place: what the two-buffer form makes of a copy. */
    method DecryptInPlace(buf: array<byte>, n: nat, mode: Mode) returns (ok: bool)
      requires keys.Valid() && n <= buf.Length
      modifies buf
      ensures ok <==> n != 0 && n % 8 == 0
      ensures Holds(buf, old(buf[..]), if ok then n else 0)
      ensures ok ==> buf[..n] == Crypt(keys, Decrypt, mode, chain, old(buf[..n]))
    {
      ok := DecryptBuffer(buf, buf, n, mode);
    }

    /** Encrypting and then decrypting in place leaves every buffer as it was. */
    method ThereAndBack(buf: array<byte>, n: nat, mode: Mode) returns (ok: bool)
      requires keys.Valid() && n <= buf.Length
      modifies buf
      ensures ok <==> n != 0 && n % 8 == 0
      ensures buf[..] == old(buf[..])
    {
      hide Crypt;
      ok := EncryptInPlace(buf, n, mode);
      if ok {
        CryptUndone(keys, Encrypt, mode, chain, old(buf[..n]));
        ok := DecryptInPlace(buf, n, mode);
        assert forall k :: 0 <= k < n ==> buf[k] == buf[..n][k] == old(buf[..n])[k];
      }
    }
  }
}
