/** The cipher and its modes as the textbooks have them. */
module BlowfishStandard {
  import opened Bytes
  import opened Words
  import opened FourBytes
  import opened Blowfish
  import opened BlowfishModes
  import BigEndian
  import Seqs

  // ---------------------------------------------------------------- the round function

  /** The highest byte picks from the first S-box and the lowest from the fourth: add, exclusive or, add. */
  lemma FOfBytes(k: Keys, a: byte, b: byte, c: byte, d: byte)
    requires k.Valid()
    ensures var w := a as nat * 0x100_0000 + b as nat * 0x1_0000 + c as nat * 0x100 + d as nat;
      var s0: nat, s1: nat, s2: nat, s3: nat := k.s[0][a], k.s[1][b], k.s[2][c], k.s[3][d];
      0 <= w < 0x1_0000_0000 && F(k, w) == (Xor((s0 + s1) % 0x1_0000_0000, s2) + s3) % 0x1_0000_0000
  {
    hide ByteOf, Xor;
    BytesOfSum(a, b, c, d);
  }

  lemma BytesOfSum(a: byte, b: byte, c: byte, d: byte)
    ensures var w := a as nat * 0x100_0000 + b as nat * 0x1_0000 + c as nat * 0x100 + d as nat;
      && 0 <= w < 0x1_0000_0000
      && ByteOf(w, 0x100_0000) == a && ByteOf(w, 0x1_0000) == b && ByteOf(w, 0x100) == c && ByteOf(w, 1) == d
  {
    hide ByteOf;
    var w := a as nat * 0x100_0000 + b as nat * 0x1_0000 + c as nat * 0x100 + d as nat;
    Octets(a as nat, b as nat, c as nat, d as nat);
    BytesAre(w);
    assert w == ((a as nat * 256 + b as nat) * 256 + c as nat) * 256 + d as nat;
  }

  // ---------------------------------------------------------------- the sixteen rounds

  /** After i rounds: mix the subkey into the left half, its image into the right one, and swap. */
  function State(k: Keys, p: seq<Word32>, x: Block, i: nat): Block
    requires k.Valid() && |p| == 18 && i <= 16
  {
    if i == 0 then x
    else
      var s := State(k, p, x, i - 1);
      var left := X(s.l, p[i - 1]);
      Block(X(s.r, F(k, left)), left)
  }

  /** Sixteen rounds, the last swap undone, and two subkeys more. */
  function Textbook(k: Keys, p: seq<Word32>, x: Block): Block
    requires k.Valid() && |p| == 18
  {
    var s := State(k, p, x, 16);
    var left, right := s.r, s.l;
    Block(X(left, p[17]), X(right, p[16]))
  }

  lemma XorHalves(a: nat, b: nat)
    ensures Xor(a, b) / 2 == Xor(a / 2, b / 2) && Xor(a, b) % 2 == (if a % 2 != b % 2 then 1 else 0)
  {
    XorStep(a, b);
  }

  lemma {:induction false} XorAssociates(a: nat, b: nat, c: nat)
    ensures Xor(Xor(a, b), c) == Xor(a, Xor(b, c))
    decreases a + b + c
  {
    if a == 0 && b == 0 && c == 0 {
      assert Xor(0, 0) == 0;
    } else {
      hide Xor;
      XorHalves(a, b);
      XorHalves(b, c);
      XorStep(Xor(a, b), c);
      XorStep(a, Xor(b, c));
      XorAssociates(a / 2, b / 2, c / 2);
    }
  }

  lemma XAssociates(a: Word32, b: Word32, c: Word32)
    ensures X(X(a, b), c) == X(a, X(b, c))
  {
    XorAssociates(a, b, c);
    hide Xor;
  }

  lemma {:induction false} RoundsAreState(k: Keys, p: seq<Word32>, x: Block, i: nat)
    requires k.Valid() && |p| == 18 && i <= 16
    ensures var s := State(k, p, x, i);
      Rounds(k, Halves(X(x.l, p[0]), x.r), p[1..i + 1]) == Halves(X(s.l, p[i]), s.r)
    decreases i
  {
    hide F, X, Rounds;
    var first := Halves(X(x.l, p[0]), x.r);
    if i == 0 {
      NoRounds(k, first);
      assert p[1..1] == [];
    } else {
      RoundsAreState(k, p, x, i - 1);
      RoundsSnoc(k, first, p[1..i], p[i]);
      assert p[1..i + 1] == p[1..i] + [p[i]];
      var s := State(k, p, x, i - 1);
      XAssociates(s.r, F(k, X(s.l, p[i - 1])), p[i]);
    }
  }

  lemma CipherIsTextbook(k: Keys, p: seq<Word32>, x: Block)
    requires k.Valid() && |p| == 18
    ensures Blowfish.Cipher(k, p, x) == Textbook(k, p, x)
  {
    hide F, X, Rounds, State;
    RoundsAreState(k, p, x, 16);
  }

  /** The cipher takes its subkeys from first to last, deciphering from last to first. */
  lemma EncipherIsTextbook(k: Keys, q: seq<Word32>, x: Block)
    requires k.Valid() && |q| == 18 && forall i :: 0 <= i < 18 ==> q[i] == k.p[17 - i]
    ensures Encipher(k, x) == Textbook(k, k.p, x) && Decipher(k, x) == Textbook(k, q, x)
  {
    hide Blowfish.Cipher, Textbook, F, X;
    CipherIsTextbook(k, k.p, x);
    CipherIsTextbook(k, q, x);
    assert Seqs.Reversed(k.p) == q;
  }

  // ---------------------------------------------------------------- blocks

  lemma WordIsBigEndian(b0: byte, b1: byte, b2: byte, b3: byte)
    ensures WordOfBytes(b0, b1, b2, b3) == BigEndian.ValueOf([b0, b1, b2, b3])
  {
    WindowIs(b0, b1, b2, b3);
    hide Window, BigEndian.ValueOf;
    BigEndian.ValueOfSnoc([b0, b1, b2], b3);
    BigEndian.ValueOfSnoc([b0, b1], b2);
    BigEndian.ValueOfSnoc([b0], b1);
    BigEndian.ValueOfSnoc([], b0);
    NothingIsZero();
    assert [b0, b1, b2] + [b3] == [b0, b1, b2, b3] && [b0, b1] + [b2] == [b0, b1, b2] && [b0] + [b1] == [b0, b1];
    assert [] + [b0] == [b0];
  }

  lemma NothingIsZero()
    ensures BigEndian.ValueOf([]) == 0
  {
  }

  /** The halves of a block are big-endian numbers, read and written. */
  lemma BlocksAreBigEndian(s: seq<byte>, b: Block)
    requires |s| == 8
    ensures ToBlock(s).l == BigEndian.ValueOf(s[..4]) && ToBlock(s).r == BigEndian.ValueOf(s[4..])
    ensures BigEndian.ValueOf(FromBlock(b)[..4]) == b.l && BigEndian.ValueOf(FromBlock(b)[4..]) == b.r
  {
    HalvesAreBigEndian(s);
    HalvesAreBigEndian(FromBlock(b));
    ToBlockOfFromBlock(b);
  }

  lemma HalvesAreBigEndian(s: seq<byte>)
    requires |s| == 8
    ensures ToBlock(s).l == BigEndian.ValueOf(s[..4]) && ToBlock(s).r == BigEndian.ValueOf(s[4..])
  {
    hide WordOfBytes, BigEndian.ValueOf;
    WordIsBigEndian(s[0], s[1], s[2], s[3]);
    WordIsBigEndian(s[4], s[5], s[6], s[7]);
    assert s[..4] == [s[0], s[1], s[2], s[3]] && s[4..] == [s[4], s[5], s[6], s[7]];
  }

  // ---------------------------------------------------------------- the modes

  /** Block j of a buffer, and the one before it, which for the first is the chain block. */
  function BlockAt(s: seq<byte>, j: nat): Block
    requires 8 * j + 8 <= |s|
  {
    ToBlock(s[8 * j..8 * j + 8])
  }

  function Before(s: seq<byte>, j: nat, chain: Block): Block
    requires 8 * j <= |s|
  {
    if j == 0 then chain else BlockAt(s, j - 1)
  }

  /** Each block of the result, from the blocks of the input and of the result in front of it. */
  function ModeOfBlock(k: Keys, op: Op, mode: Mode, work: Block, inputBefore: Block, outputBefore: Block): Block
    requires k.Valid()
  {
    match (mode, op)
    case (ECB, Encrypt) => Encipher(k, work)
    case (ECB, Decrypt) => Decipher(k, work)
    case (CBC, Encrypt) => Encipher(k, XBlock(work, outputBefore))
    case (CBC, Decrypt) => XBlock(Decipher(k, work), inputBefore)
    case (CFB, Encrypt) => XBlock(work, Encipher(k, outputBefore))
    case (CFB, Decrypt) => XBlock(work, Encipher(k, inputBefore))
  }

  lemma {:induction false} CryptLength(k: Keys, op: Op, mode: Mode, chain: Block, s: seq<byte>)
    requires k.Valid() && |s| % 8 == 0
    ensures |Crypt(k, op, mode, chain, s)| == |s|
    decreases |s|
  {
    hide Turn, ToBlock, FromBlock;
    if s != [] {
      assert |s| >= 8;
      CryptLength(k, op, mode, Turn(k, op, mode, chain, ToBlock(s[..8])).chain, s[8..]);
    }
  }

  lemma CryptHead(k: Keys, op: Op, mode: Mode, chain: Block, s: seq<byte>)
    requires k.Valid() && |s| % 8 == 0 && |s| >= 8
    ensures var t, c := Turn(k, op, mode, chain, BlockAt(s, 0)), Crypt(k, op, mode, chain, s);
      |c| == |s| && BlockAt(c, 0) == t.output && c[8..] == Crypt(k, op, mode, t.chain, s[8..])
  {
    CryptLength(k, op, mode, chain, s);
    hide Turn, ToBlock, FromBlock;
    var t, c := Turn(k, op, mode, chain, BlockAt(s, 0)), Crypt(k, op, mode, chain, s);
    assert c == FromBlock(t.output) + Crypt(k, op, mode, t.chain, s[8..]);
    assert c[0..8] == FromBlock(t.output);
    ToBlockOfFromBlock(t.output);
  }

  lemma LaterBlock(s: seq<byte>, j: nat, chain: Block)
    requires j >= 1 && 8 * j + 8 <= |s|
    ensures BlockAt(s, j) == BlockAt(s[8..], j - 1)
    ensures Before(s, j, chain) == Before(s[8..], j - 1, BlockAt(s, 0))
  {
    hide ToBlock;
    assert s[8..][8 * (j - 1)..8 * (j - 1) + 8] == s[8 * j..8 * j + 8];
    if j > 1 {
      assert s[8..][8 * (j - 2)..8 * (j - 2) + 8] == s[8 * (j - 1)..8 * (j - 1) + 8];
    }
  }

  lemma TurnIsMode(k: Keys, op: Op, mode: Mode, chain: Block, work: Block)
    requires k.Valid()
    ensures var t := Turn(k, op, mode, chain, work);
      && t.output == ModeOfBlock(k, op, mode, work, chain, chain)
      && t.chain == if mode.ECB? then chain else if op.Encrypt? then t.output else work
  {
    hide Encipher, Decipher, XBlock;
  }

  /** Only the chain block that is used matters. */
  lemma ModeUses(k: Keys, op: Op, mode: Mode, work: Block, i: Block, o: Block, x: Block)
    requires k.Valid()
    ensures mode.ECB? ==> ModeOfBlock(k, op, mode, work, i, o) == ModeOfBlock(k, op, mode, work, x, x)
    ensures op.Encrypt? ==> ModeOfBlock(k, op, mode, work, i, o) == ModeOfBlock(k, op, mode, work, x, o)
    ensures op.Decrypt? ==> ModeOfBlock(k, op, mode, work, i, o) == ModeOfBlock(k, op, mode, work, i, x)
  {
    hide Encipher, Decipher, XBlock;
  }

  /** The three modes, block by block. */
  lemma {:induction false} CryptIsMode(k: Keys, op: Op, mode: Mode, chain: Block, s: seq<byte>, j: nat)
    requires k.Valid() && |s| % 8 == 0 && 8 * j + 8 <= |s|
    ensures var c := Crypt(k, op, mode, chain, s);
      && |c| == |s|
      && BlockAt(c, j) == ModeOfBlock(k, op, mode, BlockAt(s, j), Before(s, j, chain), Before(c, j, chain))
    decreases j
  {
    hide Crypt, BlockAt, Turn, ModeOfBlock;
    var c, work := Crypt(k, op, mode, chain, s), BlockAt(s, 0);
    CryptHead(k, op, mode, chain, s);
    TurnIsMode(k, op, mode, chain, work);
    if j > 0 {
      var t := Turn(k, op, mode, chain, work);
      CryptIsMode(k, op, mode, t.chain, s[8..], j - 1);
      LaterBlock(s, j, chain);
      LaterBlock(c, j, chain);
      if j == 1 {
        ModeUses(k, op, mode, BlockAt(s, 1), work, t.output, t.chain);
      } else {
        hide Before;
        BeforeIgnoresChain(s[8..], j - 1, t.chain, work);
        BeforeIgnoresChain(c[8..], j - 1, t.chain, t.output);
      }
    }
  }

  lemma BeforeIgnoresChain(s: seq<byte>, j: nat, a: Block, b: Block)
    requires 1 <= j && 8 * j <= |s|
    ensures Before(s, j, a) == Before(s, j, b)
  {
  }
}
