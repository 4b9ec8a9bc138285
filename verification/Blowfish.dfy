/** The block cipher for any subkeys and S-boxes. */
module Blowfish {
  import opened Bytes
  import opened Words
  import opened FourBytes
  import opened Seqs

  type Word32 = x: int | 0 <= x < 0x1_0000_0000

  /** `sblock`. */
  datatype Block = Block(l: Word32, r: Word32)

  /** The 18 subkeys and the four S-boxes. */
  datatype Keys = Keys(p: seq<Word32>, s: seq<seq<Word32>>) {
    predicate Valid() {
      |p| == 18 && |s| == 4 && forall i :: 0 <= i < 4 ==> |s[i]| == 256
    }
  }

  function X(a: Word32, b: Word32): Word32 {
    Pow2Values();
    XorBound(a, b, 32);
    Xor(a, b)
  }

  lemma XCancels(a: Word32, b: Word32)
    ensures X(X(a, b), b) == a
  {
    XorCancels(a, b);
  }

  function XBlock(a: Block, b: Block): Block {
    Block(X(a.l, b.l), X(a.r, b.r))
  }

  lemma XBlockCancels(a: Block, b: Block)
    ensures XBlock(XBlock(a, b), b) == a
  {
    XCancels(a.l, b.l);
    XCancels(a.r, b.r);
  }

  /** `Byte(w >> 8 * k)` for a shift of 8 * k bits, given as a power of two. */
  function ByteOf(w: Word32, weight: nat): (b: byte)
    requires weight >= 1
  {
    (w / weight % 256) as byte
  }

  function Add(a: Word32, b: Word32): Word32 {
    (a + b) % 0x1_0000_0000
  }

  function F(k: Keys, w: Word32): Word32
    requires k.Valid()
  {
    Add(X(Add(k.s[0][ByteOf(w, 0x100_0000)], k.s[1][ByteOf(w, 0x1_0000)]),
          k.s[2][ByteOf(w, 0x100)]),
        k.s[3][ByteOf(w, 1)])
  }

  // ---------------------------------------------------------------- rounds

  /**
    The two halves between rounds: `a` was changed last and `b` is changed next, by the round
    function of `a` and the subkey.
   */
  datatype Halves = Halves(a: Word32, b: Word32)

  function Round(k: Keys, h: Halves, subkey: Word32): Halves
    requires k.Valid()
  {
    Halves(X(h.b, X(F(k, h.a), subkey)), h.a)
  }

  function Rounds(k: Keys, h: Halves, subkeys: seq<Word32>): Halves
    requires k.Valid()
    decreases |subkeys|
  {
    if subkeys == [] then h else Round(k, Rounds(k, h, subkeys[..|subkeys| - 1]), subkeys[|subkeys| - 1])
  }

  /** The cipher with its subkeys taken in the given order. */
  function Cipher(k: Keys, order: seq<Word32>, x: Block): Block
    requires k.Valid() && |order| == 18
  {
    var h := Rounds(k, Halves(X(x.l, order[0]), x.r), order[1..17]);
    Block(X(h.b, order[17]), h.a)
  }

  function Encipher(k: Keys, x: Block): Block
    requires k.Valid()
  {
    Cipher(k, k.p, x)
  }

  function Decipher(k: Keys, x: Block): Block
    requires k.Valid()
  {
    Cipher(k, Reversed(k.p), x)
  }

  // ---------------------------------------------------------------- deciphering undoes enciphering

  function Swap(h: Halves): Halves {
    Halves(h.b, h.a)
  }

  /** A round run on the swapped halves undoes itself. */
  lemma RoundUndone(k: Keys, h: Halves, subkey: Word32)
    requires k.Valid()
    ensures Round(k, Swap(Round(k, h, subkey)), subkey) == Swap(h)
  {
    XCancels(h.b, X(F(k, h.a), subkey));
  }

  lemma {:induction false} RoundsOfFirst(k: Keys, h: Halves, first: Word32, rest: seq<Word32>)
    requires k.Valid()
    ensures Rounds(k, h, [first] + rest) == Rounds(k, Round(k, h, first), rest)
    decreases |rest|
  {
    hide Round;
    if rest == [] {
      assert [first] + rest == [] + [first];
      assert ([] + [first])[..0] == [];
    } else {
      var n := |rest| - 1;
      RoundsOfFirst(k, h, first, rest[..n]);
      assert ([first] + rest)[..n + 1] == [first] + rest[..n];
    }
  }

  lemma {:induction false} RoundsUndone(k: Keys, h: Halves, subkeys: seq<Word32>)
    requires k.Valid()
    ensures Rounds(k, Swap(Rounds(k, h, subkeys)), Reversed(subkeys)) == Swap(h)
    decreases |subkeys|
  {
    hide Round;
    if subkeys != [] {
      var n := |subkeys| - 1;
      var front, last := subkeys[..n], subkeys[n];
      RoundsUndone(k, h, front);
      RoundUndone(k, Rounds(k, h, front), last);
      RoundsOfFirst(k, Swap(Rounds(k, h, subkeys)), last, Reversed(front));
      ReversedOfSnoc(front, last);
      assert subkeys == front + [last];
    }
  }

  lemma ReversedMiddle(s: seq<Word32>)
    requires |s| == 18
    ensures Reversed(s)[0] == s[17] && Reversed(s)[17] == s[0] && Reversed(s)[1..17] == Reversed(s[1..17])
  {
  }

  lemma CipherUndone(k: Keys, order: seq<Word32>, x: Block)
    requires k.Valid() && |order| == 18
    ensures Cipher(k, Reversed(order), Cipher(k, order, x)) == x
  {
    hide X, Rounds, Reversed;
    var first := Halves(X(x.l, order[0]), x.r);
    var h := Rounds(k, first, order[1..17]);
    ReversedMiddle(order);
    XCancels(h.b, order[17]);
    RoundsUndone(k, first, order[1..17]);
    XCancels(x.l, order[0]);
  }

  lemma DecipherUndoesEncipher(k: Keys, x: Block)
    requires k.Valid()
    ensures Decipher(k, Encipher(k, x)) == x
    ensures Encipher(k, Decipher(k, x)) == x
  {
    CipherUndone(k, k.p, x);
    CipherUndone(k, Reversed(k.p), x);
    ReversedTwice(k.p);
  }

  // ---------------------------------------------------------------- as the source writes the rounds

  lemma RoundsSnoc(k: Keys, h: Halves, done: seq<Word32>, subkey: Word32)
    requires k.Valid()
    ensures Rounds(k, h, done + [subkey]) == Round(k, Rounds(k, h, done), subkey)
  {
    hide Round;
    assert (done + [subkey])[..|done|] == done;
  }

  lemma NoRounds(k: Keys, h: Halves)
    requires k.Valid()
    ensures Rounds(k, h, []) == h
  {
  }

  /** `right ^= F(left) ^ p0; left ^= F(right) ^ p1;` */
  method TwoRounds(k: Keys, left: Word32, right: Word32, p0: Word32, p1: Word32,
                   ghost start: Halves, ghost done: seq<Word32>)
    returns (l: Word32, r: Word32)
    requires k.Valid() && Rounds(k, start, done) == Halves(left, right)
    ensures Rounds(k, start, done + [p0, p1]) == Halves(l, r)
  {
    hide Rounds, F, X;
    RoundsSnoc(k, start, done, p0);
    RoundsSnoc(k, start, done + [p0], p1);
    assert done + [p0] + [p1] == done + [p0, p1];
    r := X(right, X(F(k, left), p0));
    l := X(left, X(F(k, r), p1));
  }

  method EightRounds(k: Keys, left: Word32, right: Word32, p: seq<Word32>,
                     ghost start: Halves, ghost done: seq<Word32>)
    returns (l: Word32, r: Word32)
    requires k.Valid() && |p| == 8 && Rounds(k, start, done) == Halves(left, right)
    ensures Rounds(k, start, done + p) == Halves(l, r)
  {
    hide Rounds, F, X;
    l, r := left, right;
    assert done + [] == done;
    l, r := TwoRounds(k, l, r, p[0], p[1], start, done);
    l, r := TwoRounds(k, l, r, p[2], p[3], start, done + [p[0], p[1]]);
    assert done + [p[0], p[1]] + [p[2], p[3]] == done + p[..4];
    l, r := TwoRounds(k, l, r, p[4], p[5], start, done + p[..4]);
    l, r := TwoRounds(k, l, r, p[6], p[7], start, done + p[..4] + [p[4], p[5]]);
    assert done + p[..4] + [p[4], p[5]] + [p[6], p[7]] == done + p;
  }

  lemma CipherIs(k: Keys, order: seq<Word32>, x: Block, h: Halves)
    requires k.Valid() && |order| == 18
    requires h == Rounds(k, Halves(X(x.l, order[0]), x.r), [] + order[1..9] + order[9..17])
    ensures Cipher(k, order, x) == Block(X(h.b, order[17]), h.a)
  {
    hide Rounds, F, X;
    assert [] + order[1..9] + order[9..17] == order[1..17];
  }

  method EncryptBlock(k: Keys, block: Block) returns (c: Block)
    requires k.Valid()
    ensures c == Encipher(k, block)
  {
    hide Rounds, F, X;
    var p := k.p;
    var left, right := X(block.l, p[0]), block.r;
    ghost var start := Halves(left, right);
    NoRounds(k, start);
    left, right := EightRounds(k, left, right, p[1..9], start, []);
    left, right := EightRounds(k, left, right, p[9..17], start, [] + p[1..9]);
    CipherIs(k, p, block, Halves(left, right));
    right := X(right, p[17]);
    c := Block(right, left);
  }

  method DecryptBlock(k: Keys, block: Block) returns (c: Block)
    requires k.Valid()
    ensures c == Decipher(k, block)
  {
    hide Rounds, F, X, Cipher, Reversed;
    var p := k.p;
    var left, right := X(block.l, p[17]), block.r;
    ghost var q := Reversed(p);
    ghost var start := Halves(left, right);
    NoRounds(k, start);
    ReversedParts(p);
    left, right := EightRounds(k, left, right, [p[16], p[15], p[14], p[13], p[12], p[11], p[10], p[9]], start, []);
    left, right := EightRounds(k, left, right, [p[8], p[7], p[6], p[5], p[4], p[3], p[2], p[1]], start, [] + q[1..9]);
    CipherIs(k, q, block, Halves(left, right));
    right := X(right, p[0]);
    c := Block(right, left);
  }

  lemma ReversedParts(p: seq<Word32>)
    requires |p| == 18
    ensures var q := Reversed(p);
      q[0] == p[17] && q[17] == p[0]
      && q[1..9] == [p[16], p[15], p[14], p[13], p[12], p[11], p[10], p[9]]
      && q[9..17] == [p[8], p[7], p[6], p[5], p[4], p[3], p[2], p[1]]
  {
  }

  // ---------------------------------------------------------------- blocks and bytes

  function WordOfBytes(b0: byte, b1: byte, b2: byte, b3: byte): Word32 {
    WindowIs(b0, b1, b2, b3);
    Window(b0, b1, b2, b3)
  }

  /** `BytesToBlock`. */
  function ToBlock(s: seq<byte>): Block
    requires |s| == 8
  {
    Block(WordOfBytes(s[0], s[1], s[2], s[3]), WordOfBytes(s[4], s[5], s[6], s[7]))
  }

  function BytesOfWord(w: Word32): (s: seq<byte>)
    ensures |s| == 4
  {
    [ByteOf(w, 0x100_0000), ByteOf(w, 0x1_0000), ByteOf(w, 0x100), ByteOf(w, 1)]
  }

  /** `BlockToBytes`. */
  function FromBlock(b: Block): (s: seq<byte>)
    ensures |s| == 8
  {
    BytesOfWord(b.l) + BytesOfWord(b.r)
  }

  lemma Octets(b0: nat, b1: nat, b2: nat, b3: nat)
    requires b0 < 256 && b1 < 256 && b2 < 256 && b3 < 256
    ensures var w := ((b0 * 256 + b1) * 256 + b2) * 256 + b3;
      w / 0x100_0000 == b0 && w / 0x1_0000 == b0 * 256 + b1 && w / 0x100 == (b0 * 256 + b1) * 256 + b2
  {
  }

  lemma SplitOctets(w: nat)
    requires w < 0x1_0000_0000
    ensures w / 0x100_0000 < 256
    ensures w == ((w / 0x100_0000 * 256 + w / 0x1_0000 % 256) * 256 + w / 0x100 % 256) * 256 + w % 256
  {
    assert w / 0x100_0000 == w / 0x1_0000 / 256;
    assert w / 0x1_0000 == w / 0x100 / 256;
  }

  lemma BytesOfWordOf(b0: byte, b1: byte, b2: byte, b3: byte)
    ensures BytesOfWord(WordOfBytes(b0, b1, b2, b3)) == [b0, b1, b2, b3]
  {
    hide ByteOf, Window;
    WindowIs(b0, b1, b2, b3);
    Octets(b0 as nat, b1 as nat, b2 as nat, b3 as nat);
    BytesAre(WordOfBytes(b0, b1, b2, b3));
  }

  lemma WordOfBytesOf(w: Word32)
    ensures var s := BytesOfWord(w); WordOfBytes(s[0], s[1], s[2], s[3]) == w
  {
    hide ByteOf, Window;
    var s := BytesOfWord(w);
    WindowIs(s[0], s[1], s[2], s[3]);
    SplitOctets(w);
    BytesAre(w);
    TopByte(w);
  }

  lemma TopByte(w: Word32)
    ensures w / 0x100_0000 % 256 == w / 0x100_0000
  {
  }

  lemma BytesAre(w: Word32)
    ensures ByteOf(w, 0x100_0000) as nat == w / 0x100_0000 % 256
    ensures ByteOf(w, 0x1_0000) as nat == w / 0x1_0000 % 256
    ensures ByteOf(w, 0x100) as nat == w / 0x100 % 256
    ensures ByteOf(w, 1) as nat == w % 256
  {
  }

  lemma FromBlockOfToBlock(s: seq<byte>)
    requires |s| == 8
    ensures FromBlock(ToBlock(s)) == s
  {
    BytesOfWordOf(s[0], s[1], s[2], s[3]);
    BytesOfWordOf(s[4], s[5], s[6], s[7]);
    hide BytesOfWord, WordOfBytes;
  }

  lemma ToBlockOfFromBlock(b: Block)
    ensures ToBlock(FromBlock(b)) == b
  {
    WordOfBytesOf(b.l);
    WordOfBytesOf(b.r);
    hide BytesOfWord, WordOfBytes;
  }
}
