/** What the bitwise operations on numbers do to each bit. */
module WordBits {
  import opened Bits
  import opened Words
  import opened BitStrings

  predicate BitAt(v: nat, i: nat) {
    v / Pow2(i) % 2 == 1
  }

  lemma BitsBelow(v: nat, i: nat)
    ensures BitAt(v, 0) == (v % 2 == 1)
    ensures BitAt(v, i + 1) == BitAt(v / 2, i)
  {
    HalfOfQuotient(v, Pow2(i));
    assert Pow2(i + 1) == 2 * Pow2(i);
  }

  /** Bit by bit: "or", "and" and "exclusive or" of two numbers. */
  lemma {:induction false} BitwiseIs(a: nat, b: nat, i: nat)
    ensures BitAt(Or(a, b), i) == (BitAt(a, i) || BitAt(b, i))
    ensures BitAt(And(a, b), i) == (BitAt(a, i) && BitAt(b, i))
    ensures BitAt(Xor(a, b), i) == (BitAt(a, i) != BitAt(b, i))
    decreases i
  {
    OrStep(a, b);
    AndStep(a, b);
    XorStep(a, b);
    hide Or, And, Xor, BitAt;
    var j := if i > 0 then i - 1 else 0;
    BitsBelow(a, j);
    BitsBelow(b, j);
    BitsBelow(Or(a, b), j);
    BitsBelow(And(a, b), j);
    BitsBelow(Xor(a, b), j);
    if i > 0 {
      BitwiseIs(a / 2, b / 2, i - 1);
    }
  }
}
