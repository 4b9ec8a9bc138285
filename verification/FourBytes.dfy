/** A 32-bit word put together from four bytes by shifts and "or". */
module FourBytes {
  import opened Bytes
  import opened Bits
  import opened Words
  import opened BigEndian

  /** `b << n`. */
  function Up(b: byte, n: nat): nat {
    b as nat * Pow2(n)
  }

  function Window(b0: byte, b1: byte, b2: byte, b3: byte): nat {
    Or(Or(Or(Up(b0, 24), Up(b1, 16)), Up(b2, 8)), b3 as nat)
  }

  lemma BytePowersAre()
    ensures Pow2(8) == 0x100 && Pow2(16) == 0x1_0000 && Pow2(24) == 0x100_0000
  {
    Pow2Eight();
    hide Pow2;
    Pow2Add(8, 8);
    Pow2Add(16, 8);
  }

  lemma OrBelow(a: nat, b: nat, k: nat, p: nat)
    requires p == Pow2(k) && b < p
    ensures Or(a * p, b) == a * p + b
  {
    OrOfMultiple(a, b, k);
  }

  lemma WindowIs(b0: byte, b1: byte, b2: byte, b3: byte)
    ensures Window(b0, b1, b2, b3) == ((b0 as nat * 256 + b1 as nat) * 256 + b2 as nat) * 256 + b3 as nat
  {
    hide Or, Pow2;
    BytePowersAre();
    var x0, x1, x2 := b0 as nat, b0 as nat * 256 + b1 as nat, (b0 as nat * 256 + b1 as nat) * 256 + b2 as nat;
    OrBelow(x0, Up(b1, 16), 24, 0x100_0000);
    OrBelow(x1, Up(b2, 8), 16, 0x1_0000);
    OrBelow(x2, b3 as nat, 8, 0x100);
  }
}
