/** The integer that a string of bytes stands for, most significant byte first. */
module BigEndian {
  import opened Bytes
  import opened Arith
  import opened Bits
  import opened Words

  function ValueOf(s: seq<byte>): nat {
    if s == [] then 0 else ValueOf(s[..|s| - 1]) * 256 + s[|s| - 1] as nat
  }

  /** 256 to the n. */
  function Pow256(n: nat): (p: nat)
    ensures p >= 1
  {
    if n == 0 then 1 else 256 * Pow256(n - 1)
  }

  lemma {:induction false} Pow256Add(a: nat, b: nat)
    ensures Pow256(a + b) == Pow256(a) * Pow256(b)
    decreases a
  {
    if a > 0 {
      Pow256Add(a - 1, b);
      assert 256 * (Pow256(a - 1) * Pow256(b)) == 256 * Pow256(a - 1) * Pow256(b);
    }
  }

  lemma Pow2Eight()
    ensures Pow2(8) == 256
  {
    assert Pow2(4) == 16 && Pow2(8) == 16 * Pow2(4);
  }

  lemma {:induction false} Pow256IsPow2(n: nat)
    ensures Pow256(n) == Pow2(8 * n)
    decreases n
  {
    if n > 0 {
      Pow256IsPow2(n - 1);
      Pow2Add(8, 8 * (n - 1));
      Pow2Eight();
      hide Pow2;
    }
  }

  lemma ValueOfSnoc(s: seq<byte>, b: byte)
    ensures ValueOf(s + [b]) == ValueOf(s) * 256 + b as nat
  {
    assert (s + [b])[..|s|] == s;
  }

  lemma {:induction false} ValueBound(s: seq<byte>)
    ensures ValueOf(s) < Pow256(|s|)
    decreases |s|
  {
    if s != [] {
      ValueBound(s[..|s| - 1]);
    }
  }

  lemma {:induction false} ValueOfConcat(a: seq<byte>, b: seq<byte>)
    ensures ValueOf(a + b) == ValueOf(a) * Pow256(|b|) + ValueOf(b)
    decreases |b|
  {
    if b == [] {
      assert a + b == a;
    } else {
      var front, last := b[..|b| - 1], b[|b| - 1];
      ValueOfConcat(a, front);
      assert a + b == a + front + [last];
      ValueOfSnoc(a + front, last);
      assert (ValueOf(a) * Pow256(|front|)) * 256 == ValueOf(a) * (256 * Pow256(|front|));
    }
  }

  lemma {:induction false} ValueOfZeros(n: nat)
    ensures ValueOf(ZeroBytes(n)) == 0
  {
    if n > 0 {
      assert ZeroBytes(n)[..n - 1] == ZeroBytes(n - 1);
      ValueOfZeros(n - 1);
    }
  }

  // ---------------------------------------------------------------- order

  /** `memcmp`: the first difference decides. */
  function Memcmp(a: seq<byte>, b: seq<byte>): int
    requires |a| == |b|
  {
    if a == [] then 0 else if a[0] != b[0] then a[0] as int - b[0] as int else Memcmp(a[1..], b[1..])
  }

  lemma ValueOfFirst(s: seq<byte>)
    requires s != []
    ensures ValueOf(s) == s[0] as nat * Pow256(|s| - 1) + ValueOf(s[1..])
    ensures ValueOf(s[1..]) < Pow256(|s| - 1)
  {
    hide ValueOf, Pow256;
    assert s == [s[0]] + s[1..];
    ValueOfConcat([s[0]], s[1..]);
    ValueOfByte(s[0]);
    ValueBound(s[1..]);
  }

  lemma ValueOfByte(b: byte)
    ensures ValueOf([b]) == b as nat
  {
    assert [b][..0] == [];
  }

  /** Comparing bytes from the front compares the numbers. */
  lemma {:induction false} MemcmpIsOrder(a: seq<byte>, b: seq<byte>)
    requires |a| == |b|
    ensures Memcmp(a, b) < 0 <==> ValueOf(a) < ValueOf(b)
    ensures Memcmp(a, b) == 0 <==> ValueOf(a) == ValueOf(b)
    decreases |a|
  {
    if a != [] {
      ValueOfFirst(a);
      ValueOfFirst(b);
      MemcmpIsOrder(a[1..], b[1..]);
      FirstDecides(a[0] as nat, b[0] as nat, ValueOf(a[1..]), ValueOf(b[1..]), Pow256(|a| - 1));
      hide ValueOf, Pow256;
    }
  }

  lemma FirstDecides(x: nat, y: nat, v: nat, w: nat, p: nat)
    requires v < p && w < p
    ensures x < y ==> x * p + v < y * p + w
    ensures y < x ==> y * p + w < x * p + v
  {
    MulStep(x, y, p);
    MulStep(y, x, p);
  }
}
