/** Shifting a digest, as one long big-endian number, by any number of bits. */
module DigestShift {
  import opened Bytes
  import opened Arith
  import opened Bits
  import opened Words
  import opened BigEndian

  // ---------------------------------------------------------------- by less than a byte

  /** `(a << i) | (b >> (8 - i))`, stored in a byte. */
  function LeftByte(a: byte, b: byte, i: nat): byte
    requires i < 8
  {
    (Or(a as nat * Pow2(i), Shr(b as nat, 8 - i)) % 256) as byte
  }

  /** `(a >> i) | (b << (8 - i))`, stored in a byte. */
  function RightByte(a: byte, b: byte, i: nat): byte
    requires i < 8
  {
    (Or(Shr(a as nat, i), b as nat * Pow2(8 - i)) % 256) as byte
  }

  lemma BytePowers(i: nat)
    requires i <= 8
    ensures Pow2(i) * Pow2(8 - i) == 256
  {
    Pow2Add(i, 8 - i);
    Pow2Eight();
  }

  /** A byte times p: what leaves the byte and what stays. */
  lemma Spill(a: nat, p: nat, q: nat)
    requires p >= 1 && q >= 1 && p * q == 256
    ensures a * p == (a / q) * 256 + (a % q) * p && 0 <= (a % q) * p <= 256 - p
    ensures a < 256 ==> 0 <= a / q < p
  {
    DivFacts(a, q);
    MulStep(a % q, q, p);
    assert (a / q * q + a % q) * p == (a / q) * (p * q) + (a % q) * p;
    DivLower(a, q, 0);
    MulMono(p, a / q, q);
  }

  lemma LeftByteIs(a: byte, b: byte, i: nat)
    requires i < 8
    ensures LeftByte(a, b, i) as nat == (a as nat % Pow2(8 - i)) * Pow2(i) + b as nat / Pow2(8 - i)
  {
    BytePowers(i);
    var p, q := Pow2(i), Pow2(8 - i);
    Spill(a as nat, p, q);
    Spill(b as nat, p, q);
    OrOfMultiple(a as nat, b as nat / q, i);
    hide Or, Pow2;
    DivIs(a as nat * p + b as nat / q, 256, a as nat / q, (a as nat % q) * p + b as nat / q);
  }

  lemma RightByteIs(a: byte, b: byte, i: nat)
    requires i < 8
    ensures RightByte(a, b, i) as nat == a as nat / Pow2(i) + (b as nat % Pow2(i)) * Pow2(8 - i)
  {
    BytePowers(i);
    var p, q := Pow2(i), Pow2(8 - i);
    Spill(a as nat, q, p);
    Spill(b as nat, q, p);
    hide Or, Pow2;
    OrOfMultiple(b as nat, a as nat / p, 8 - i);
    OrCommutes(a as nat / p, b as nat * q);
    DivIs(b as nat * q + a as nat / p, 256, b as nat / p, (b as nat % p) * q + a as nat / p);
  }

  function At(s: seq<byte>, p: nat): byte {
    if p < |s| then s[p] else 0
  }

  function Before(s: seq<byte>, p: nat): byte
    requires p <= |s|
  {
    if p > 0 then s[p - 1] else 0
  }

  function LeftBits(s: seq<byte>, i: nat): (t: seq<byte>)
    requires i < 8
    ensures |t| == |s|
  {
    seq(|s|, p requires 0 <= p < |s| => LeftByte(s[p], At(s, p + 1), i))
  }

  function RightBits(s: seq<byte>, i: nat): (t: seq<byte>)
    requires i < 8
    ensures |t| == |s|
  {
    seq(|s|, p requires 0 <= p < |s| => RightByte(s[p], Before(s, p), i))
  }

  lemma ModByte(x: nat, m: nat, t: nat)
    requires m >= 1 && t < 256
    ensures (x * 256 + t) % (256 * m) == (x % m) * 256 + t
  {
    DivFacts(x, m);
    var q, r := x / m, x % m;
    assert x * 256 + t == q * (256 * m) + (r * 256 + t) by {
      assert (q * m + r) * 256 == q * (256 * m) + r * 256;
    }
    DivIs(x * 256 + t, 256 * m, q, r * 256 + t);
  }

  /** The first k bytes hold the first k bytes of the product, with what the next byte pushes in. */
  lemma {:induction false} LeftBitsPrefix(s: seq<byte>, i: nat, k: nat)
    requires i < 8 && k <= |s|
    ensures ValueOf(LeftBits(s, i)[..k]) == Mod(ValueOf(s[..k]) * Pow2(i) + Shr(At(s, k) as nat, 8 - i), Pow256(k))
    decreases k
  {
    hide *;
    if k == 0 {
      NoBytes(ValueOf(s[..0]) * Pow2(i) + Shr(At(s, 0) as nat, 8 - i));
      assert LeftBits(s, i)[..0] == [];
    } else {
      var t := LeftBits(s, i);
      LeftBitsPrefix(s, i, k - 1);
      LastByte(s, i, k);
      ValueOfSnoc(s[..k - 1], s[k - 1]);
      ValueOfSnoc(t[..k - 1], t[k - 1]);
      LeftStep(ValueOf(s[..k - 1]), s[k - 1], Shr(At(s, k) as nat, 8 - i), t[k - 1], Pow2(i), Pow2(8 - i),
          Pow256(k - 1));
    }
  }

  function Mod(x: nat, m: nat): nat
    requires m >= 1
  {
    x % m
  }

  lemma NoBytes(x: nat)
    ensures Pow256(0) == 1 && Mod(x, 1) == 0 && ValueOf([]) == 0
  {
  }

  lemma LastByte(s: seq<byte>, i: nat, k: nat)
    requires i < 8 && 0 < k <= |s|
    ensures var t := LeftBits(s, i);
      s[..k] == s[..k - 1] + [s[k - 1]] && t[..k] == t[..k - 1] + [t[k - 1]]
      && t[k - 1] as nat == (s[k - 1] as nat % Pow2(8 - i)) * Pow2(i) + Shr(At(s, k) as nat, 8 - i)
    ensures At(s, k - 1) == s[k - 1] && Shr(s[k - 1] as nat, 8 - i) == s[k - 1] as nat / Pow2(8 - i)
    ensures Pow256(k) == 256 * Pow256(k - 1) && Pow2(i) * Pow2(8 - i) == 256
  {
    hide LeftByte, Pow2;
    LeftByteIs(s[k - 1], At(s, k), i);
    BytePowers(i);
  }

  lemma ZeroOver(q: nat)
    requires q >= 1
    ensures 0 / q == 0
  {
    DivIs(0, q, 0, 0);
  }

  lemma LeftStep(v: nat, b: byte, next: nat, t: byte, p: nat, q: nat, m: nat)
    requires p >= 1 && q >= 1 && p * q == 256 && m >= 1
    requires t as nat == (b as nat % q) * p + next
    ensures 0 <= b as nat / q
    ensures Mod(v * p + b as nat / q, m) * 256 + t as nat == Mod((v * 256 + b as nat) * p + next, 256 * m)
  {
    Spill(b as nat, p, q);
    ModByte(v * p + b as nat / q, m, t as nat);
    assert (v * 256 + b as nat) * p == (v * p) * 256 + b as nat * p;
  }

  lemma {:induction false} RightBitsPrefix(s: seq<byte>, i: nat, k: nat)
    requires i < 8 && k <= |s|
    ensures ValueOf(RightBits(s, i)[..k]) == Shr(ValueOf(s[..k]), i)
    ensures Mod(ValueOf(s[..k]), Pow2(i)) == Mod(Before(s, k) as nat, Pow2(i))
    decreases k
  {
    hide *;
    if k == 0 {
      NothingShifted(s, i);
      assert RightBits(s, i)[..0] == [];
    } else {
      var t := RightBits(s, i);
      RightBitsPrefix(s, i, k - 1);
      LastByteRight(s, i, k);
      ValueOfSnoc(s[..k - 1], s[k - 1]);
      ValueOfSnoc(t[..k - 1], t[k - 1]);
      RightStep(ValueOf(s[..k - 1]), s[k - 1], t[k - 1], i);
    }
  }

  lemma NothingShifted(s: seq<byte>, i: nat)
    ensures ValueOf([]) == 0 && Shr(0, i) == 0 && s[..0] == [] && Before(s, 0) == 0
  {
    ZeroOver(Pow2(i));
  }

  lemma LastByteRight(s: seq<byte>, i: nat, k: nat)
    requires i < 8 && 0 < k <= |s|
    ensures var t := RightBits(s, i);
      s[..k] == s[..k - 1] + [s[k - 1]] && t[..k] == t[..k - 1] + [t[k - 1]]
      && t[k - 1] as nat == Shr(s[k - 1] as nat, i) + Mod(Before(s, k - 1) as nat, Pow2(i)) * Pow2(8 - i)
    ensures Before(s, k) == s[k - 1]
  {
    hide RightByte, Pow2;
    RightByteIs(s[k - 1], Before(s, k - 1), i);
  }

  lemma RightStep(v: nat, b: byte, t: byte, i: nat)
    requires i < 8
    requires t as nat == Shr(b as nat, i) + Mod(v, Pow2(i)) * Pow2(8 - i)
    ensures Shr(v, i) * 256 + t as nat == Shr(v * 256 + b as nat, i)
    ensures Mod(v * 256 + b as nat, Pow2(i)) == Mod(b as nat, Pow2(i))
  {
    BytePowers(i);
    hide Pow2;
    CarryDown(v, b as nat, Pow2(i), Pow2(8 - i));
  }

  lemma CarryDown(v: nat, b: nat, p: nat, q: nat)
    requires p >= 1 && q >= 1 && p * q == 256
    ensures (v / p) * 256 + (b / p + (v % p) * q) == (v * 256 + b) / p
    ensures (v * 256 + b) % p == b % p
  {
    DivFacts(v, p);
    DivFacts(b, p);
    var x, r, c, d := v / p, v % p, b / p, b % p;
    assert v * 256 == x * 256 * p + r * (p * q) by {
      assert (x * p + r) * 256 == x * 256 * p + r * 256;
    }
    assert (x * 256 + (c + r * q)) * p == x * 256 * p + c * p + r * (p * q);
    DivIs(v * 256 + b, p, x * 256 + (c + r * q), d);
  }

  lemma LeftBitsValue(s: seq<byte>, i: nat)
    requires i < 8
    ensures ValueOf(LeftBits(s, i)) == ValueOf(s) * Pow2(i) % Pow256(|s|)
  {
    LeftBitsPrefix(s, i, |s|);
    ZeroOver(Pow2(8 - i));
    assert s[..|s|] == s && LeftBits(s, i)[..|s|] == LeftBits(s, i);
  }

  lemma RightBitsValue(s: seq<byte>, i: nat)
    requires i < 8
    ensures ValueOf(RightBits(s, i)) == ValueOf(s) / Pow2(i)
  {
    RightBitsPrefix(s, i, |s|);
    assert s[..|s|] == s && RightBits(s, i)[..|s|] == RightBits(s, i);
  }

  // ---------------------------------------------------------------- by whole bytes

  function BytesLeft(s: seq<byte>, k: nat): (t: seq<byte>)
    ensures |t| == |s|
  {
    if k < |s| then s[k..] + ZeroBytes(k) else ZeroBytes(|s|)
  }

  function BytesRight(s: seq<byte>, k: nat): (t: seq<byte>)
    ensures |t| == |s|
  {
    if k < |s| then ZeroBytes(k) + s[..|s| - k] else ZeroBytes(|s|)
  }

  lemma BytesLeftValue(s: seq<byte>, k: nat)
    ensures ValueOf(BytesLeft(s, k)) == ValueOf(s) * Pow256(k) % Pow256(|s|)
  {
    hide ValueOf, Pow256;
    var n := |s|;
    if k < n {
      var a, b := s[..k], s[k..];
      assert s == a + b;
      ValueOfConcat(a, b);
      ValueOfConcat(b, ZeroBytes(k));
      ValueOfZeros(k);
      ValueBound(b);
      Pow256Add(n - k, k);
      DropHigh(ValueOf(a), ValueOf(b), Pow256(n - k), Pow256(k));
    } else {
      ValueOfZeros(n);
      Pow256Add(n, k - n);
      DropAll(ValueOf(s), Pow256(n), Pow256(k - n));
    }
  }

  lemma DropHigh(a: nat, b: nat, m: nat, p: nat)
    requires m >= 1 && p >= 1 && b < m
    ensures m * p >= 1 && (a * m + b) * p % (m * p) == b * p
  {
    MulStep(b, m, p);
    assert (a * m + b) * p == a * (m * p) + b * p;
    DivIs((a * m + b) * p, m * p, a, b * p);
  }

  lemma DropAll(v: nat, m: nat, p: nat)
    requires m >= 1
    ensures v * (m * p) % m == 0
  {
    assert v * (m * p) == (v * p) * m;
    DivIs(v * (m * p), m, v * p, 0);
  }

  lemma BytesRightValue(s: seq<byte>, k: nat)
    ensures ValueOf(BytesRight(s, k)) == ValueOf(s) / Pow256(k)
  {
    hide ValueOf, Pow256;
    var n := |s|;
    if k < n {
      var a, b := s[..n - k], s[n - k..];
      assert s == a + b;
      ValueOfConcat(a, b);
      ValueBound(b);
      ValueOfConcat(ZeroBytes(k), a);
      ValueOfZeros(k);
      DivIs(ValueOf(s), Pow256(k), ValueOf(a), ValueOf(b));
    } else {
      ValueOfZeros(n);
      ValueBound(s);
      Pow256Add(n, k - n);
      MulMono(1, Pow256(k - n), Pow256(n));
      DivIs(ValueOf(s), Pow256(k), 0, ValueOf(s));
    }
  }

  // ---------------------------------------------------------------- by any number of bits

  function ShiftedLeft(s: seq<byte>, i: nat): (t: seq<byte>)
    ensures |t| == |s|
  {
    LeftBits(if i < 8 then s else BytesLeft(s, i / 8), i % 8)
  }

  function ShiftedRight(s: seq<byte>, i: nat): (t: seq<byte>)
    ensures |t| == |s|
  {
    RightBits(if i < 8 then s else BytesRight(s, i / 8), i % 8)
  }

  lemma SplitPower(i: nat)
    ensures Pow2(i) == Pow256(i / 8) * Pow2(i % 8)
  {
    Pow256IsPow2(i / 8);
    Pow2Add(8 * (i / 8), i % 8);
  }

  /** A left shift multiplies by a power of two, modulo the size of the digest. */
  lemma ShiftedLeftValue(s: seq<byte>, i: nat)
    ensures ValueOf(ShiftedLeft(s, i)) == ValueOf(s) * Pow2(i) % Pow256(|s|)
  {
    hide ValueOf, Pow256, Pow2, LeftBits, BytesLeft;
    if i < 8 {
      LeftBitsValue(s, i);
    } else {
      var v, a, p := ValueOf(s), Pow256(i / 8), Pow2(i % 8);
      BytesLeftValue(s, i / 8);
      LeftBitsValue(BytesLeft(s, i / 8), i % 8);
      SplitPower(i);
      ModScale(v * a, p, Pow256(|s|));
      assert v * a * p == v * (a * p);
    }
  }

  /** A right shift divides by a power of two. */
  lemma ShiftedRightValue(s: seq<byte>, i: nat)
    ensures ValueOf(ShiftedRight(s, i)) == ValueOf(s) / Pow2(i)
  {
    hide ValueOf, Pow256, Pow2, RightBits, BytesRight;
    if i < 8 {
      RightBitsValue(s, i);
    } else {
      BytesRightValue(s, i / 8);
      RightBitsValue(BytesRight(s, i / 8), i % 8);
      SplitPower(i);
      DivDiv(ValueOf(s), Pow256(i / 8), Pow2(i % 8));
    }
  }

  // ---------------------------------------------------------------- on arrays

  method MoveLeft(inp: array<byte>, out: array<byte>, count: nat)
    requires inp != out && inp.Length == out.Length
    modifies out
    ensures out[..] == BytesLeft(inp[..], count)
  {
    var n := out.Length;
    var i := count;
    if i < n {
      for p := 0 to n - i
        invariant forall k :: 0 <= k < p ==> out[k] == inp[k + i]
      {
        out[p] := inp[p + i];
      }
    } else {
      i := n;
    }
    for p := n - i to n
      invariant forall k :: 0 <= k < n - i ==> out[k] == inp[k + i]
      invariant forall k :: n - i <= k < p ==> out[k] == 0
    {
      out[p] := 0;
    }
  }

  method MoveRight(inp: array<byte>, out: array<byte>, count: nat)
    requires inp != out && inp.Length == out.Length
    modifies out
    ensures out[..] == BytesRight(inp[..], count)
  {
    var n := out.Length;
    var i := count;
    if i < n {
      for p := 0 to n - i
        invariant forall k :: i <= k < i + p ==> out[k] == inp[k - i]
      {
        out[p + i] := inp[p];
      }
    } else {
      i := n;
    }
    for p := 0 to i
      invariant forall k :: i <= k < n ==> out[k] == inp[k - i]
      invariant forall k :: 0 <= k < p ==> out[k] == 0
    {
      out[p] := 0;
    }
  }

  lemma LastLeftByte(a: byte, i: nat)
    requires i < 8
    ensures LeftByte(a, 0, i) as nat == a as nat * Pow2(i) % 256
  {
    ZeroOver(Pow2(8 - i));
    OrOfMultiple(a as nat, 0, i);
  }

  lemma FirstRightByte(a: byte, i: nat)
    requires i < 8
    ensures RightByte(a, 0, i) as nat == Shr(a as nat, i)
  {
    hide RightByte, Pow2;
    RightByteIs(a, 0, i);
    DivIs(0, Pow2(i), 0, 0);
  }

  /** The second pass, in place or from one buffer to another. */
  method PassLeft(inp: array<byte>, out: array<byte>, i: nat)
    requires inp.Length == out.Length >= 1 && i < 8
    modifies out
    ensures out[..] == LeftBits(old(inp[..]), i)
  {
    hide LeftByte;
    ghost var s := inp[..];
    var n := out.Length;
    var p := 0;
    while p < n - 1
      invariant 0 <= p <= n - 1
      invariant forall k :: 0 <= k < p ==> out[k] == LeftByte(s[k], At(s, k + 1), i)
      invariant forall k :: p <= k < n ==> inp[k] == s[k]
    {
      out[p] := LeftByte(inp[p], inp[p + 1], i);
      p := p + 1;
    }
    LastLeftByte(inp[p], i);
    out[p] := (inp[p] as nat * Pow2(i) % 256) as byte;
    assert out[..] == LeftBits(s, i);
  }

  method PassRight(inp: array<byte>, out: array<byte>, i: nat)
    requires inp.Length == out.Length >= 1 && i < 8
    modifies out
    ensures out[..] == RightBits(old(inp[..]), i)
  {
    hide RightByte;
    ghost var s := inp[..];
    var n := out.Length;
    var p := n - 1;
    while p > 0
      invariant 0 <= p <= n - 1
      invariant forall k :: p < k < n ==> out[k] == RightByte(s[k], Before(s, k), i)
      invariant forall k :: 0 <= k <= p ==> inp[k] == s[k]
    {
      out[p] := RightByte(inp[p], inp[p - 1], i);
      p := p - 1;
    }
    FirstRightByte(inp[p], i);
    out[p] := Shr(inp[p] as nat, i) as byte;
    assert out[..] == RightBits(s, i);
  }

  /** `shift_l`; a shift by whole bytes needs two buffers. */
  method ShiftL(inp: array<byte>, out: array<byte>, i: nat)
    requires inp.Length == out.Length >= 1 && (inp != out || i < 8)
    modifies out
    ensures out[..] == ShiftedLeft(old(inp[..]), i)
    ensures ValueOf(out[..]) == ValueOf(old(inp[..])) * Pow2(i) % Pow256(out.Length)
  {
    hide LeftBits, BytesLeft, ValueOf, Pow2, Pow256;
    ShiftedLeftValue(inp[..], i);
    if i >= 8 {
      MoveLeft(inp, out, i / 8);
      PassLeft(out, out, i % 8);
    } else {
      PassLeft(inp, out, i);
    }
  }

  method ShiftR(inp: array<byte>, out: array<byte>, i: nat)
    requires inp.Length == out.Length >= 1 && (inp != out || i < 8)
    modifies out
    ensures out[..] == ShiftedRight(old(inp[..]), i)
    ensures ValueOf(out[..]) == ValueOf(old(inp[..])) / Pow2(i)
  {
    hide RightBits, BytesRight, ValueOf, Pow2, Pow256;
    ShiftedRightValue(inp[..], i);
    if i >= 8 {
      MoveRight(inp, out, i / 8);
      PassRight(out, out, i % 8);
    } else {
      PassRight(inp, out, i);
    }
  }
}
