/**
  SHA3-256 as FIPS 202 defines it, on bit strings: the state of section 3.1.2 is 1600 bits, bit
  (x, y, z) at index 64(5y + x) + z. Nothing here is shared with the model of the implementation.
 */
module Fips202 {
  type State = s: seq<bool> | |s| == 1600 witness seq(1600, i => false)

  /** A[x, y, z], coordinates taken modulo 5, 5 and 64. */
  function Bit(s: State, x: int, y: int, z: int): bool {
    s[64 * (5 * (y % 5) + x % 5) + z % 64]
  }

  function X(n: nat): nat {
    n / 64 % 5
  }

  function Y(n: nat): nat {
    n / 320
  }

  function Z(n: nat): nat {
    n % 64
  }

  // ---------------------------------------------------------------- the step mappings of section 3.2

  function Column(s: State, x: int, z: int): bool {
    (((Bit(s, x, 0, z) != Bit(s, x, 1, z)) != Bit(s, x, 2, z)) != Bit(s, x, 3, z)) != Bit(s, x, 4, z)
  }

  function ThetaBit(s: State, x: int, y: int, z: int): bool {
    Bit(s, x, y, z) != (Column(s, x - 1, z) != Column(s, x + 1, z - 1))
  }

  function Theta(s: State): State {
    seq(1600, n requires 0 <= n < 1600 => ThetaBit(s, X(n), Y(n), Z(n)))
  }

  /** The walk of algorithm 2: from (1, 0), each time to (y, 2x + 3y). */
  function WalkX(t: nat): nat {
    if t == 0 then 1 else WalkY(t - 1)
  }

  function WalkY(t: nat): nat {
    if t == 0 then 0 else (2 * WalkX(t - 1) + 3 * WalkY(t - 1)) % 5
  }

  /** The first of the steps from t on that is at (x, y), among 24. */
  function Visit(x: nat, y: nat, t: nat): (v: nat)
    requires t <= 24
    ensures t <= v <= 24
    decreases 24 - t
  {
    if t == 24 || (WalkX(t) == x && WalkY(t) == y) then t else Visit(x, y, t + 1)
  }

  function RhoOffset(x: nat, y: nat): nat {
    if x == 0 && y == 0 then 0
    else
      var t := Visit(x, y, 0);
      (t + 1) * (t + 2) / 2
  }

  function Rho(s: State): State {
    seq(1600, n requires 0 <= n < 1600 => Bit(s, X(n), Y(n), Z(n) - RhoOffset(X(n), Y(n))))
  }

  function Pi(s: State): State {
    seq(1600, n requires 0 <= n < 1600 => Bit(s, X(n) + 3 * Y(n), X(n), Z(n)))
  }

  function ChiBit(s: State, x: int, y: int, z: int): bool {
    Bit(s, x, y, z) != (!Bit(s, x + 1, y, z) && Bit(s, x + 2, y, z))
  }

  function Chi(s: State): State {
    seq(1600, n requires 0 <= n < 1600 => ChiBit(s, X(n), Y(n), Z(n)))
  }

  /** The register of algorithm 5 after t steps. */
  function Register(t: nat): (r: seq<bool>)
    ensures |r| == 8
  {
    if t == 0 then [true, false, false, false, false, false, false, false]
    else
      var r := Register(t - 1);
      [r[7], r[0], r[1], r[2], r[3] != r[7], r[4] != r[7], r[5] != r[7], r[6]]
  }

  function Rc(t: nat): bool {
    Register(t % 255)[0]
  }

  /** Bit z of the constant of round i. */
  function RoundBit(i: nat, z: nat): bool {
    if z == 0 then Rc(7 * i) else if z == 1 then Rc(1 + 7 * i) else if z == 3 then Rc(2 + 7 * i)
    else if z == 7 then Rc(3 + 7 * i) else if z == 15 then Rc(4 + 7 * i) else if z == 31 then Rc(5 + 7 * i)
    else if z == 63 then Rc(6 + 7 * i) else false
  }

  function Iota(s: State, i: nat): State {
    seq(1600, n requires 0 <= n < 1600 => s[n] != (n < 64 && RoundBit(i, n)))
  }

  function Rounds(s: State, n: nat): State
    decreases n
  {
    if n == 0 then s else Iota(Chi(Pi(Rho(Theta(Rounds(s, n - 1))))), n - 1)
  }

  /** Keccak-f[1600]: 24 rounds. */
  function Permutation(s: State): State {
    Rounds(s, 24)
  }

  // ---------------------------------------------------------------- sections 4 to 6

  function Falses(n: nat): (z: seq<bool>)
    ensures |z| == n
  {
    seq(n, i => false)
  }

  /** pad10*1 to a multiple of 1088 bits. */
  function Padded(n: seq<bool>): (p: seq<bool>)
    ensures |p| % 1088 == 0
  {
    n + [true] + Falses((-2 - |n|) % 1088) + [true]
  }

  function Added(s: State, block: seq<bool>): State
    requires |block| == 1088
  {
    seq(1600, n requires 0 <= n < 1600 => s[n] != (n < 1088 && block[n]))
  }

  function Absorbed(s: State, p: seq<bool>): State
    decreases |p|
  {
    if |p| < 1088 then s else Absorbed(Permutation(Added(s, p[..1088])), p[1088..])
  }

  /** KECCAK[512] with 256 bits of output. */
  function Keccak512(n: seq<bool>): (d: seq<bool>)
    ensures |d| == 256
  {
    Absorbed(Falses(1600), Padded(n))[..256]
  }

  /** SHA3-256 appends 01 to the message; the original Keccak submission appends nothing. */
  function Sha3_256(m: seq<bool>): seq<bool> {
    Keccak512(m + [false, true])
  }
}
