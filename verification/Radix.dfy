/** Positional numerals in any base, and changing the base while keeping leading zeros. */
module Radix {
  import opened Arith

  /** The number of a string of digits, most significant first. */
  function ValueIn(d: seq<nat>, b: nat): nat {
    if d == [] then 0 else ValueIn(d[..|d| - 1], b) * b + d[|d| - 1]
  }

  /** The digits of a number without leading zeros; none for zero. */
  function Digits(v: nat, b: nat): seq<nat>
    requires b >= 2
    decreases v
  {
    if v == 0 then [] else Digits(Quotient(v, b), b) + [v % b]
  }

  function Quotient(v: nat, b: nat): (q: nat)
    requires b >= 2
    ensures v > 0 ==> q < v
    ensures v == q * b + v % b
  {
    DivFacts(v, b);
    DivLower(v, b, 0);
    MulMono(2, b, v / b);
    v / b
  }

  predicate AllBelow(d: seq<nat>, b: nat) {
    forall i :: 0 <= i < |d| ==> d[i] < b
  }

  /** No leading zero. */
  predicate Minimal(d: seq<nat>) {
    d != [] ==> d[0] != 0
  }

  function Noughts(k: nat): (z: seq<nat>)
    ensures |z| == k
  {
    seq(k, i => 0)
  }

  function LeadingNoughts(d: seq<nat>): (k: nat)
    ensures k <= |d|
  {
    if d == [] || d[0] != 0 then 0 else 1 + LeadingNoughts(d[1..])
  }

  /** The same number in another base, with as many zeros in front. */
  function Recode(d: seq<nat>, from: nat, to: nat): seq<nat>
    requires to >= 2
  {
    Noughts(LeadingNoughts(d)) + Digits(ValueIn(d, from), to)
  }

  lemma ValueOfSnoc(d: seq<nat>, x: nat, b: nat)
    ensures ValueIn(d + [x], b) == ValueIn(d, b) * b + x
  {
    assert (d + [x])[..|d|] == d;
  }

  lemma {:induction false} ValueOfDigits(v: nat, b: nat)
    requires b >= 2
    ensures ValueIn(Digits(v, b), b) == v
    decreases v
  {
    if v > 0 {
      var q := Quotient(v, b);
      ValueOfDigits(q, b);
      ValueOfSnoc(Digits(q, b), v % b, b);
    }
  }

  lemma {:induction false} DigitsAreMinimal(v: nat, b: nat)
    requires b >= 2
    ensures AllBelow(Digits(v, b), b) && Minimal(Digits(v, b))
    decreases v
  {
    if v > 0 {
      DigitsAreMinimal(Quotient(v, b), b);
      DivFacts(v, b);
      if Quotient(v, b) == 0 {
        assert Digits(0, b) == [];
      }
    }
  }

  lemma {:induction false} DigitsOfValue(d: seq<nat>, b: nat)
    requires b >= 2 && AllBelow(d, b) && Minimal(d)
    ensures Digits(ValueIn(d, b), b) == d
    decreases |d|
  {
    if d != [] {
      var front, last := d[..|d| - 1], d[|d| - 1];
      DigitsOfValue(front, b);
      var v := ValueIn(d, b);
      DivIs(v, b, ValueIn(front, b), last);
      assert d == front + [last];
      if ValueIn(front, b) == 0 {
        assert front == Digits(0, b);
      } else {
        MulMono(1, ValueIn(front, b), b);
      }
      assert v > 0;
    }
  }

  lemma {:induction false} ValueOfNoughts(k: nat, d: seq<nat>, b: nat)
    ensures ValueIn(Noughts(k) + d, b) == ValueIn(d, b)
    decreases k + |d|
  {
    if d != [] {
      var front, last := d[..|d| - 1], d[|d| - 1];
      ValueOfNoughts(k, front, b);
      assert Noughts(k) + d == Noughts(k) + front + [last];
      ValueOfSnoc(Noughts(k) + front, last, b);
    } else if k > 0 {
      ValueOfNoughts(k - 1, [], b);
      assert Noughts(k) + [] == (Noughts(k - 1) + []) + [0];
      ValueOfSnoc(Noughts(k - 1) + [], 0, b);
    }
  }

  lemma {:induction false} LeadingNoughtsSplit(d: seq<nat>)
    ensures var k := LeadingNoughts(d); d == Noughts(k) + d[k..] && Minimal(d[k..])
  {
    if d != [] && d[0] == 0 {
      LeadingNoughtsSplit(d[1..]);
      var k := LeadingNoughts(d[1..]);
      assert d == [0] + d[1..];
      assert Noughts(k + 1) == [0] + Noughts(k);
      assert d[k + 1..] == d[1..][k..];
    }
  }

  lemma {:induction false} LeadingNoughtsOf(k: nat, d: seq<nat>)
    requires Minimal(d)
    ensures LeadingNoughts(Noughts(k) + d) == k
  {
    if k > 0 {
      LeadingNoughtsOf(k - 1, d);
      assert (Noughts(k) + d)[1..] == Noughts(k - 1) + d;
    } else {
      assert Noughts(0) + d == d;
    }
  }

  /** Changing the base and changing it back gives the very same digits. */
  lemma RecodeRoundTrip(d: seq<nat>, from: nat, to: nat)
    requires from >= 2 && to >= 2 && AllBelow(d, from)
    ensures AllBelow(Recode(d, from, to), to)
    ensures Recode(Recode(d, from, to), to, from) == d
  {
    var k, v := LeadingNoughts(d), ValueIn(d, from);
    LeadingNoughtsSplit(d);
    ValueOfNoughts(k, d[k..], from);
    DigitsOfValue(d[k..], from);
    DigitsAreMinimal(v, to);
    LeadingNoughtsOf(k, Digits(v, to));
    ValueOfNoughts(k, Digits(v, to), to);
    ValueOfDigits(v, to);
  }

  /** The value read from the other end. */
  lemma {:induction false} ValueOfCons(x: nat, d: seq<nat>, b: nat)
    ensures ValueIn([x] + d, b) == x * Power(b, |d|) + ValueIn(d, b)
    decreases |d|
  {
    hide *;
    if d == [] {
      assert [x] + d == [] + [x];
      ValueOfSnoc([], x, b);
      NoDigits(b);
    } else {
      var front, last := d[..|d| - 1], d[|d| - 1];
      ValueOfCons(x, front, b);
      assert [x] + d == [x] + front + [last] && d == front + [last];
      ValueOfSnoc([x] + front, last, b);
      ValueOfSnoc(front, last, b);
      PowerStep(b, |d|);
      assert (x * Power(b, |front|)) * b == x * (b * Power(b, |front|));
    }
  }

  lemma NoDigits(b: nat)
    ensures ValueIn([], b) == 0 && Power(b, 0) == 1
  {
  }

  lemma PowerStep(b: nat, n: nat)
    requires n > 0
    ensures Power(b, n) == b * Power(b, n - 1)
  {
  }

  // ---------------------------------------------------------------- how many digits there are

  function Power(b: nat, n: nat): (p: nat)
    ensures b >= 1 ==> p >= 1
  {
    if n == 0 then 1
    else
      MulMono(1, b, Power(b, n - 1));
      b * Power(b, n - 1)
  }

  lemma {:induction false} PowerAdd(b: nat, m: nat, n: nat)
    ensures Power(b, m + n) == Power(b, m) * Power(b, n)
    decreases m
  {
    if m == 0 {
      assert Power(b, 0) == 1;
    } else {
      PowerStep(b, m);
      PowerStep(b, m + n);
      hide *;
      PowerAdd(b, m - 1, n);
      MulAssociates(b, Power(b, m - 1), Power(b, n));
    }
  }

  lemma MulAssociates(x: int, y: int, z: int)
    ensures x * (y * z) == x * y * z
  {
  }

  lemma {:induction false} PowerTimes(b: nat, m: nat, n: nat)
    ensures Power(b, m * n) == Power(Power(b, m), n)
    decreases n
  {
    if n == 0 {
      assert m * 0 == 0;
    } else {
      PowerTimes(b, m, n - 1);
      PowerAdd(b, m, m * (n - 1));
      assert m + m * (n - 1) == m * n;
    }
  }

  lemma {:induction false} PowerOfLarger(a: nat, b: nat, n: nat)
    requires a <= b
    ensures Power(a, n) <= Power(b, n)
    ensures a < b && n > 0 ==> Power(a, n) < Power(b, n)
    decreases n
  {
    if n > 0 {
      PowerOfLarger(a, b, n - 1);
      MulMono(a, b, Power(b, n - 1));
      MulMono(Power(a, n - 1), Power(b, n - 1), a);
      if a < b {
        MulStep(a, b, Power(b, n - 1));
      }
    }
  }

  lemma {:induction false} PowerOfMore(b: nat, m: nat, n: nat)
    requires b >= 1 && m <= n
    ensures Power(b, m) <= Power(b, n)
    decreases n
  {
    if m < n {
      PowerOfMore(b, m, n - 1);
      MulMono(1, b, Power(b, n - 1));
    }
  }

  lemma {:induction false} DigitsCount(v: nat, b: nat)
    requires b >= 2 && v > 0
    ensures |Digits(v, b)| >= 1 && Power(b, |Digits(v, b)| - 1) <= v
    decreases v
  {
    var q := Quotient(v, b);
    if q > 0 {
      DigitsCount(q, b);
      var n := |Digits(q, b)|;
      MulMono(Power(b, n - 1), q, b);
      assert b * Power(b, n - 1) == Power(b, n);
    }
  }

  lemma {:induction false} ValueIsBounded(d: seq<nat>, b: nat)
    requires b >= 1 && AllBelow(d, b)
    ensures ValueIn(d, b) < Power(b, |d|)
    decreases |d|
  {
    if d != [] {
      var front := d[..|d| - 1];
      ValueIsBounded(front, b);
      assert Power(b, |d|) == b * Power(b, |front|);
      assert d[|d| - 1] < b;
      assert ValueIn(d, b) == ValueIn(front, b) * b + d[|d| - 1];
      hide ValueIn, Power, AllBelow;
      MulStep(ValueIn(front, b), Power(b, |front|), b);
    }
  }
}
