/**
  How one iteration of the rate limiter divides its tokens: the pending operations are sorted
  with the shortest last, and each, taken from the end, gets an equal part of what is left.
 */
module Allocator {
  import opened Arith

  function Sum(s: seq<nat>): nat {
    if s == [] then 0 else s[0] + Sum(s[1..])
  }

  lemma {:induction false} SumConcat(a: seq<nat>, b: seq<nat>)
    ensures Sum(a + b) == Sum(a) + Sum(b)
  {
    if a == [] {
      assert a + b == b;
    } else {
      assert (a + b)[1..] == a[1..] + b;
      SumConcat(a[1..], b);
    }
  }

  predicate SortedDown(lengths: seq<nat>) {
    forall i, j :: 0 <= i < j < |lengths| ==> lengths[i] >= lengths[j]
  }

  function Share(lengths: seq<nat>, tokens: nat): nat
    requires lengths != []
  {
    Min(lengths[|lengths| - 1], tokens / |lengths|)
  }

  lemma ShareFits(lengths: seq<nat>, tokens: nat)
    requires lengths != []
    ensures Share(lengths, tokens) <= tokens
  {
    DivAtMost(tokens, |lengths|);
  }

  /** The bytes each operation may transfer, in the order of `lengths`. */
  function Shares(lengths: seq<nat>, tokens: nat): (s: seq<nat>)
    ensures |s| == |lengths|
  {
    if lengths == [] then []
    else
      var n := |lengths| - 1;
      ShareFits(lengths, tokens);
      Shares(lengths[..n], tokens - Share(lengths, tokens)) + [Share(lengths, tokens)]
  }

  // ---------------------------------------------------------------- what a fair division is

  predicate Bounded(lengths: seq<nat>, shares: seq<nat>)
    requires |lengths| == |shares|
  {
    forall i :: 0 <= i < |lengths| ==> shares[i] <= lengths[i]
  }

  predicate Full(lengths: seq<nat>, shares: seq<nat>)
    requires |lengths| == |shares|
  {
    forall i :: 0 <= i < |lengths| ==> shares[i] == lengths[i]
  }

  /** Nobody gets more than one byte beyond an operation left short. */
  predicate Fair(lengths: seq<nat>, shares: seq<nat>)
    requires |lengths| == |shares|
  {
    forall i, j :: 0 <= i < |lengths| && 0 <= j < |lengths| && shares[i] < lengths[i] ==> shares[j] <= shares[i] + 1
  }

  /** An operation left short got at least the equal part q. */
  predicate ShortGetAtLeast(lengths: seq<nat>, shares: seq<nat>, q: nat)
    requires |lengths| == |shares|
  {
    forall i :: 0 <= i < |lengths| && shares[i] < lengths[i] ==> shares[i] >= q
  }

  // ---------------------------------------------------------------- proofs

  /** Removing one part of at most the average leaves an average at least as large. */
  lemma AverageGrows(tokens: nat, n: nat, part: nat)
    requires n >= 2 && part <= tokens / n && part <= tokens
    ensures (tokens - part) / (n - 1) >= tokens / n
  {
    var q := tokens / n;
    DivFacts(tokens, n);
    assert q * n == q * (n - 1) + q;
    DivLower(tokens - part, n - 1, q);
  }

  /** Every operation is longer than the equal part: all get it, rounded down or up, and nothing is left. */
  lemma {:induction false} TightShares(lengths: seq<nat>, tokens: nat, q: nat)
    requires lengths != [] && q * |lengths| <= tokens <= (q + 1) * |lengths|
    requires forall i :: 0 <= i < |lengths| ==> lengths[i] >= q + 1
    ensures Sum(Shares(lengths, tokens)) == tokens
    ensures forall i :: 0 <= i < |lengths| ==> q <= Shares(lengths, tokens)[i] <= q + 1
    ensures Bounded(lengths, Shares(lengths, tokens))
  {
    var n := |lengths|;
    var last := lengths[n - 1];
    var d := tokens / n;
    assert (q + 1) * n == q * n + n;
    DivLower(tokens, n, q);
    DivUpper(tokens, n, q + 1);
    ShareFits(lengths, tokens);
    var share := Share(lengths, tokens);
    assert share == d;
    var front := lengths[..n - 1];
    var rest := Shares(front, tokens - share);
    assert Shares(lengths, tokens) == rest + [share];
    SumConcat(rest, [share]);
    if n == 1 {
      assert tokens / 1 == tokens;
    } else {
      RestIsTight(tokens, n, q, d);
      TightShares(front, tokens - share, q);
    }
  }

  lemma RestIsTight(tokens: nat, n: nat, q: nat, d: nat)
    requires n >= 2 && q * n <= tokens <= (q + 1) * n && d == tokens / n && q <= d <= q + 1 && d <= tokens
    ensures q * (n - 1) <= tokens - d <= (q + 1) * (n - 1)
  {
    DivFacts(tokens, n);
    assert q * (n - 1) == q * n - q;
    assert (q + 1) * (n - 1) == (q + 1) * n - (q + 1);
    if d == q {
      assert d * n == q * n;
      assert (q + 1) * n == q * n + n;
    } else {
      assert d * n == (q + 1) * n;
    }
  }

  /** The division is bounded, leaves tokens only if everybody is served in full, and is fair. */
  lemma {:induction false} SharesAreFair(lengths: seq<nat>, tokens: nat)
    requires SortedDown(lengths)
    ensures var s := Shares(lengths, tokens);
      && Sum(s) <= tokens
      && Bounded(lengths, s)
      && (Sum(s) < tokens ==> Full(lengths, s))
      && Fair(lengths, s)
      && (lengths != [] ==> ShortGetAtLeast(lengths, s, tokens / |lengths|))
    decreases |lengths|
  {
    hide Shares;
    if lengths != [] {
      var n := |lengths|;
      var q := tokens / n;
      DivFacts(tokens, n);
      if lengths[n - 1] > q {
        assert (q + 1) * n == q * n + n;
        TightShares(lengths, tokens, q);
      } else {
        var last, front := lengths[n - 1], lengths[..n - 1];
        ShareFits(lengths, tokens);
        SharesOfFront(lengths, tokens);
        var rest := Shares(front, tokens - last);
        SharesAreFair(front, tokens - last);
        if n >= 2 {
          AverageGrows(tokens, n, last);
          ExtendFair(front, rest, last, q, (tokens - last) / (n - 1));
        }
        assert lengths == front + [last];
      }
    } else {
      NoShares(tokens);
    }
  }

  lemma NoShares(tokens: nat)
    ensures Shares([], tokens) == []
  {
  }

  lemma SharesOfFront(lengths: seq<nat>, tokens: nat)
    requires lengths != [] && lengths[|lengths| - 1] <= tokens / |lengths|
    ensures var last := lengths[|lengths| - 1];
      && last <= tokens
      && Shares(lengths, tokens) == Shares(lengths[..|lengths| - 1], tokens - last) + [last]
      && Sum(Shares(lengths, tokens)) == Sum(Shares(lengths[..|lengths| - 1], tokens - last)) + last
  {
    ShareFits(lengths, tokens);
    var last := lengths[|lengths| - 1];
    SumConcat(Shares(lengths[..|lengths| - 1], tokens - last), [last]);
    assert Sum([last]) == last;
  }

  lemma ExtendFair(front: seq<nat>, rest: seq<nat>, last: nat, q: nat, q': nat)
    requires |front| == |rest| && Bounded(front, rest) && Fair(front, rest)
    requires last <= q <= q' && ShortGetAtLeast(front, rest, q')
    ensures Bounded(front + [last], rest + [last]) && Fair(front + [last], rest + [last])
    ensures ShortGetAtLeast(front + [last], rest + [last], q)
  {
    var l, s := front + [last], rest + [last];
    forall i, j | 0 <= i < |l| && 0 <= j < |l| && s[i] < l[i] ensures s[j] <= s[i] + 1 {
      assert i < |front| && front[i] == l[i] && rest[i] == s[i];
    }
  }

  /** With a token for each, an operation gets some exactly when it asked for some. */
  lemma EnoughForEach(lengths: seq<nat>, tokens: nat, i: nat)
    requires SortedDown(lengths) && i < |lengths| && tokens >= |lengths|
    ensures Shares(lengths, tokens)[i] > 0 <==> lengths[i] > 0
  {
    SharesAreFair(lengths, tokens);
    DivLower(tokens, |lengths|, 1);
  }
}
