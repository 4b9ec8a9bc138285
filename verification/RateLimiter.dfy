/**
  The token bucket of `rate_limiting_group_impl`, one direction. Counters are 32-bit and wrap.

  The steps of a run are the calls that touch the bucket: a caller queues an operation, the
  processing loop runs an iteration, a performed operation completes or fails, a queued one is
  cancelled, the limit is changed. The clock and the order `std::sort` leaves among operations of
  equal length are arguments of the step.
 */
module RateLimiter {
  import opened Arith
  import opened Allocator

  const TWO_32 := 0x1_0000_0000
  const SECOND := 1_000_000

  /** A queued read or write. */
  datatype Operation = Operation(id: nat, length: nat)

  /** A performed operation: it may transfer up to `permitted` bytes. */
  datatype Granted = Granted(op: Operation, permitted: nat)

  /** The bucket, with the two tallies that the properties speak of: bytes transferred by metered
      operations, and tokens ever granted. */
  datatype Bucket = Bucket(
    limit: nat, burstiness: nat,
    tokens: nat, unused: nat,
    inProgress: seq<Operation>, forNext: seq<Operation>, performed: seq<Granted>,
    last: int,
    transferred: nat, granted: nat)

  // ---------------------------------------------------------------- one iteration

  function Lengths(ops: seq<Operation>): (l: seq<nat>)
    ensures |l| == |ops| && forall i :: 0 <= i < |ops| ==> l[i] == ops[i].length
  {
    seq(|ops|, i requires 0 <= i < |ops| => ops[i].length)
  }

  /** An order `std::sort` with `is_operation_shorter` may leave: a permutation, longest first. */
  predicate IsSorting(order: seq<Operation>, ops: seq<Operation>) {
    multiset(order) == multiset(ops) && SortedDown(Lengths(order))
  }

  predicate DistinctIds(ops: seq<Operation>) {
    forall i, j :: 0 <= i < j < |ops| ==> ops[i].id != ops[j].id
  }

  /** The permitted length of each operation of `order`, by id. */
  function Permits(order: seq<Operation>, tokens: nat): map<nat, nat> {
    if order == [] then map[]
    else
      var n := |order| - 1;
      ShareFits(Lengths(order), tokens);
      var share := Share(Lengths(order), tokens);
      map[order[n].id := share] + Permits(order[..n], tokens - share)
  }

  function PermitOf(permits: map<nat, nat>, op: Operation): nat {
    if op.id in permits then permits[op.id] else 0
  }

  /** The operations kicked off, and those left waiting, in first-come order. */
  function Started(ops: seq<Operation>, permits: map<nat, nat>): seq<Granted> {
    if ops == [] then []
    else
      (if PermitOf(permits, ops[0]) > 0 then [Granted(ops[0], PermitOf(permits, ops[0]))] else [])
      + Started(ops[1..], permits)
  }

  function Waiting(ops: seq<Operation>, permits: map<nat, nat>): seq<Operation> {
    if ops == [] then []
    else (if PermitOf(permits, ops[0]) > 0 then [] else [ops[0]]) + Waiting(ops[1..], permits)
  }

  function Unlimited(ops: seq<Operation>): seq<Granted> {
    if ops == [] then [] else [Granted(ops[0], ops[0].length)] + Unlimited(ops[1..])
  }

  function Clamp(elapsed: int): nat {
    if elapsed > SECOND then SECOND else if elapsed < 0 then 0 else elapsed
  }

  /** The tokens an iteration adds for the time passed. */
  function Grant(limit: nat, elapsed: int): nat {
    limit * Clamp(elapsed) / SECOND
  }

  /** The tokens there are to divide, after refunds, wrap-around and the burst cap. */
  function Refilled(b: Bucket, now: int): nat {
    Min((((b.tokens + Grant(b.limit, now - b.last) % TWO_32) % TWO_32) + b.unused) % TWO_32,
        (b.limit * b.burstiness) % TWO_32)
  }

  function TotalLength(ops: seq<Operation>): nat {
    Sum(Lengths(ops))
  }

  // ---------------------------------------------------------------- steps

  datatype Event =
    | Enqueue(op: Operation)
    | Tick(now: int, order: seq<Operation>)
    | Complete(k: nat, bytes: nat)
    | Abort(k: nat, bytes: nat)
    | Cancel(op: Operation)
    | SetLimit(limit: nat)

  function Remove(ops: seq<Operation>, op: Operation): seq<Operation> {
    if ops == [] then [] else (if ops[0] == op then [] else [ops[0]]) + Remove(ops[1..], op)
  }

  function WithoutAt<T>(s: seq<T>, k: nat): seq<T>
    requires k < |s|
  {
    s[..k] + s[k + 1..]
  }

  /** What the source relies on: a fresh operation, the sort's contract, and that no more bytes are
      transferred than permitted. */
  predicate Enabled(b: Bucket, e: Event) {
    match e
    case Enqueue(op) => b.limit > 0 && DistinctIds(b.inProgress + b.forNext + [op])
    case Tick(_, order) => IsSorting(order, b.inProgress + b.forNext)
    case Complete(k, bytes) => k < |b.performed| && bytes <= b.performed[k].permitted
    case Abort(k, bytes) => k < |b.performed| && bytes <= b.performed[k].permitted
    case Cancel(_) => true
    case SetLimit(limit) => limit < TWO_32
  }

  function AfterTick(b: Bucket, now: int, order: seq<Operation>): Bucket {
    var ops := b.inProgress + b.forNext;
    if b.limit == 0 then
      b.(inProgress := [], forNext := [], performed := b.performed + Unlimited(ops), last := now,
         granted := b.granted + TotalLength(ops))
    else
      var tokens := Refilled(b, now);
      var b' := b.(unused := 0, forNext := [], last := now, granted := b.granted + Grant(b.limit, now - b.last));
      if tokens == 0 then b'.(tokens := 0, inProgress := ops)
      else
        var permits := Permits(order, tokens);
        b'.(tokens := Left(Lengths(order), tokens), inProgress := Waiting(ops, permits),
            performed := b.performed + Started(ops, permits))
  }

  /** What the allocation loop leaves. */
  function Left(lengths: seq<nat>, tokens: nat): nat {
    if lengths == [] then tokens
    else
      ShareFits(lengths, tokens);
      Left(lengths[..|lengths| - 1], tokens - Share(lengths, tokens))
  }

  function Next(b: Bucket, e: Event): Bucket
    requires Enabled(b, e)
  {
    match e
    case Enqueue(op) => b.(forNext := b.forNext + [op])
    case Tick(now, order) => AfterTick(b, now, order)
    case Complete(k, bytes) =>
      b.(unused := (b.unused + (b.performed[k].permitted - bytes)) % TWO_32,
         performed := WithoutAt(b.performed, k), transferred := b.transferred + bytes)
    case Abort(k, bytes) =>
      b.(performed := WithoutAt(b.performed, k), transferred := b.transferred + bytes)
    case Cancel(op) =>
      b.(forNext := Remove(b.forNext, op), inProgress := Remove(b.inProgress, op))
    case SetLimit(limit) => b.(limit := limit)
  }

  // ---------------------------------------------------------------- conservation

  function Permitted(gs: seq<Granted>): nat {
    if gs == [] then 0 else gs[0].permitted + Permitted(gs[1..])
  }

  /** Everything the bucket has handed out or still holds. */
  function Held(b: Bucket): nat {
    Permitted(b.performed) + b.unused + b.tokens
  }

  lemma {:induction false} PermittedConcat(a: seq<Granted>, b: seq<Granted>)
    ensures Permitted(a + b) == Permitted(a) + Permitted(b)
  {
    if a == [] {
      assert a + b == b;
    } else {
      assert (a + b)[1..] == a[1..] + b;
      PermittedConcat(a[1..], b);
    }
  }

  lemma PermittedWithout(gs: seq<Granted>, k: nat)
    requires k < |gs|
    ensures Permitted(gs) == Permitted(WithoutAt(gs, k)) + gs[k].permitted
  {
    PermittedConcat(gs[..k], gs[k..]);
    PermittedConcat(gs[..k], gs[k + 1..]);
    assert gs == gs[..k] + gs[k..];
    assert gs[k..][1..] == gs[k + 1..];
  }

  function PermitSum(ops: seq<Operation>, permits: map<nat, nat>): nat {
    if ops == [] then 0 else PermitOf(permits, ops[0]) + PermitSum(ops[1..], permits)
  }

  lemma {:induction false} StartedSum(ops: seq<Operation>, permits: map<nat, nat>)
    ensures Permitted(Started(ops, permits)) == PermitSum(ops, permits)
  {
    if ops != [] {
      StartedSum(ops[1..], permits);
      var head := if PermitOf(permits, ops[0]) > 0 then [Granted(ops[0], PermitOf(permits, ops[0]))] else [];
      PermittedConcat(head, Started(ops[1..], permits));
    }
  }

  lemma {:induction false} PermitSumConcat(a: seq<Operation>, b: seq<Operation>, permits: map<nat, nat>)
    ensures PermitSum(a + b, permits) == PermitSum(a, permits) + PermitSum(b, permits)
  {
    if a == [] {
      assert a + b == b;
    } else {
      assert (a + b)[1..] == a[1..] + b;
      PermitSumConcat(a[1..], b, permits);
    }
  }

  lemma PermitSumAt(ops: seq<Operation>, k: nat, permits: map<nat, nat>)
    requires k < |ops|
    ensures PermitSum(ops, permits) == PermitOf(permits, ops[k]) + PermitSum(WithoutAt(ops, k), permits)
  {
    PermitSumConcat(ops[..k], ops[k..], permits);
    PermitSumConcat(ops[..k], ops[k + 1..], permits);
    assert ops == ops[..k] + ops[k..];
    assert ops[k..][1..] == ops[k + 1..];
  }

  lemma MultisetWithout(ops: seq<Operation>, k: nat)
    requires k < |ops|
    ensures multiset(WithoutAt(ops, k)) == multiset(ops) - multiset{ops[k]}
  {
    assert ops == ops[..k] + [ops[k]] + ops[k + 1..];
  }

  /** The total does not depend on the order. */
  lemma {:induction false} PermitSumPermutes(a: seq<Operation>, b: seq<Operation>, permits: map<nat, nat>)
    requires multiset(a) == multiset(b)
    ensures PermitSum(a, permits) == PermitSum(b, permits)
    decreases |a|
  {
    if a == [] {
      assert |b| == |multiset(b)| == 0;
    } else {
      assert a[0] in multiset(b);
      var k :| 0 <= k < |b| && b[k] == a[0];
      MultisetWithout(a, 0);
      MultisetWithout(b, k);
      PermitSumPermutes(WithoutAt(a, 0), WithoutAt(b, k), permits);
      PermitSumAt(a, 0, permits);
      PermitSumAt(b, k, permits);
    }
  }

  /** Each operation of the order gets its share. */
  lemma {:induction false} PermitsAreShares(order: seq<Operation>, tokens: nat)
    requires DistinctIds(order)
    ensures forall i :: 0 <= i < |order| ==>
              && order[i].id in Permits(order, tokens)
              && Permits(order, tokens)[order[i].id] == Shares(Lengths(order), tokens)[i]
    decreases |order|
  {
    if order != [] {
      var n := |order| - 1;
      ShareFits(Lengths(order), tokens);
      var left := tokens - Share(Lengths(order), tokens);
      PermitsAreShares(order[..n], left);
      OnlyOrdered(order[..n], left, order[n].id);
      assert Lengths(order[..n]) == Lengths(order)[..n];
      hide Share, Lengths;
    }
  }

  lemma {:induction false} OnlyOrdered(order: seq<Operation>, tokens: nat, id: nat)
    requires forall i :: 0 <= i < |order| ==> order[i].id != id
    ensures id !in Permits(order, tokens)
    decreases |order|
  {
    if order != [] {
      var n := |order| - 1;
      ShareFits(Lengths(order), tokens);
      OnlyOrdered(order[..n], tokens - Share(Lengths(order), tokens), id);
    }
  }

  lemma {:induction false} LeftIsRest(lengths: seq<nat>, tokens: nat)
    ensures Left(lengths, tokens) + Sum(Shares(lengths, tokens)) == tokens
    decreases |lengths|
  {
    if lengths != [] {
      var n := |lengths| - 1;
      ShareFits(lengths, tokens);
      var share := Share(lengths, tokens);
      LeftIsRest(lengths[..n], tokens - share);
      SumConcat(Shares(lengths[..n], tokens - share), [share]);
      assert Sum([share]) == share;
    }
  }

  lemma {:induction false} PermitSumIsShares(order: seq<Operation>, permits: map<nat, nat>, shares: seq<nat>)
    requires |order| == |shares|
    requires forall i :: 0 <= i < |order| ==> order[i].id in permits && permits[order[i].id] == shares[i]
    ensures PermitSum(order, permits) == Sum(shares)
  {
    if order != [] {
      PermitSumIsShares(order[1..], permits, shares[1..]);
    }
  }

  // With a permit of one for a single id, the sum counts the operations that bear it.

  lemma {:induction false} CountAtMostOne(ops: seq<Operation>, id: nat)
    requires DistinctIds(ops)
    ensures PermitSum(ops, map[id := 1]) <= 1
    ensures (forall i :: 0 <= i < |ops| ==> ops[i].id != id) ==> PermitSum(ops, map[id := 1]) == 0
  {
    if ops != [] {
      CountAtMostOne(ops[1..], id);
    }
  }

  lemma DuplicateCountsTwice(ops: seq<Operation>, i: nat, j: nat)
    requires i < j < |ops|
    ensures ops[i].id == ops[j].id ==> PermitSum(ops, map[ops[i].id := 1]) >= 2
  {
    var permits := map[ops[i].id := 1];
    PermitSumAt(ops, j, permits);
    PermitSumAt(WithoutAt(ops, j), i, permits);
  }

  lemma DistinctInOrder(order: seq<Operation>, ops: seq<Operation>)
    requires multiset(order) == multiset(ops) && DistinctIds(ops)
    ensures DistinctIds(order)
  {
    forall i, j | 0 <= i < j < |order| ensures order[i].id != order[j].id {
      var id := order[i].id;
      DuplicateCountsTwice(order, i, j);
      PermitSumPermutes(order, ops, map[id := 1]);
      CountAtMostOne(ops, id);
    }
  }

  /** What is permitted in an iteration plus what is left is what there was. */
  lemma TickDivides(order: seq<Operation>, ops: seq<Operation>, tokens: nat)
    requires IsSorting(order, ops) && DistinctIds(ops)
    ensures Permitted(Started(ops, Permits(order, tokens))) + Left(Lengths(order), tokens) == tokens
  {
    var permits := Permits(order, tokens);
    DistinctInOrder(order, ops);
    PermitsAreShares(order, tokens);
    StartedSum(ops, permits);
    PermitSumPermutes(ops, order, permits);
    PermitSumIsShares(order, permits, Shares(Lengths(order), tokens));
    LeftIsRest(Lengths(order), tokens);
  }

  /** Max-min fairness of an iteration under a positive limit, whatever the sort does with ties. */
  lemma IterationIsFair(order: seq<Operation>, ops: seq<Operation>, tokens: nat)
    requires IsSorting(order, ops) && DistinctIds(ops)
    ensures var permits := Permits(order, tokens);
      && (forall x :: x in ops ==> PermitOf(permits, x) <= x.length)
      && (Left(Lengths(order), tokens) > 0 ==> forall x :: x in ops ==> PermitOf(permits, x) == x.length)
      && (forall x, y :: x in ops && y in ops && PermitOf(permits, x) < x.length ==>
            PermitOf(permits, y) <= PermitOf(permits, x) + 1)
      && (tokens >= |ops| ==> forall x :: x in ops ==> (PermitOf(permits, x) > 0 <==> x.length > 0))
  {
    hide *;
    var permits := Permits(order, tokens);
    forall x | x in ops
      ensures PermitOf(permits, x) <= x.length
      ensures Left(Lengths(order), tokens) > 0 ==> PermitOf(permits, x) == x.length
      ensures tokens >= |ops| ==> (PermitOf(permits, x) > 0 <==> x.length > 0)
    {
      PermitBounds(order, ops, tokens, x);
    }
    forall x, y | x in ops && y in ops && PermitOf(permits, x) < x.length
      ensures PermitOf(permits, y) <= PermitOf(permits, x) + 1
    {
      PermitPairIsFair(order, ops, tokens, x, y);
    }
  }

  lemma PermitBounds(order: seq<Operation>, ops: seq<Operation>, tokens: nat, x: Operation)
    requires IsSorting(order, ops) && DistinctIds(ops) && x in ops
    ensures var p := PermitOf(Permits(order, tokens), x);
      && p <= x.length
      && (Left(Lengths(order), tokens) > 0 ==> p == x.length)
      && (tokens >= |ops| ==> (p > 0 <==> x.length > 0))
  {
    hide Permits, Shares, Left, PermitOf;
    SharesAreFair(Lengths(order), tokens);
    LeftIsRest(Lengths(order), tokens);
    assert |order| == |multiset(order)| == |multiset(ops)| == |ops|;
    var i := PermitIsShare(order, ops, tokens, x);
    if tokens >= |ops| {
      EnoughForEach(Lengths(order), tokens, i);
    }
  }

  lemma PermitPairIsFair(order: seq<Operation>, ops: seq<Operation>, tokens: nat, x: Operation, y: Operation)
    requires IsSorting(order, ops) && DistinctIds(ops) && x in ops && y in ops
    ensures var permits := Permits(order, tokens);
      PermitOf(permits, x) < x.length ==> PermitOf(permits, y) <= PermitOf(permits, x) + 1
  {
    hide Permits, Shares, PermitOf;
    SharesAreFair(Lengths(order), tokens);
    var i := PermitIsShare(order, ops, tokens, x);
    var j := PermitIsShare(order, ops, tokens, y);
  }

  lemma PermitIsShare(order: seq<Operation>, ops: seq<Operation>, tokens: nat, x: Operation) returns (i: nat)
    requires IsSorting(order, ops) && DistinctIds(ops) && x in ops
    ensures i < |order| && x.length == Lengths(order)[i]
    ensures PermitOf(Permits(order, tokens), x) == Shares(Lengths(order), tokens)[i]
  {
    DistinctInOrder(order, ops);
    PermitsAreShares(order, tokens);
    assert x in multiset(order);
    i :| 0 <= i < |order| && order[i] == x;
  }

  lemma {:induction false} UnlimitedSum(ops: seq<Operation>)
    ensures Permitted(Unlimited(ops)) == TotalLength(ops)
  {
    if ops != [] {
      UnlimitedSum(ops[1..]);
      assert Lengths(ops)[1..] == Lengths(ops[1..]);
    }
  }
}
