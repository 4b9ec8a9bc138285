/** The class itself: its methods update fields in loops and are proved to take the steps of the bucket. */
module RateLimitingGroup {
  import opened Arith
  import opened Allocator
  import opened RateLimiter

  lemma NothingAllocated(order: seq<Operation>, tokens: nat)
    ensures order == [] ==> Permits(order, tokens) == map[] && Left(Lengths(order), tokens) == tokens
    ensures map[] + Permits(order, tokens) == Permits(order, tokens)
  {
  }

  lemma QueuesDoNotMatter(b: Bucket, ops: seq<Operation>, now: int)
    ensures Refilled(b.(inProgress := ops, forNext := []), now) == Refilled(b, now)
  {
  }

  lemma OneAllocated(sorted: seq<Operation>, left: nat, permits: map<nat, nat>)
    requires sorted != []
    ensures var n := |sorted| - 1;
      var given := Min(sorted[n].length, left / |sorted|);
      && given <= left
      && permits + Permits(sorted, left) == permits[sorted[n].id := given] + Permits(sorted[..n], left - given)
      && Left(Lengths(sorted), left) == Left(Lengths(sorted[..n]), left - given)
  {
    var n := |sorted| - 1;
    ShareFits(Lengths(sorted), left);
    assert Lengths(sorted)[..n] == Lengths(sorted[..n]);
  }

  class Group {
    var limit: nat
    const burstiness: nat
    var tokens: nat
    var unused: nat
    var inProgress: seq<Operation>
    var forNext: seq<Operation>
    var performed: seq<Granted>
    var last: int
    ghost var transferred: nat
    ghost var granted: nat

    ghost function Model(): Bucket
      reads this
    {
      Bucket(limit, burstiness, tokens, unused, inProgress, forNext, performed, last, transferred, granted)
    }

    constructor (bytesPerSecond: nat, burstinessInSeconds: nat)
      ensures Model() == Bucket(bytesPerSecond, burstinessInSeconds, bytesPerSecond, 0, [], [], [], 0, 0, 0)
    {
      limit, burstiness := bytesPerSecond, burstinessInSeconds;
      tokens, unused := bytesPerSecond, 0;
      inProgress, forNext, performed := [], [], [];
      last := 0;
      transferred, granted := 0, 0;
    }

    /** `readsome_impl` up to the wait. */
    method Queue(op: Operation)
      requires Enabled(Model(), Enqueue(op))
      modifies this
      ensures Model() == Next(old(Model()), Enqueue(op))
    {
      forNext := forNext + [op];
    }

    /** `readsome_impl` after a successful wait. */
    method Finish(k: nat, bytes: nat)
      requires Enabled(Model(), Complete(k, bytes))
      modifies this
      ensures Model() == Next(old(Model()), Complete(k, bytes))
    {
      unused := (unused + (performed[k].permitted - bytes)) % TWO_32;
      performed := WithoutAt(performed, k);
      transferred := transferred + bytes;
    }

    /** `readsome_impl` after a wait that threw, for an operation not yet performed. */
    method Drop(op: Operation)
      modifies this
      ensures Model() == Next(old(Model()), Cancel(op))
    {
      forNext := Remove(forNext, op);
      inProgress := Remove(inProgress, op);
    }

    /** The allocation loop: operations are taken from the back of the sorted list. */
    static method Allocate(order: seq<Operation>, tokens: nat) returns (permits: map<nat, nat>, left: nat)
      ensures permits == Permits(order, tokens) && left == Left(Lengths(order), tokens)
    {
      hide Permits, Left;
      permits := map[];
      left := tokens;
      var sorted := order;
      NothingAllocated(order, tokens);
      while sorted != []
        invariant Permits(order, tokens) == permits + Permits(sorted, left)
        invariant Left(Lengths(order), tokens) == Left(Lengths(sorted), left)
        decreases |sorted|
      {
        var n := |sorted| - 1;
        var part := left / |sorted|;
        var given := Min(sorted[n].length, part);
        OneAllocated(sorted, left, permits);
        permits := permits[sorted[n].id := given];
        left := left - given;
        sorted := sorted[..n];
      }
      NothingAllocated([], left);
      assert permits + map[] == permits;
    }

    /** The loop that kicks off permitted operations in first-come order and leaves the others. */
    static method KickOff(ops: seq<Operation>, permits: map<nat, nat>)
        returns (started: seq<Granted>, waiting: seq<Operation>)
      ensures started == Started(ops, permits) && waiting == Waiting(ops, permits)
    {
      hide PermitOf;
      started, waiting := [], [];
      assert ops[0..] == ops;
      for i := 0 to |ops|
        invariant Started(ops, permits) == started + Started(ops[i..], permits)
        invariant Waiting(ops, permits) == waiting + Waiting(ops[i..], permits)
      {
        assert ops[i..][1..] == ops[i + 1..];
        if PermitOf(permits, ops[i]) > 0 {
          started := started + [Granted(ops[i], PermitOf(permits, ops[i]))];
        } else {
          waiting := waiting + [ops[i]];
        }
      }
      assert ops[|ops|..] == [];
    }

    static method PerformAll(ops: seq<Operation>) returns (started: seq<Granted>)
      ensures started == Unlimited(ops)
    {
      started := [];
      assert ops[0..] == ops;
      for i := 0 to |ops|
        invariant Unlimited(ops) == started + Unlimited(ops[i..])
      {
        assert ops[i..][1..] == ops[i + 1..];
        started := started + [Granted(ops[i], ops[i].length)];
      }
      assert ops[|ops|..] == [];
    }

    /** Adds the tokens for the time passed and the refunds, and applies the burst cap. */
    method Refill(now: int)
      modifies this`tokens, this`unused, this`granted
      ensures tokens == Refilled(old(Model()), now) && unused == 0
      ensures granted == old(granted) + Grant(limit, now - last)
    {
      var elapsed := now - last;
      if elapsed > SECOND {
        elapsed := SECOND;
      } else if elapsed < 0 {
        elapsed := 0;
      }
      tokens := (tokens + (limit * elapsed / SECOND) % TWO_32) % TWO_32;
      tokens := (tokens + unused) % TWO_32;
      unused := 0;
      tokens := Min(tokens, (limit * burstiness) % TWO_32);
      granted := granted + limit * elapsed / SECOND;
    }

    method ProcessPendingOperations(now: int, order: seq<Operation>)
      requires Enabled(Model(), Tick(now, order))
      modifies this
      ensures Model() == Next(old(Model()), Tick(now, order))
    {
      hide Permits, Started, Waiting, Left, Unlimited, IsSorting, TotalLength, Refilled, Grant;
      QueuesDoNotMatter(Model(), inProgress + forNext, now);
      inProgress := inProgress + forNext;
      forNext := [];
      if limit != 0 {
        Refill(now);
        if tokens != 0 {
          var permits, left := Allocate(order, tokens);
          tokens := left;
          var started, waiting := KickOff(inProgress, permits);
          inProgress := waiting;
          performed := performed + started;
        }
      } else {
        var started := PerformAll(inProgress);
        granted := granted + TotalLength(inProgress);
        inProgress := [];
        performed := performed + started;
      }
      last := now;
    }
  }
}
