/** Runs of the bucket: what every step keeps, and what no run exceeds. */
module RateLimiterRuns {
  import opened Arith
  import opened RateLimiter

  predicate Valid(b: Bucket) {
    && DistinctIds(b.inProgress + b.forNext)
    && b.tokens < TWO_32 && b.unused < TWO_32 && b.limit < TWO_32 && b.burstiness < TWO_32
  }

  lemma RefilledAtMost(b: Bucket, now: int)
    requires b.tokens < TWO_32 && b.unused < TWO_32 && b.limit < TWO_32
    ensures Refilled(b, now) <= b.tokens + b.unused + Grant(b.limit, now - b.last) && Refilled(b, now) < TWO_32
  {
    var grant := Grant(b.limit, now - b.last);
    GrantAtMost(b.limit, now - b.last);
    WrapAtMost(grant);
    WrapAtMost(b.tokens + grant % TWO_32);
    WrapAtMost((b.tokens + grant % TWO_32) % TWO_32 + b.unused);
    hide Grant;
  }

  lemma WrapAtMost(x: nat)
    ensures 0 <= x % TWO_32 <= x && x % TWO_32 < TWO_32
  {
  }

  lemma GrantAtMost(limit: nat, elapsed: int)
    ensures Grant(limit, elapsed) <= limit
    ensures Grant(limit, elapsed) * SECOND <= limit * Clamp(elapsed)
  {
    MulMono(Clamp(elapsed), SECOND, limit);
    DivUpper(limit * Clamp(elapsed), SECOND, limit);
    DivFacts(limit * Clamp(elapsed), SECOND);
  }

  /** What a step takes away for good: by the burst cap, by wrap-around, or by failing after it was permitted. */
  function Lost(b: Bucket, e: Event): int
    requires Enabled(b, e)
  {
    match e
    case Tick(now, _) =>
      if b.limit == 0 then 0 else b.tokens + b.unused + Grant(b.limit, now - b.last) - Refilled(b, now)
    case Complete(k, bytes) =>
      var unused := b.unused + (b.performed[k].permitted - bytes);
      unused - unused % TWO_32
    case Abort(k, bytes) => b.performed[k].permitted - bytes
    case _ => 0
  }

  lemma TickAccounts(b: Bucket, now: int, order: seq<Operation>)
    requires Valid(b) && IsSorting(order, b.inProgress + b.forNext) && b.limit > 0
    ensures var b', tokens := AfterTick(b, now, order), Refilled(b, now);
      b'.transferred == b.transferred && b'.granted == b.granted + Grant(b.limit, now - b.last)
      && Held(b') == Permitted(b.performed) + tokens
  {
    hide Refilled, Permits, Started, Waiting, Left, Grant, IsSorting, Permitted;
    var ops, tokens := b.inProgress + b.forNext, Refilled(b, now);
    if tokens != 0 {
      TickDivides(order, ops, tokens);
      PermittedConcat(b.performed, Started(ops, Permits(order, tokens)));
    }
  }

  lemma UnlimitedTickAccounts(b: Bucket, now: int, order: seq<Operation>)
    requires b.limit == 0
    ensures var b' := AfterTick(b, now, order);
      b'.transferred == b.transferred && Held(b') - Held(b) == b'.granted - b.granted >= 0
  {
    hide Permitted, Unlimited, TotalLength;
    var ops := b.inProgress + b.forNext;
    UnlimitedSum(ops);
    PermittedConcat(b.performed, Unlimited(ops));
  }

  /** Every byte granted is transferred, permitted, refunded, still there or accounted for as lost. */
  lemma StepConserves(b: Bucket, e: Event)
    requires Valid(b) && Enabled(b, e)
    ensures var b' := Next(b, e);
      b'.transferred + Held(b') + b.granted + Lost(b, e) == b.transferred + Held(b) + b'.granted
      && b.granted <= b'.granted && Lost(b, e) >= 0
  {
    match e
    case Tick(now, order) =>
      if b.limit == 0 {
        UnlimitedTickAccounts(b, now, order);
        hide AfterTick, Held, Permitted;
      } else {
        TickAccounts(b, now, order);
        RefilledAtMost(b, now);
        hide AfterTick, Permitted, Refilled, Grant;
      }
    case Complete(k, bytes) =>
      PermittedWithout(b.performed, k);
      hide Permitted, WithoutAt, DistinctIds, AfterTick;
    case Abort(k, bytes) =>
      PermittedWithout(b.performed, k);
      hide Permitted, WithoutAt, DistinctIds, AfterTick;
    case _ =>
      hide Permitted, Remove, DistinctIds, AfterTick;
  }

  // ---------------------------------------------------------------- every step keeps the bucket valid

  lemma {:induction false} WaitingIsSub(ops: seq<Operation>, permits: map<nat, nat>)
    requires DistinctIds(ops)
    ensures DistinctIds(Waiting(ops, permits)) && forall op :: op in Waiting(ops, permits) ==> op in ops
  {
    if ops != [] {
      WaitingIsSub(ops[1..], permits);
      ConsDistinct(ops, Waiting(ops[1..], permits));
    }
  }

  lemma {:induction false} RemoveIsSub(ops: seq<Operation>, op: Operation)
    requires DistinctIds(ops)
    ensures DistinctIds(Remove(ops, op)) && forall x :: x in Remove(ops, op) ==> x in ops
  {
    if ops != [] {
      RemoveIsSub(ops[1..], op);
      ConsDistinct(ops, Remove(ops[1..], op));
    }
  }

  lemma ConsDistinct(ops: seq<Operation>, rest: seq<Operation>)
    requires ops != [] && DistinctIds(ops) && DistinctIds(rest) && forall op :: op in rest ==> op in ops[1..]
    ensures DistinctIds([ops[0]] + rest)
  {
    var all := [ops[0]] + rest;
    forall i, j | 0 <= i < j < |all| ensures all[i].id != all[j].id {
      if i == 0 {
        assert rest[j - 1] in ops[1..];
      } else {
        assert rest[i - 1].id != rest[j - 1].id;
      }
    }
  }

  lemma {:induction false} RemoveConcat(a: seq<Operation>, b: seq<Operation>, op: Operation)
    ensures Remove(a + b, op) == Remove(a, op) + Remove(b, op)
  {
    if a == [] {
      assert a + b == b;
    } else {
      assert (a + b)[1..] == a[1..] + b;
      RemoveConcat(a[1..], b, op);
    }
  }

  lemma StepKeepsValid(b: Bucket, e: Event)
    requires Valid(b) && Enabled(b, e)
    ensures Valid(Next(b, e))
  {
    match e
    case Enqueue(op) =>
      assert b.inProgress + (b.forNext + [op]) == b.inProgress + b.forNext + [op];
    case Tick(now, order) =>
      var ops := b.inProgress + b.forNext;
      assert ops + [] == ops;
      if b.limit != 0 {
        hide Refilled, Permits, Left, Grant;
        RefilledAtMost(b, now);
        var tokens := Refilled(b, now);
        WaitingIsSub(ops, Permits(order, tokens));
        var w := Waiting(ops, Permits(order, tokens));
        assert w + [] == w;
        LeftIsRest(Lengths(order), tokens);
      }
    case Cancel(op) =>
      RemoveConcat(b.inProgress, b.forNext, op);
      RemoveIsSub(b.inProgress + b.forNext, op);
    case _ =>
  }

  // ---------------------------------------------------------------- runs

  predicate IsRun(b: Bucket, events: seq<Event>)
    decreases |events|
  {
    events == [] || (Enabled(b, events[0]) && IsRun(Next(b, events[0]), events[1..]))
  }

  function End(b: Bucket, events: seq<Event>): Bucket
    requires IsRun(b, events)
    decreases |events|
  {
    if events == [] then b else End(Next(b, events[0]), events[1..])
  }

  /** Over any run, from any valid bucket: bytes transferred, permitted and not yet used, refunded and
      remaining never exceed what was held at the start plus what was granted since. */
  lemma {:induction false} RunConserves(b: Bucket, events: seq<Event>)
    requires Valid(b) && IsRun(b, events)
    ensures var b' := End(b, events);
      Valid(b') && b'.transferred + Held(b') + b.granted <= b.transferred + Held(b) + b'.granted
    decreases |events|
  {
    hide Next, Enabled, Valid, Held, Lost;
    if events != [] {
      StepConserves(b, events[0]);
      StepKeepsValid(b, events[0]);
      RunConserves(Next(b, events[0]), events[1..]);
    }
  }

  /** A run with one positive limit and a clock that does not go back. */
  predicate Steady(b: Bucket, events: seq<Event>)
    requires IsRun(b, events)
    decreases |events|
  {
    events == [] ||
    (b.limit > 0 && !events[0].SetLimit? && (events[0].Tick? ==> b.last <= events[0].now)
        && Steady(Next(b, events[0]), events[1..]))
  }

  lemma {:induction false} SteadyGrants(b: Bucket, events: seq<Event>)
    requires IsRun(b, events) && Steady(b, events)
    ensures var b' := End(b, events);
      b'.limit == b.limit && b.last <= b'.last && (b'.granted - b.granted) * SECOND <= b.limit * (b'.last - b.last)
    decreases |events|
  {
    if events != [] {
      var b1 := Next(b, events[0]);
      SteadyGrants(b1, events[1..]);
      SteadyStep(b, events[0]);
      var b2 := End(b1, events[1..]);
      hide Next, End;
      assert b.limit * (b2.last - b.last) == b.limit * (b2.last - b1.last) + b.limit * (b1.last - b.last);
    }
  }

  lemma SteadyStep(b: Bucket, e: Event)
    requires Enabled(b, e) && b.limit > 0 && !e.SetLimit? && (e.Tick? ==> b.last <= e.now)
    ensures var b1 := Next(b, e);
      b1.limit == b.limit && b.last <= b1.last && (b1.granted - b.granted) * SECOND <= b.limit * (b1.last - b.last)
  {
    hide Permits, Started, Waiting, Left, Refilled, Grant, IsSorting, Remove, WithoutAt;
    if e.Tick? {
      GrantAtMost(b.limit, e.now - b.last);
      MulMono(Clamp(e.now - b.last), e.now - b.last, b.limit);
    }
  }

  /** The promise of the limiter: over any stretch of a run with a constant positive limit, the bytes
      transferred stay below what the bucket held plus the limit times the time passed. */
  lemma RateIsLimited(b: Bucket, events: seq<Event>)
    requires Valid(b) && IsRun(b, events) && Steady(b, events)
    ensures var b' := End(b, events);
      (b'.transferred - b.transferred) * SECOND <= Held(b) * SECOND + b.limit * (b'.last - b.last)
  {
    RunConserves(b, events);
    SteadyGrants(b, events);
  }
}
