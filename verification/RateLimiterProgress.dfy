/** When the bucket does something: what starts operations, how much is granted at least, and who starves. */
module RateLimiterProgress {
  import opened Arith
  import opened RateLimiter
  import opened RateLimiterRuns

  // ---------------------------------------------------------------- one iteration

  lemma {:induction false} StartedNothingIff(ops: seq<Operation>, permits: map<nat, nat>)
    ensures Started(ops, permits) == [] <==> forall x :: x in ops ==> PermitOf(permits, x) == 0
    ensures Permitted(Started(ops, permits)) == 0 <==> Started(ops, permits) == []
  {
    hide PermitOf;
    if ops != [] {
      StartedNothingIff(ops[1..], permits);
      assert forall x :: x in ops <==> x == ops[0] || x in ops[1..];
      var head := if PermitOf(permits, ops[0]) > 0 then [Granted(ops[0], PermitOf(permits, ops[0]))] else [];
      PermittedConcat(head, Started(ops[1..], permits));
    }
  }

  /** An iteration starts something if and only if there is a token and an operation that asks for one. */
  lemma IterationStartsIff(order: seq<Operation>, ops: seq<Operation>, tokens: nat)
    requires IsSorting(order, ops) && DistinctIds(ops)
    ensures Started(ops, Permits(order, tokens)) != [] <==> tokens > 0 && exists x :: x in ops && x.length > 0
  {
    hide IsSorting, Permits, Permitted, Started, PermitOf, Left;
    var permits := Permits(order, tokens);
    StartedNothingIff(ops, permits);
    TickDivides(order, ops, tokens);
    IterationIsFair(order, ops, tokens);
  }

  /** A tick without tokens: the cap is zero, or nothing was left and the time passed is worth less than a byte. */
  lemma RefilledNothingIff(b: Bucket, now: int)
    requires Valid(b) && b.tokens == 0 && b.unused == 0
    ensures Refilled(b, now) == 0 <==> CapIsZero(b) || b.limit * Clamp(now - b.last) < SECOND
  {
    GrantAtMost(b.limit, now - b.last);
    GrantsNothingIff(b.limit, now - b.last);
    hide Grant;
  }

  lemma GrantsNothingIff(limit: nat, elapsed: int)
    ensures Grant(limit, elapsed) == 0 <==> limit * Clamp(elapsed) < SECOND
  {
    DivFacts(limit * Clamp(elapsed), SECOND);
  }

  /** The product of limit and burstiness, in 32 bits. */
  predicate CapIsZero(b: Bucket) {
    (b.limit * b.burstiness) % TWO_32 == 0
  }

  // ---------------------------------------------------------------- at least so much is granted

  function Ticks(events: seq<Event>): nat {
    if events == [] then 0 else (if events[0].Tick? then 1 else 0) + Ticks(events[1..])
  }

  /** No iteration comes more than a second after the one before. */
  predicate Prompt(b: Bucket, events: seq<Event>)
    requires IsRun(b, events)
    decreases |events|
  {
    events == [] ||
    ((events[0].Tick? ==> events[0].now - b.last <= SECOND) && Prompt(Next(b, events[0]), events[1..]))
  }

  /** Every iteration rounds away less than a token of what the time passed is worth, and nothing else is withheld. */
  lemma {:induction false} GrantedAtLeast(b: Bucket, events: seq<Event>)
    requires IsRun(b, events) && Steady(b, events) && Prompt(b, events)
    ensures var b' := End(b, events);
      (b'.granted - b.granted) * SECOND + Ticks(events) * (SECOND - 1) >= b.limit * (b'.last - b.last)
    decreases |events|
  {
    if events != [] {
      hide Next, Enabled;
      var b1 := Next(b, events[0]);
      GrantedAtLeast(b1, events[1..]);
      SteadyStep(b, events[0]);
      StepGrantsAtLeast(b, events[0]);
      var b2 := End(b1, events[1..]);
      TicksStep(events);
      hide *;
      Distributes(b.limit, b2.last - b1.last, b1.last - b.last);
    }
  }

  lemma Distributes(n: int, x: int, y: int)
    ensures n * (x + y) == n * x + n * y
  {
  }

  lemma TicksStep(events: seq<Event>)
    requires events != []
    ensures Ticks(events) == (if events[0].Tick? then 1 else 0) + Ticks(events[1..])
  {
  }

  lemma StepGrantsAtLeast(b: Bucket, e: Event)
    requires Enabled(b, e) && b.limit > 0 && !e.SetLimit? && (e.Tick? ==> b.last <= e.now <= b.last + SECOND)
    ensures var b1 := Next(b, e);
      (b1.granted - b.granted) * SECOND + (if e.Tick? then SECOND - 1 else 0) >= b.limit * (b1.last - b.last)
  {
    hide Permits, Started, Waiting, Left, Refilled, IsSorting, Remove, WithoutAt;
    if e.Tick? {
      var worth := b.limit * Clamp(e.now - b.last);
      DivFacts(worth, SECOND);
    }
  }

  // ---------------------------------------------------------------- starvation

  /** Nothing is performed, and nothing is there to perform it with. */
  predicate Dry(b: Bucket) {
    b.limit > 0 && b.performed == [] && (CapIsZero(b) || (b.tokens == 0 && b.unused == 0))
  }

  /** The limit stays, and every iteration comes too soon for a whole token, unless the cap is zero anyway. */
  predicate Hasty(b: Bucket, events: seq<Event>)
    requires IsRun(b, events)
    decreases |events|
  {
    events == [] ||
    (!events[0].SetLimit?
     && (events[0].Tick? && !CapIsZero(b) ==> b.limit * Clamp(events[0].now - b.last) < SECOND)
     && Hasty(Next(b, events[0]), events[1..]))
  }

  lemma StepStaysDry(b: Bucket, e: Event)
    requires Valid(b) && Dry(b) && Enabled(b, e) && !e.SetLimit?
    requires e.Tick? && !CapIsZero(b) ==> b.limit * Clamp(e.now - b.last) < SECOND
    ensures Dry(Next(b, e)) && Next(b, e).transferred == b.transferred
  {
    hide Permits, Started, Waiting, Left, IsSorting, Remove, DistinctIds;
    if e.Tick? {
      if !CapIsZero(b) {
        RefilledNothingIff(b, e.now);
      }
      assert Refilled(b, e.now) == 0;
      hide Refilled, Grant;
    }
  }

  /** Iterations that keep coming too soon never let anything through, however long they go on. */
  lemma {:induction false} HastyRunStarves(b: Bucket, events: seq<Event>)
    requires Valid(b) && Dry(b) && IsRun(b, events) && Hasty(b, events)
    ensures var b' := End(b, events); Dry(b') && b'.transferred == b.transferred
    decreases |events|
  {
    hide Next, Enabled, Valid, Dry, CapIsZero, Clamp;
    if events != [] {
      StepStaysDry(b, events[0]);
      StepKeepsValid(b, events[0]);
      HastyRunStarves(Next(b, events[0]), events[1..]);
    }
  }

  /** Ten bytes a second with an iteration every 50 milliseconds; and a cap that is a multiple of 2^32. */
  lemma StarvingInputs(b: Bucket, now: int)
    requires b.tokens == 0 && b.unused == 0
    ensures b.limit == 10 && now - b.last == 50_000 ==> Refilled(b, now) == 0
    ensures b.limit == 0x8000_0000 && b.burstiness == 2 ==> Refilled(b, now) == 0
  {
  }

  // ---------------------------------------------------------------- operations of length zero

  predicate IsQueued(b: Bucket, op: Operation) {
    op in b.inProgress + b.forNext
  }

  lemma {:induction false} WaitingKeeps(ops: seq<Operation>, permits: map<nat, nat>, op: Operation)
    requires op in ops && PermitOf(permits, op) == 0
    ensures op in Waiting(ops, permits)
  {
    hide PermitOf;
    if ops[0] != op {
      WaitingKeeps(ops[1..], permits, op);
    }
  }

  lemma {:induction false} RemoveKeeps(ops: seq<Operation>, other: Operation, op: Operation)
    requires op in ops && op != other
    ensures op in Remove(ops, other)
  {
    if ops[0] != op {
      RemoveKeeps(ops[1..], other, op);
    }
  }

  lemma StepKeepsZeroLength(b: Bucket, e: Event, op: Operation)
    requires Valid(b) && Enabled(b, e) && b.limit > 0 && e != Cancel(op)
    requires IsQueued(b, op) && op.length == 0
    ensures IsQueued(Next(b, e), op)
  {
    match e
    case Tick(now, order) =>
      hide Permits, PermitOf, Refilled, Grant, Left, IsSorting, Waiting, Started;
      var ops, tokens := b.inProgress + b.forNext, Refilled(b, now);
      if tokens != 0 {
        IterationIsFair(order, ops, tokens);
        assert PermitOf(Permits(order, tokens), op) <= op.length;
        WaitingKeeps(ops, Permits(order, tokens), op);
      }
    case Cancel(other) =>
      RemoveConcat(b.inProgress, b.forNext, other);
      RemoveKeeps(b.inProgress + b.forNext, other, op);
      hide Remove;
    case _ =>
  }

  /** Under a positive limit a queued operation of length zero waits until it is cancelled. */
  lemma {:induction false} ZeroLengthWaits(b: Bucket, events: seq<Event>, op: Operation)
    requires Valid(b) && IsRun(b, events) && Steady(b, events)
    requires IsQueued(b, op) && op.length == 0 && Cancel(op) !in events
    ensures IsQueued(End(b, events), op)
    decreases |events|
  {
    hide Next, Enabled, Valid, IsQueued;
    if events != [] {
      StepKeepsZeroLength(b, events[0], op);
      StepKeepsValid(b, events[0]);
      ZeroLengthWaits(Next(b, events[0]), events[1..], op);
    }
  }

  /** Without a limit it is performed at the next iteration like every other one. */
  lemma {:induction false} UnlimitedPerforms(ops: seq<Operation>, op: Operation)
    ensures op in ops ==> Granted(op, op.length) in Unlimited(ops)
  {
    if ops != [] {
      UnlimitedPerforms(ops[1..], op);
    }
  }
}
