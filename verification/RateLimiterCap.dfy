/** What an iteration divides, in plain numbers: the burst cap, the grant for the time passed, and who goes first. */
module RateLimiterCap {
  import opened Arith
  import opened RateLimiter
  import opened RateLimiterRuns

  /** The most that may start in one iteration: limit times burstiness, in 32 bits. */
  function Cap(b: Bucket): nat {
    b.limit * b.burstiness % 0x1_0000_0000
  }

  /** What was started by the step from b to b', and what is left for later. */
  function Divided(b: Bucket, b': Bucket): nat
    requires |b.performed| <= |b'.performed|
  {
    Permitted(b'.performed[|b.performed|..]) + b'.tokens
  }

  // ---------------------------------------------------------------- the grant

  /** Microseconds, at most a second of them, never negative; a part of a byte is dropped. */
  lemma GrantIs(limit: nat, elapsed: int)
    ensures elapsed >= 1_000_000 ==> Grant(limit, elapsed) == limit
    ensures elapsed <= 0 ==> Grant(limit, elapsed) == 0
    ensures 0 <= elapsed <= 1_000_000 ==>
              var g := Grant(limit, elapsed); g * 1_000_000 <= limit * elapsed < (g + 1) * 1_000_000
  {
    DivFacts(limit * Clamp(elapsed), SECOND);
    DivIs(limit * 1_000_000, 1_000_000, limit, 0);
    DivIs(limit * 0, 1_000_000, 0, 0);
  }

  // ---------------------------------------------------------------- one iteration

  /** All refunds and grants count, in 32 bits, up to the cap. */
  lemma RefilledIs(b: Bucket, now: int)
    requires Valid(b)
    ensures Refilled(b, now) == Min((b.tokens + b.unused + Grant(b.limit, now - b.last)) % 0x1_0000_0000, Cap(b))
  {
    var g := Grant(b.limit, now - b.last);
    var t := b.tokens;
    hide Grant;
    SumWraps(g, t);
    SumWraps(t + g, b.unused);
  }

  lemma SumWraps(x: nat, y: nat)
    ensures (y + x % 0x1_0000_0000) % 0x1_0000_0000 == (x + y) % 0x1_0000_0000
    ensures (x % 0x1_0000_0000 + y) % 0x1_0000_0000 == (x + y) % 0x1_0000_0000
  {
    var m := 0x1_0000_0000;
    DivFacts(x, m);
    ModAddMultiple(x / m, m, x % m + y);
  }

  /** What an iteration under a limit starts and keeps, together, is exactly what there is up to the cap. */
  lemma TickDividesUpToCap(b: Bucket, now: int, order: seq<Operation>)
    requires Valid(b) && b.limit > 0 && IsSorting(order, b.inProgress + b.forNext)
    ensures var b' := AfterTick(b, now, order);
      && |b.performed| <= |b'.performed| && b'.performed[..|b.performed|] == b.performed && b'.unused == 0
      && Divided(b, b') == Min((b.tokens + b.unused + Grant(b.limit, now - b.last)) % 0x1_0000_0000, Cap(b))
  {
    var ops, tokens := b.inProgress + b.forNext, Refilled(b, now);
    RefilledIs(b, now);
    hide Permits, Left, Refilled, Grant, Started, Waiting, IsSorting, Cap;
    TickDivides(order, ops, tokens);
    var b' := AfterTick(b, now, order);
    if tokens == 0 {
      assert b'.performed[|b.performed|..] == [];
    } else {
      assert b'.performed[|b.performed|..] == Started(ops, Permits(order, tokens));
    }
  }

  /** Tokens get lost in an iteration only by wrap-around, or when it divides exactly the cap. */
  lemma OnlyTheCapLosesTokens(b: Bucket, now: int, order: seq<Operation>)
    requires Valid(b) && b.limit > 0 && IsSorting(order, b.inProgress + b.forNext)
    requires b.tokens + b.unused + Grant(b.limit, now - b.last) < 0x1_0000_0000
    ensures var b', there := AfterTick(b, now, order), b.tokens + b.unused + Grant(b.limit, now - b.last);
      && |b.performed| <= |b'.performed|
      && (Divided(b, b') < there ==> Divided(b, b') == Cap(b))
      && (Divided(b, b') < there <==> Cap(b) < there)
  {
    hide *;
    TickDividesUpToCap(b, now, order);
    var there, cap := b.tokens + b.unused + Grant(b.limit, now - b.last), Cap(b);
    MinIs(there % 0x1_0000_0000, cap);
  }

  lemma MinIs(a: int, b: int)
    ensures Min(a, b) == if a < b then a else b
  {
  }

  // ---------------------------------------------------------------- every iteration of every run

  lemma {:induction false} RunUpTo(b: Bucket, events: seq<Event>, k: nat)
    requires Valid(b) && IsRun(b, events) && k < |events|
    ensures IsRun(b, events[..k]) && IsRun(b, events[..k + 1])
    ensures var s := End(b, events[..k]);
      Valid(s) && Enabled(s, events[k]) && End(b, events[..k + 1]) == Next(s, events[k])
    decreases k
  {
    hide Valid, Enabled, Next;
    if k == 0 {
      assert events[..1] == [events[0]] && events[..1][1..] == [] && events[..0] == [];
    } else {
      var b1, more := Next(b, events[0]), events[1..];
      StepKeepsValid(b, events[0]);
      RunUpTo(b1, more, k - 1);
      assert events[..k][1..] == more[..k - 1] && events[..k + 1][1..] == more[..k];
    }
  }

  /** In every iteration of every run: bytes started and tokens left stay within the burst cap. */
  lemma EveryIterationIsCapped(b: Bucket, events: seq<Event>, k: nat)
    requires Valid(b) && IsRun(b, events) && k < |events| && events[k].Tick?
    ensures IsRun(b, events[..k]) && IsRun(b, events[..k + 1])
    ensures var s, s' := End(b, events[..k]), End(b, events[..k + 1]);
      s.limit > 0 ==>
        && |s.performed| <= |s'.performed| && s'.performed[..|s.performed|] == s.performed
        && Divided(s, s') <= Cap(s)
  {
    RunUpTo(b, events, k);
    hide IsRun, End, AfterTick, Divided, Cap, Grant, Valid;
    var s := End(b, events[..k]);
    if s.limit > 0 {
      TickDividesUpToCap(s, events[k].now, events[k].order);
    }
  }

  /** The promise of the limiter in bytes, seconds and microseconds. */
  lemma RateIsLimitedPerSecond(b: Bucket, events: seq<Event>)
    requires Valid(b) && IsRun(b, events) && Steady(b, events)
    ensures var b' := End(b, events);
      (b'.transferred - b.transferred) * 1_000_000 <= Held(b) * 1_000_000 + b.limit * (b'.last - b.last)
  {
    hide Held, End, IsRun, Steady, Valid;
    RateIsLimited(b, events);
  }

  // ---------------------------------------------------------------- first come, first served

  /** Of two operations that are started, the one that stands in front goes first. */
  lemma {:induction false} FirstComeFirst(ops: seq<Operation>, permits: map<nat, nat>, i: nat, j: nat)
    requires i < j < |ops| && PermitOf(permits, ops[i]) > 0 && PermitOf(permits, ops[j]) > 0
    ensures exists m, n :: 0 <= m < n < |Started(ops, permits)|
              && Started(ops, permits)[m] == Granted(ops[i], PermitOf(permits, ops[i]))
              && Started(ops, permits)[n] == Granted(ops[j], PermitOf(permits, ops[j]))
    decreases i
  {
    var rest := Started(ops[1..], permits);
    StartedHead(ops, permits);
    hide PermitOf, Started;
    if i == 0 {
      var n := StartedAt(ops[1..], permits, j - 1);
      assert Started(ops, permits)[0] == Granted(ops[0], PermitOf(permits, ops[0]));
      assert Started(ops, permits)[n + 1] == rest[n];
    } else {
      FirstComeFirst(ops[1..], permits, i - 1, j - 1);
      var m, n :| 0 <= m < n < |rest| && rest[m] == Granted(ops[i], PermitOf(permits, ops[i]))
                  && rest[n] == Granted(ops[j], PermitOf(permits, ops[j]));
      var d := |Started(ops, permits)| - |rest|;
      assert Started(ops, permits)[d + m] == rest[m] && Started(ops, permits)[d + n] == rest[n];
    }
  }

  lemma StartedHead(ops: seq<Operation>, permits: map<nat, nat>)
    requires ops != []
    ensures Started(ops, permits)
         == (if PermitOf(permits, ops[0]) > 0 then [Granted(ops[0], PermitOf(permits, ops[0]))] else [])
            + Started(ops[1..], permits)
  {
  }

  lemma {:induction false} StartedAt(ops: seq<Operation>, permits: map<nat, nat>, j: nat) returns (n: nat)
    requires j < |ops| && PermitOf(permits, ops[j]) > 0
    ensures n < |Started(ops, permits)| && Started(ops, permits)[n] == Granted(ops[j], PermitOf(permits, ops[j]))
    decreases j
  {
    StartedHead(ops, permits);
    hide PermitOf, Started;
    var rest := Started(ops[1..], permits);
    n := 0;
    if j > 0 {
      n := StartedAt(ops[1..], permits, j - 1);
      n := n + (|Started(ops, permits)| - |rest|);
    }
  }

  /** The others stay in the queue, and nobody else is started. */
  lemma {:induction false} OthersWait(ops: seq<Operation>, permits: map<nat, nat>)
    ensures |Started(ops, permits)| + |Waiting(ops, permits)| == |ops|
    ensures forall op :: op in Waiting(ops, permits) <==> op in ops && PermitOf(permits, op) == 0
    ensures forall g :: g in Started(ops, permits) ==> g.op in ops && g.permitted == PermitOf(permits, g.op) > 0
  {
    if ops != [] {
      hide PermitOf;
      OthersWait(ops[1..], permits);
    }
  }

  /** Those queued earlier stand in front of those queued since the last iteration. */
  lemma QueueInOrder(b: Bucket, now: int, order: seq<Operation>)
    requires b.limit > 0 && Refilled(b, now) > 0
    ensures var b', permits := AfterTick(b, now, order), Permits(order, Refilled(b, now));
      && b'.performed == b.performed + (Started(b.inProgress, permits) + Started(b.forNext, permits))
      && b'.inProgress == Waiting(b.inProgress, permits) + Waiting(b.forNext, permits) && b'.forNext == []
  {
    hide Permits, Refilled, Started, Waiting, Left, Grant;
    StartedConcat(b.inProgress, b.forNext, Permits(order, Refilled(b, now)));
  }

  /** The queue is gone through from the front, one operation at a time. */
  lemma {:induction false} StartedConcat(x: seq<Operation>, y: seq<Operation>, permits: map<nat, nat>)
    ensures Started(x + y, permits) == Started(x, permits) + Started(y, permits)
    ensures Waiting(x + y, permits) == Waiting(x, permits) + Waiting(y, permits)
    ensures |x| == 1 ==> Waiting(x, permits) == if PermitOf(permits, x[0]) > 0 then [] else x
  {
    if x == [] {
      assert x + y == y;
      assert Started(x, permits) + Started(y, permits) == Started(y, permits);
      assert Waiting(x, permits) + Waiting(y, permits) == Waiting(y, permits);
    } else {
      assert (x + y)[1..] == x[1..] + y;
      StartedHead(x, permits);
      StartedHead(x + y, permits);
      WaitingHead(x, permits);
      WaitingHead(x + y, permits);
      assert |x| == 1 ==> Waiting(x[1..], permits) == [] && x == [x[0]];
      hide PermitOf, Started, Waiting;
      StartedConcat(x[1..], y, permits);
    }
  }

  lemma WaitingHead(ops: seq<Operation>, permits: map<nat, nat>)
    requires ops != []
    ensures Waiting(ops, permits)
         == (if PermitOf(permits, ops[0]) > 0 then [] else [ops[0]]) + Waiting(ops[1..], permits)
  {
  }

  /** The queue: those in progress, then those for the next iteration. */
  function Queue(b: Bucket): seq<Operation> {
    b.inProgress + b.forNext
  }

  /** A new operation stands last; a cancelled one is gone, and nobody else is. */
  lemma QueueChanges(b: Bucket, op: Operation, limit: nat)
    requires Valid(b)
    ensures Enabled(b, Enqueue(op)) ==> Queue(Next(b, Enqueue(op))) == Queue(b) + [op]
    ensures var q := Queue(Next(b, Cancel(op)));
      && op !in q && (forall x :: x != op ==> (x in q <==> x in Queue(b)))
      && |q| == |Queue(b)| - (if op in Queue(b) then 1 else 0)
    ensures limit < 0x1_0000_0000 ==> Next(b, SetLimit(limit)) == b.(limit := limit)
  {
    hide DistinctIds, Remove, IsSorting, AfterTick;
    var p, n := b.inProgress, b.forNext;
    assert p + (n + [op]) == p + n + [op];
    RemoveConcat(p, n, op);
    RemovedIsGone(Queue(b), op);
    CancelIs(b, op);
  }

  lemma CancelIs(b: Bucket, op: Operation)
    ensures Queue(Next(b, Cancel(op))) == Remove(b.inProgress, op) + Remove(b.forNext, op)
  {
    hide Remove, AfterTick;
  }

  lemma {:induction false} RemovedIsGone(ops: seq<Operation>, op: Operation)
    requires DistinctIds(ops)
    ensures op !in Remove(ops, op) && forall x :: x != op ==> (x in Remove(ops, op) <==> x in ops)
    ensures |Remove(ops, op)| == |ops| - (if op in ops then 1 else 0)
  {
    if ops != [] {
      RemovedIsGone(ops[1..], op);
      assert ops == [ops[0]] + ops[1..];
    }
  }

  /** A completed operation gives back what it did not use, a failed one nothing; both leave the list. */
  lemma RefundsAre(b: Bucket, k: nat, bytes: nat)
    requires k < |b.performed| && bytes <= b.performed[k].permitted
    ensures var c, a := Next(b, Complete(k, bytes)), Next(b, Abort(k, bytes));
      && c.unused == (b.unused + b.performed[k].permitted - bytes) % 0x1_0000_0000 && a.unused == b.unused
      && c.transferred == a.transferred == b.transferred + bytes
      && c.performed == a.performed == b.performed[..k] + b.performed[k + 1..]
      && Queue(c) == Queue(a) == Queue(b) && c.tokens == a.tokens == b.tokens
  {
  }

  /** Without a limit everything starts at once, in the order of the queue and in full. */
  lemma {:induction false} AllInOrder(ops: seq<Operation>)
    ensures |Unlimited(ops)| == |ops|
    ensures forall i :: 0 <= i < |ops| ==> Unlimited(ops)[i] == Granted(ops[i], ops[i].length)
  {
    if ops != [] {
      AllInOrder(ops[1..]);
    }
  }
}
