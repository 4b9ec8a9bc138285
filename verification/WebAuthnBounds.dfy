/** What the handler's 32-bit counter counts, and exactly how deep a document may be for it. */
module WebAuthnBounds {
  import opened Bytes
  import opened Arith
  import opened Options
  import opened WebAuthn

  // ---------------------------------------------------------------- what the counter counts

  function Delta(e: Event): int {
    match e
    case StartObjectEvent => 1
    case StartArrayEvent => 1
    case EndObjectEvent => -1
    case EndArrayEvent => -1
    case _ => 0
  }

  /** Containers opened less containers closed. */
  function Balance(events: seq<Event>): int {
    if events == [] then 0 else Delta(events[0]) + Balance(events[1..])
  }

  /** With `open` containers open at first, there is always at least one open and at most `limit`. */
  predicate Stays(events: seq<Event>, open: int, limit: nat)
    decreases |events|
  {
    1 <= open <= limit && (events != [] ==> Stays(events[1..], open + Delta(events[0]), limit))
  }

  /** The root is open, the counter counts the others, and it is positive exactly in the nested stage. */
  ghost predicate Counts(s: State, open: int) {
    !s.stage.ExpectObjectStart? && s.depth == open - 1 && (s.stage.InNested? <==> s.depth > 0)
  }

  lemma StepCounts(s: State, e: Event, open: int)
    requires Counts(s, open) && 1 <= open <= TWO_32 && 1 <= open + Delta(e) <= TWO_32
    ensures Step(s, e).Some? ==> Counts(Step(s, e).value, open + Delta(e))
  {
    hide StageFor;
    if e.KeyEvent? {
      StageForIs(e.key);
    }
  }

  lemma {:induction false} RunCounts(s: State, events: seq<Event>, open: int)
    requires Counts(s, open) && Stays(events, open, TWO_32)
    ensures Run(s, events).Some? ==> Counts(Run(s, events).value, open + Balance(events))
    decreases |events|
  {
    hide Step, Counts;
    if events != [] {
      assert Stays(events[1..], open + Delta(events[0]), TWO_32);
      StepCounts(s, events[0], open);
      if Step(s, events[0]).Some? {
        RunCounts(Step(s, events[0]).value, events[1..], open + Delta(events[0]));
      }
    }
  }

  lemma {:induction false} StaysConcat(a: seq<Event>, b: seq<Event>, open: int, limit: nat)
    requires Stays(a, open, limit) && Stays(b, open + Balance(a), limit)
    ensures Stays(a + b, open, limit) && Balance(a + b) == Balance(a) + Balance(b)
    decreases |a|
  {
    if a == [] {
      assert a + b == b;
    } else {
      assert (a + b)[1..] == a[1..] + b;
      StaysConcat(a[1..], b, open + Delta(a[0]), limit);
    }
  }

  lemma {:induction false} StaysPrefix(a: seq<Event>, k: nat, open: int, limit: nat)
    requires Stays(a, open, limit) && k <= |a|
    ensures Stays(a[..k], open, limit)
    decreases k
  {
    if k > 0 {
      assert a[..k][1..] == a[1..][..k - 1];
      StaysPrefix(a[1..], k - 1, open + Delta(a[0]), limit);
    }
  }

  lemma StaysOne(e: Event, open: int, limit: nat)
    requires 1 <= open <= limit && 1 <= open + Delta(e) <= limit
    ensures Stays([e], open, limit) && Balance([e]) == Delta(e)
  {
    assert [e][1..] == [];
  }

  lemma {:induction false} DocStays(d: Doc, open: nat, limit: nat)
    requires 1 <= open && open + Nesting(d) <= limit
    ensures Stays(EventsOf(d), open, limit) && Balance(EventsOf(d)) == 0
    decreases d, 0
  {
    hide Stays, Balance;
    match d
    case Scalar => StaysOne(ScalarEvent, open, limit);
    case Text(text) => StaysOne(StringEvent(text), open, limit);
    case List(items) =>
      StaysOne(StartArrayEvent, open, limit);
      ItemsStay(items, open + 1, limit);
      StaysOne(EndArrayEvent, open + 1, limit);
      StaysConcat([StartArrayEvent], EventsOfItems(items), open, limit);
      StaysConcat([StartArrayEvent] + EventsOfItems(items), [EndArrayEvent], open, limit);
    case Record(members) =>
      StaysOne(StartObjectEvent, open, limit);
      MembersStay(members, open + 1, limit);
      StaysOne(EndObjectEvent, open + 1, limit);
      StaysConcat([StartObjectEvent], EventsOfMembers(members), open, limit);
      StaysConcat([StartObjectEvent] + EventsOfMembers(members), [EndObjectEvent], open, limit);
  }

  lemma {:induction false} ItemsStay(items: seq<Doc>, open: nat, limit: nat)
    requires 1 <= open && open + NestingOfItems(items) <= limit
    ensures Stays(EventsOfItems(items), open, limit) && Balance(EventsOfItems(items)) == 0
    decreases items, 0
  {
    if items != [] {
      hide Stays, Balance;
      DocStays(items[0], open, limit);
      ItemsStay(items[1..], open, limit);
      StaysConcat(EventsOf(items[0]), EventsOfItems(items[1..]), open, limit);
    }
  }

  lemma {:induction false} MembersStay(members: seq<Member>, open: nat, limit: nat)
    requires 1 <= open && open + NestingOfMembers(members) <= limit
    ensures Stays(EventsOfMembers(members), open, limit) && Balance(EventsOfMembers(members)) == 0
    decreases members, 0
  {
    if members != [] {
      hide Stays, Balance;
      var m := members[0];
      StaysOne(KeyEvent(m.key), open, limit);
      DocStays(m.value, open, limit);
      MembersStay(members[1..], open, limit);
      StaysConcat([KeyEvent(m.key)], EventsOf(m.value), open, limit);
      StaysConcat([KeyEvent(m.key)] + EventsOf(m.value), EventsOfMembers(members[1..]), open, limit);
    }
  }

  /** After the root's opening and the first k events below it, unless one was refused. */
  ghost predicate CountsAfter(members: seq<Member>, k: nat)
    requires k <= |EventsOfMembers(members)|
  {
    var seen := EventsOfMembers(members)[..k];
    var r := Run(INITIAL, [StartObjectEvent] + seen);
    r.Some? ==> Counts(r.value, 1 + Balance(seen))
  }

  ghost predicate CountsThroughout(members: seq<Member>) {
    forall k: nat :: k <= |EventsOfMembers(members)| ==> CountsAfter(members, k)
  }

  /** After every prefix of a document's events, while its root is open, the counter counts the open containers. */
  lemma CounterCountsNesting(members: seq<Member>, k: nat)
    requires NestingOfMembers(members) < TWO_32 && k <= |EventsOfMembers(members)|
    ensures CountsAfter(members, k)
  {
    hide Run, Stays, EventsOfMembers, NestingOfMembers, Balance;
    var seen := EventsOfMembers(members)[..k];
    MembersStay(members, 1, TWO_32);
    StaysPrefix(EventsOfMembers(members), k, 1, TWO_32);
    RunFirst(INITIAL, StartObjectEvent, seen);
    RunCounts(AtKey(INITIAL.found), seen, 1);
  }

  // ---------------------------------------------------------------- deeper than the counter counts

  /** n arrays in each other. */
  function Tower(n: nat): Doc
    requires n >= 1
  {
    List(if n == 1 then [] else [Tower(n - 1)])
  }

  function Repeat(e: Event, n: nat): (r: seq<Event>)
    ensures |r| == n
  {
    seq(n, i => e)
  }

  lemma {:induction false} EventsOfTower(n: nat)
    requires n >= 1
    ensures EventsOf(Tower(n)) == Repeat(StartArrayEvent, n) + Repeat(EndArrayEvent, n)
  {
    var items := Tower(n).items;
    if n == 1 {
      assert EventsOfItems(items) == [];
    } else {
      EventsOfTower(n - 1);
      assert EventsOfItems([Tower(n - 1)]) == EventsOf(Tower(n - 1)) + EventsOfItems([]);
    }
  }

  lemma OpensDeeper(f: Found, depth: nat)
    ensures Step(Nested(f, depth), StartArrayEvent) == Some(Nested(f, depth + 1))
  {
  }

  lemma StartsStep(n: nat, rest: seq<Event>)
    requires n >= 1
    ensures Repeat(StartArrayEvent, 0) + rest == rest
    ensures Repeat(StartArrayEvent, n) + rest == [StartArrayEvent] + (Repeat(StartArrayEvent, n - 1) + rest)
  {
  }

  lemma {:induction false} RunOpening(f: Found, depth: nat, n: nat, rest: seq<Event>)
    ensures Run(Nested(f, depth), Repeat(StartArrayEvent, n) + rest) == Run(Nested(f, depth + n), rest)
    decreases n
  {
    hide *;
    if n == 0 {
      StartsStep(1, rest);
    } else {
      StartsStep(n, rest);
      OpensDeeper(f, depth);
      RunFirst(Nested(f, depth), StartArrayEvent, Repeat(StartArrayEvent, n - 1) + rest);
      RunOpening(f, depth + 1, n - 1, rest);
    }
  }

  /** One level more than the counter can hold, and closing the innermost array ends the nesting. */
  lemma TowerIsRefused(f: Found, n: nat, rest: seq<Event>)
    requires n == TWO_32 + 1
    ensures Run(State(ExpectDontCare, 0, f), Repeat(StartArrayEvent, n) + (Repeat(EndArrayEvent, n) + rest)).None?
  {
    hide Run;
    var closing := Repeat(EndArrayEvent, n) + rest;
    var opening := Repeat(StartArrayEvent, n - 1) + closing;
    assert Repeat(StartArrayEvent, n) + closing == [StartArrayEvent] + opening;
    RunFirst(State(ExpectDontCare, 0, f), StartArrayEvent, opening);
    RunOpening(f, 1, n - 1, closing);
    var last := Repeat(EndArrayEvent, n - 2) + rest;
    assert closing == [EndArrayEvent] + ([EndArrayEvent] + last);
    RunFirst(Nested(f, n), EndArrayEvent, [EndArrayEvent] + last);
    RunFirst(AtKey(f), EndArrayEvent, last);
  }

  /** The bound on the nesting cannot be dropped: a document of arrays that should be accepted is not. */
  lemma TooDeepIsRejected(n: nat)
    requires n == TWO_32 + 1
    ensures var d := Record([Member(Ascii("a"), Tower(n))]);
      NestingOfMembers(d.members) == n && Accepts(d) && Run(INITIAL, EventsOf(d)).None?
  {
    var m := Member(Ascii("a"), Tower(n));
    var f := INITIAL.found;
    KeyA();
    NestingOfTower(n);
    EventsOfTower(n);
    EventsOfOne(m);
    hide Run, Tower, StageFor, EventsOf, Ascii, Repeat;
    var starts, ends := Repeat(StartArrayEvent, n), Repeat(EndArrayEvent, n);
    var tail := starts + (ends + [EndObjectEvent]);
    Assoc([StartObjectEvent], [KeyEvent(m.key)], starts + ends, [EndObjectEvent]);
    assert starts + ends + [EndObjectEvent] == tail;
    RunFirst(INITIAL, StartObjectEvent, [KeyEvent(m.key)] + tail);
    RunFirst(AtKey(f), KeyEvent(m.key), tail);
    TowerIsRefused(f, n, [EndObjectEvent]);
  }

  lemma {:induction false} NestingOfTower(n: nat)
    requires n >= 1
    ensures Nesting(Tower(n)) == n
  {
    if n > 1 {
      NestingOfTower(n - 1);
      assert NestingOfItems([Tower(n - 1)]) == Max(Nesting(Tower(n - 1)), NestingOfItems([]));
    }
  }

  lemma EventsOfOne(m: Member)
    ensures EventsOf(Record([m])) == [StartObjectEvent] + [KeyEvent(m.key)] + EventsOf(m.value) + [EndObjectEvent]
    ensures NestingOfMembers([m]) == Nesting(m.value)
  {
    assert EventsOfMembers([m]) == [KeyEvent(m.key)] + EventsOf(m.value) + EventsOfMembers([]);
    assert NestingOfMembers([m]) == Max(Nesting(m.value), NestingOfMembers([]));
  }

  lemma KeyA()
    ensures StageFor(Ascii("a")) == ExpectDontCare
  {
    CStringLength(Ascii("a"));
  }

  lemma {:induction false} CStringLength(s: seq<byte>)
    ensures |CString(s)| <= |s|
  {
    if s != [] {
      CStringLength(s[1..]);
    }
  }

  // ---------------------------------------------------------------- exactly which documents of arrays

  /** No object in it. */
  predicate ArraysOnly(d: Doc)
    decreases d, 0
  {
    match d
    case List(items) => AllArraysOnly(items)
    case Record(_) => false
    case _ => true
  }

  predicate AllArraysOnly(items: seq<Doc>)
    decreases items, 0
  {
    items == [] || (ArraysOnly(items[0]) && AllArraysOnly(items[1..]))
  }

  /** No object below the root. */
  predicate MembersArraysOnly(members: seq<Member>) {
    members == [] || (ArraysOnly(members[0].value) && MembersArraysOnly(members[1..]))
  }

  lemma ItemsSplit(items: seq<Doc>, after: seq<Event>)
    ensures items == [] ==> EventsOfItems(items) + after == after
    ensures items != [] ==> EventsOfItems(items) + after == EventsOf(items[0]) + (EventsOfItems(items[1..]) + after)
  {
    hide EventsOf;
  }

  lemma HeadSplit(first: seq<Event>, others: seq<Event>)
    requires first != []
    ensures first + others == [first[0]] + (first[1..] + others)
  {
  }

  /** Back in the stage for keys, an array that is not closed yet is refused at its next event. */
  lemma NextIsRefused(f: Found, items: seq<Doc>, rest: seq<Event>)
    requires AllArraysOnly(items)
    ensures Run(AtKey(f), EventsOfItems(items) + ([EndArrayEvent] + rest)).None?
  {
    hide Run, EventsOf, EventsOfItems, ArraysOnly;
    ItemsSplit(items, [EndArrayEvent] + rest);
    if items == [] {
      RunFirst(AtKey(f), EndArrayEvent, rest);
    } else {
      hide Step, AtKey;
      var first, others := EventsOf(items[0]), EventsOfItems(items[1..]) + ([EndArrayEvent] + rest);
      FirstIsRefused(f, items[0]);
      HeadSplit(first, others);
      RunFirst(AtKey(f), first[0], first[1..] + others);
    }
  }

  lemma FirstIsRefused(f: Found, d: Doc)
    requires ArraysOnly(d)
    ensures EventsOf(d) != [] && Step(AtKey(f), EventsOf(d)[0]).None?
  {
  }

  /** A list of arrays that goes deeper than the counter counts is refused, from any depth. */
  lemma {:induction false} ItemsTooDeep(f: Found, depth: nat, items: seq<Doc>, rest: seq<Event>)
    requires 1 <= depth <= TWO_32 && AllArraysOnly(items)
    requires depth + NestingOfItems(items) > TWO_32
    ensures Run(Nested(f, depth), EventsOfItems(items) + ([EndArrayEvent] + rest)).None?
    decreases items, 0
  {
    hide Run;
    var after := [EndArrayEvent] + rest;
    var others := EventsOfItems(items[1..]) + after;
    assert EventsOfItems(items) + after == EventsOf(items[0]) + others;
    if depth + Nesting(items[0]) <= TWO_32 {
      RunNested(f, depth, items[0], others);
      ItemsTooDeep(f, depth, items[1..], rest);
    } else {
      var sub := items[0].items;
      Assoc([StartArrayEvent], EventsOfItems(sub), [EndArrayEvent], others);
      RunFirst(Nested(f, depth), StartArrayEvent, EventsOfItems(sub) + ([EndArrayEvent] + others));
      if depth < TWO_32 {
        ItemsTooDeep(f, depth + 1, sub, others);
      } else {
        assert Open(Nested(f, depth)) == Some(Nested(f, 1));
        if 1 + NestingOfItems(sub) > TWO_32 {
          ItemsTooDeep(f, 1, sub, others);
        } else {
          RunNestedItems(f, 1, sub, [EndArrayEvent] + others);
          RunFirst(Nested(f, 1), EndArrayEvent, others);
          NextIsRefused(f, items[1..], rest);
        }
      }
    }
  }

  lemma ValueTooDeep(f: Found, stage: Stage, d: Doc, rest: seq<Event>)
    requires stage.ExpectDontCare? || IsWanted(stage)
    requires ArraysOnly(d) && Nesting(d) > TWO_32
    ensures Run(State(stage, 0, f), EventsOf(d) + rest).None?
  {
    hide Run;
    var items := d.items;
    Assoc([StartArrayEvent], EventsOfItems(items), [EndArrayEvent], rest);
    RunFirst(State(stage, 0, f), StartArrayEvent, EventsOfItems(items) + ([EndArrayEvent] + rest));
    if stage.ExpectDontCare? {
      ItemsTooDeep(f, 1, items, rest);
    }
  }

  lemma {:induction false} MembersTooDeep(f: Found, members: seq<Member>, rest: seq<Event>)
    requires MembersArraysOnly(members) && NestingOfMembers(members) > TWO_32
    ensures Run(AtKey(f), EventsOfMembers(members) + rest).None?
    decreases |members|
  {
    hide Run, StageFor, EventsOf;
    var m, others := members[0], members[1..];
    var stage, more := StageFor(m.key), EventsOfMembers(others) + rest;
    StageForIs(m.key);
    Assoc([KeyEvent(m.key)], EventsOf(m.value), EventsOfMembers(others), rest);
    RunFirst(AtKey(f), KeyEvent(m.key), EventsOf(m.value) + more);
    if Nesting(m.value) > TWO_32 {
      ValueTooDeep(f, stage, m.value, more);
    } else {
      RunValue(f, stage, m.value, more);
      MembersTooDeep(if m.value.Text? then Store(f, stage, m.value.text) else f, others, rest);
      MembersTooDeep(f, others, rest);
    }
  }

  /**
    A document without objects below its root is handled correctly if and only if it should be
    refused or is nested no deeper than the counter counts.
   */
  lemma ArraysAreHandledIff(d: Doc)
    requires d.Record? ==> MembersArraysOnly(d.members)
    ensures HandledCorrectly(d) <==> (Accepts(d) ==> NestingBelow(d) <= TWO_32)
  {
    hide Run;
    if NestingBelow(d) <= TWO_32 {
      HandlerIsCorrect(d);
    } else {
      Assoc([StartObjectEvent], EventsOfMembers(d.members), [EndObjectEvent], []);
      assert EventsOf(d) + [] == EventsOf(d);
      RunFirst(INITIAL, StartObjectEvent, EventsOfMembers(d.members) + ([EndObjectEvent] + []));
      MembersTooDeep(INITIAL.found, d.members, [EndObjectEvent] + []);
    }
  }

  /** As a bound on the nesting of all documents, 2^32 is the largest one that works. */
  lemma BoundIsExact(bound: nat)
    ensures (forall d: Doc :: NestingBelow(d) <= bound ==> HandledCorrectly(d)) <==> bound <= TWO_32
  {
    hide HandledCorrectly, NestingBelow;
    if bound <= TWO_32 {
      forall d: Doc | NestingBelow(d) <= bound ensures HandledCorrectly(d) {
        HandlerIsCorrect(d);
      }
    } else {
      var d := DeepTower(TWO_32 + 1);
      assert NestingBelow(d) <= bound && !HandledCorrectly(d);
    }
  }

  /** The document of the lemma above that is not handled correctly. */
  lemma DeepTower(n: nat) returns (d: Doc)
    requires n == TWO_32 + 1
    ensures NestingBelow(d) == n && !HandledCorrectly(d)
  {
    d := Record([Member(Ascii("a"), Tower(n))]);
    TooDeepIsRejected(n);
    hide Run, Tower, Accepts, EventsOf;
  }

  // ---------------------------------------------------------------- objects: what is stored wrongly

  /** k objects around a document, each with one member. */
  function Wrap(k: nat, d: Doc): Doc {
    if k == 0 then d else Record([Member(Ascii("x"), Wrap(k - 1, d))])
  }

  lemma {:induction false} NestingOfWrap(k: nat, d: Doc)
    ensures Nesting(Wrap(k, d)) == k + Nesting(d)
    decreases k
  {
    if k > 0 {
      NestingOfWrap(k - 1, d);
      EventsOfOne(Member(Ascii("x"), Wrap(k - 1, d)));
    }
  }

  lemma NestedSteps(f: Found, depth: nat, key: seq<byte>)
    ensures Step(Nested(f, depth), StartObjectEvent) == Some(Nested(f, depth + 1))
    ensures Step(Nested(f, depth), KeyEvent(key)) == Some(Nested(f, depth))
  {
  }

  lemma EndsAround(k: nat, rest: seq<Event>)
    requires k >= 1
    ensures Repeat(EndObjectEvent, 0) + rest == rest
    ensures Repeat(EndObjectEvent, k - 1) + ([EndObjectEvent] + rest) == Repeat(EndObjectEvent, k) + rest
  {
  }

  lemma EventsOfWrap(k: nat, d: Doc, rest: seq<Event>)
    requires k >= 1
    ensures EventsOf(Wrap(k, d)) + rest
         == [StartObjectEvent] + ([KeyEvent(Ascii("x"))] + (EventsOf(Wrap(k - 1, d)) + ([EndObjectEvent] + rest)))
  {
    EventsOfOne(Member(Ascii("x"), Wrap(k - 1, d)));
    hide EventsOf, Ascii;
  }

  /** In a nested container the wrapping only counts. */
  lemma {:induction false} RunWrapped(f: Found, depth: nat, k: nat, d: Doc, rest: seq<Event>)
    ensures Run(Nested(f, depth), EventsOf(Wrap(k, d)) + rest)
         == Run(Nested(f, depth + k), EventsOf(d) + (Repeat(EndObjectEvent, k) + rest))
    decreases k
  {
    if k == 0 {
      EndsAround(1, rest);
      assert Wrap(0, d) == d;
    } else {
      hide *;
      var key, after := Ascii("x"), [EndObjectEvent] + rest;
      var inner := EventsOf(Wrap(k - 1, d)) + after;
      EventsOfWrap(k, d, rest);
      NestedSteps(f, depth, key);
      RunFirst(Nested(f, depth), StartObjectEvent, [KeyEvent(key)] + inner);
      NestedSteps(f, depth + 1, key);
      RunFirst(Nested(f, depth + 1), KeyEvent(key), inner);
      RunWrapped(f, depth + 1, k - 1, d, after);
      EndsAround(k, rest);
    }
  }

  lemma {:induction false} RunEndObjects(f: Found, k: nat)
    ensures Run(AtKey(f), Repeat(EndObjectEvent, k)) == Some(AtKey(f))
    decreases k
  {
    hide Run;
    if k == 0 {
      RunNothing(AtKey(f));
    } else {
      assert Repeat(EndObjectEvent, k) == [EndObjectEvent] + Repeat(EndObjectEvent, k - 1);
      RunFirst(AtKey(f), EndObjectEvent, Repeat(EndObjectEvent, k - 1));
      RunEndObjects(f, k - 1);
    }
  }

  /** An empty object, and a member named as one of those asked for. */
  function Bait(text: seq<byte>): Doc {
    Record([Member(Ascii("x"), Record([])), Member(Ascii("type"), Text(text))])
  }

  lemma EventsOfBait(text: seq<byte>)
    ensures EventsOf(Bait(text)) == [StartObjectEvent, KeyEvent(Ascii("x")), StartObjectEvent, EndObjectEvent,
                                     KeyEvent(Ascii("type")), StringEvent(text), EndObjectEvent]
    ensures Nesting(Bait(text)) == 2
  {
    hide Ascii;
    var inner, last := Member(Ascii("x"), Record([])), Member(Ascii("type"), Text(text));
    assert EventsOfMembers([last]) == [KeyEvent(last.key)] + EventsOf(last.value) + EventsOfMembers([]);
    assert [inner, last][1..] == [last];
    assert EventsOf(inner.value) == [StartObjectEvent] + EventsOfMembers([]) + [EndObjectEvent];
    assert NestingOfMembers([last]) == Max(Nesting(last.value), NestingOfMembers([]));
    assert NestingOfMembers([inner, last]) == Max(Nesting(inner.value), NestingOfMembers([last]));
  }

  lemma BaitKeys()
    ensures StageFor(Ascii("x")) == ExpectDontCare && StageFor(Ascii("type")) == ExpectType
  {
    CStringLength(Ascii("x"));
    CStringOfType();
  }

  lemma CStringOfType()
    ensures CString(Ascii("type")) == Ascii("type")
    ensures Ascii("type") != Ascii("challenge") && Ascii("type") != Ascii("origin")
  {
    var t := Ascii("type");
    assert t == [116, 121, 112, 101];
    assert CString([101]) == [101] by { assert [101][1..] == []; }
    assert CString([112, 101]) == [112, 101] by { assert [112, 101][1..] == [101]; }
    assert CString([121, 112, 101]) == [121, 112, 101] by { assert [121, 112, 101][1..] == [112, 101]; }
    assert [116, 121, 112, 101][1..] == [121, 112, 101];
  }

  /**
    With the counter about to overrun, the empty object ends the nesting and the next member is taken for a
    top-level one.
   */
  lemma RunBait(f: Found, text: seq<byte>, rest: seq<Event>)
    ensures Run(Nested(f, TWO_32 - 1), EventsOf(Bait(text)) + rest) == Run(AtKey(f.(typ := text)), rest)
  {
    EventsOfBait(text);
    BaitKeys();
    hide Run, StageFor, Ascii, EventsOf;
    var x, t := KeyEvent(Ascii("x")), KeyEvent(Ascii("type"));
    var r1 := [EndObjectEvent] + rest;
    var r2 := [StringEvent(text)] + r1;
    var r3 := [t] + r2;
    var r4 := [EndObjectEvent] + r3;
    var r5 := [StartObjectEvent] + r4;
    var r6 := [x] + r5;
    assert EventsOf(Bait(text)) + rest == [StartObjectEvent] + r6;
    RunFirst(Nested(f, TWO_32 - 1), StartObjectEvent, r6);
    RunFirst(Nested(f, TWO_32), x, r5);
    RunFirst(Nested(f, TWO_32), StartObjectEvent, r4);
    RunFirst(Nested(f, 1), EndObjectEvent, r3);
    RunFirst(AtKey(f), t, r2);
    RunFirst(State(ExpectType, 0, f), StringEvent(text), r1);
    RunFirst(AtKey(f.(typ := text)), EndObjectEvent, rest);
  }

  lemma RunBelowRoot(f: Found, n: nat, d: Doc, rest: seq<Event>)
    requires n >= 1
    ensures Run(State(ExpectDontCare, 0, f), EventsOf(Wrap(n, d)) + rest)
         == Run(Nested(f, n), EventsOf(d) + (Repeat(EndObjectEvent, n) + rest))
  {
    hide Run, EventsOf, Ascii, Wrap;
    var key, after := Ascii("x"), [EndObjectEvent] + rest;
    var inner := EventsOf(Wrap(n - 1, d)) + after;
    EventsOfWrap(n, d, rest);
    RunFirst(State(ExpectDontCare, 0, f), StartObjectEvent, [KeyEvent(key)] + inner);
    RunFirst(Nested(f, 1), KeyEvent(key), inner);
    RunWrapped(f, 1, n - 1, d, after);
    EndsAround(n, rest);
  }

  /**
    Among documents with objects the counter does worse than refuse: this one is accepted, but the
    type that is stored stands 2^32 levels below the root, which has no such member.
   */
  lemma NestedKeyIsStored(n: nat, text: seq<byte>)
    requires n == TWO_32 - 1
    ensures var d := Record([Member(Ascii("x"), Wrap(n, Bait(text)))]);
      NestingBelow(d) == TWO_32 + 1
      && Expected(d) == Some(AtKey(Found([], [], [])))
      && Run(INITIAL, EventsOf(d)) == Some(AtKey(Found([], [], text)))
  {
    var m := Member(Ascii("x"), Wrap(n, Bait(text)));
    var f := INITIAL.found;
    BaitKeys();
    EventsOfBait(text);
    NestingOfWrap(n, Bait(text));
    EventsOfOne(m);
    NothingAskedFor(m, f);
    hide Run, StageFor, Ascii, EventsOf, Wrap, Collect, Accepts;
    var value := EventsOf(m.value);
    assert EventsOf(Record([m])) == [StartObjectEvent] + ([KeyEvent(m.key)] + (value + [EndObjectEvent]));
    RunFirst(INITIAL, StartObjectEvent, [KeyEvent(m.key)] + (value + [EndObjectEvent]));
    RunFirst(AtKey(f), KeyEvent(m.key), value + [EndObjectEvent]);
    RunBelowRoot(f, n, Bait(text), [EndObjectEvent]);
    RunBait(f, text, Repeat(EndObjectEvent, n) + [EndObjectEvent]);
    assert Repeat(EndObjectEvent, n) + [EndObjectEvent] == Repeat(EndObjectEvent, n + 1);
    RunEndObjects(f.(typ := text), n + 1);
  }

  lemma NothingAskedFor(m: Member, f: Found)
    requires StageFor(m.key) == ExpectDontCare && m.value.Record?
    ensures Accepts(Record([m])) && Collect([m], f) == f
  {
    hide StageFor;
    assert Collect([], f) == f;
  }

  // ---------------------------------------------------------------- exactly when the counter counts

  /** With 2^32 arrays open in each other the counter is at zero in the nested stage. */
  lemma CounterOverruns(n: nat)
    requires n == TWO_32
    ensures var members := [Member(Ascii("a"), Tower(n))];
      NestingOfMembers(members) == n && !CountsThroughout(members)
  {
    var m := Member(Ascii("a"), Tower(n));
    var f := INITIAL.found;
    KeyA();
    NestingOfTower(n);
    EventsOfTower(n);
    EventsOfOne(m);
    var events := EventsOfMembers([m]);
    assert events == [KeyEvent(m.key)] + EventsOf(m.value) + EventsOfMembers([]);
    hide Run, Tower, StageFor, EventsOf, EventsOfMembers, Ascii, Repeat, Balance, NestingOfMembers;
    var starts := Repeat(StartArrayEvent, n);
    var seen := [KeyEvent(m.key)] + starts;
    assert events[..n + 1] == seen;
    RunFirst(INITIAL, StartObjectEvent, seen);
    RunFirst(AtKey(f), KeyEvent(m.key), starts);
    RunStarts(f, n);
    assert Run(INITIAL, [StartObjectEvent] + seen) == Some(Nested(f, n));
    assert !Counts(Nested(f, n), 1 + Balance(seen));
    assert !CountsAfter([m], n + 1);
  }

  lemma RunStarts(f: Found, n: nat)
    requires n >= 1
    ensures Run(State(ExpectDontCare, 0, f), Repeat(StartArrayEvent, n)) == Some(Nested(f, n))
  {
    hide Run;
    var others := Repeat(StartArrayEvent, n - 1);
    assert Repeat(StartArrayEvent, n) == [StartArrayEvent] + others;
    RunFirst(State(ExpectDontCare, 0, f), StartArrayEvent, others);
    RunOpening(f, 1, n - 1, []);
    assert others + [] == others;
    RunNothing(Nested(f, n));
  }

  /** The counter counts on all documents nested no deeper than a bound if and only if the bound is below 2^32. */
  lemma CountingBoundIsExact(bound: nat)
    ensures (forall members: seq<Member> :: NestingOfMembers(members) <= bound ==> CountsThroughout(members))
            <==> bound < TWO_32
  {
    hide CountsAfter, NestingOfMembers;
    if bound < TWO_32 {
      forall members: seq<Member> | NestingOfMembers(members) <= bound ensures CountsThroughout(members) {
        forall k: nat | k <= |EventsOfMembers(members)| ensures CountsAfter(members, k) {
          CounterCountsNesting(members, k);
        }
      }
    } else {
      CounterOverruns(TWO_32);
      hide CountsThroughout;
    }
  }
}
