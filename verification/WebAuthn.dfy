/** The event handler that picks three strings out of a client-data document while it is parsed. */
module WebAuthn {
  import opened Bytes
  import opened Arith
  import opened Options

  // ---------------------------------------------------------------- documents and their events

  /** A JSON document; nulls, booleans and numbers are all alike to the handler. */
  datatype Doc = Scalar | Text(text: seq<byte>) | List(items: seq<Doc>) | Record(members: seq<Member>)
  datatype Member = Member(key: seq<byte>, value: Doc)

  datatype Event =
    | ScalarEvent
    | StringEvent(text: seq<byte>)
    | StartObjectEvent
    | KeyEvent(key: seq<byte>)
    | EndObjectEvent
    | StartArrayEvent
    | EndArrayEvent

  /** What the parser reports for a document, in order. */
  function EventsOf(d: Doc): seq<Event>
    decreases d, 0
  {
    match d
    case Scalar => [ScalarEvent]
    case Text(text) => [StringEvent(text)]
    case List(items) => [StartArrayEvent] + EventsOfItems(items) + [EndArrayEvent]
    case Record(members) => [StartObjectEvent] + EventsOfMembers(members) + [EndObjectEvent]
  }

  function EventsOfItems(items: seq<Doc>): seq<Event>
    decreases items, 0
  {
    if items == [] then [] else EventsOf(items[0]) + EventsOfItems(items[1..])
  }

  function EventsOfMembers(members: seq<Member>): seq<Event>
    decreases members, 0
  {
    if members == [] then []
    else [KeyEvent(members[0].key)] + EventsOf(members[0].value) + EventsOfMembers(members[1..])
  }

  /** How many containers are nested in each other. */
  function Nesting(d: Doc): nat
    decreases d, 0
  {
    match d
    case List(items) => 1 + NestingOfItems(items)
    case Record(members) => 1 + NestingOfMembers(members)
    case _ => 0
  }

  function NestingOfItems(items: seq<Doc>): nat
    decreases items, 0
  {
    if items == [] then 0 else Max(Nesting(items[0]), NestingOfItems(items[1..]))
  }

  function NestingOfMembers(members: seq<Member>): nat
    decreases members, 0
  {
    if members == [] then 0 else Max(Nesting(members[0].value), NestingOfMembers(members[1..]))
  }

  // ---------------------------------------------------------------- the state machine

  datatype Stage =
    | ExpectObjectStart
    | ExpectKey
    | ExpectDontCare
    | ExpectChallenge
    | ExpectOrigin
    | ExpectType
    | InNested

  datatype Found = Found(challenge: seq<byte>, origin: seq<byte>, typ: seq<byte>)

  /** The handler's fields; the depth is an unsigned 32-bit counter. */
  datatype State = State(stage: Stage, depth: nat, found: Found)

  const TWO_32: nat := 0x1_0000_0000
  const INITIAL: State := State(ExpectObjectStart, 0, Found([], [], []))

  function Increment(depth: nat): nat {
    (depth + 1) % TWO_32
  }

  function Decrement(depth: nat): nat {
    (depth - 1) % TWO_32
  }

  /** A key is compared as a C string, up to its first NUL. */
  function StageFor(key: seq<byte>): Stage {
    var k := CString(key);
    if k == Ascii("challenge") then ExpectChallenge
    else if k == Ascii("origin") then ExpectOrigin
    else if k == Ascii("type") then ExpectType
    else ExpectDontCare
  }

  function Store(f: Found, stage: Stage, text: seq<byte>): Found {
    match stage
    case ExpectChallenge => f.(challenge := text)
    case ExpectOrigin => f.(origin := text)
    case ExpectType => f.(typ := text)
    case _ => f
  }

  predicate IsWanted(stage: Stage) {
    stage.ExpectChallenge? || stage.ExpectOrigin? || stage.ExpectType?
  }

  /** The state after an event; none when the handler stops the parser. */
  function Step(s: State, e: Event): Option<State> {
    match e
    case ScalarEvent =>
      if s.stage.InNested? then Some(s)
      else if s.stage.ExpectDontCare? then Some(s.(stage := ExpectKey))
      else None
    case StringEvent(text) =>
      if s.stage.InNested? then Some(s)
      else if s.stage.ExpectDontCare? || IsWanted(s.stage) then
        Some(s.(stage := ExpectKey, found := Store(s.found, s.stage, text)))
      else None
    case StartObjectEvent =>
      if s.stage.ExpectObjectStart? then Some(s.(stage := ExpectKey)) else Open(s)
    case StartArrayEvent => Open(s)
    case KeyEvent(key) =>
      if s.stage.InNested? then Some(s)
      else if s.stage.ExpectKey? then Some(s.(stage := StageFor(key)))
      else None
    case EndObjectEvent => if s.stage.ExpectKey? then Some(s) else Close(s)
    case EndArrayEvent => Close(s)
  }

  function Open(s: State): Option<State> {
    if s.stage.InNested? || s.stage.ExpectDontCare? then Some(s.(stage := InNested, depth := Increment(s.depth)))
    else None
  }

  function Close(s: State): Option<State> {
    if s.stage.InNested? then
      var depth := Decrement(s.depth);
      Some(s.(stage := if depth == 0 then ExpectKey else InNested, depth := depth))
    else None
  }

  function Run(s: State, events: seq<Event>): Option<State>
    decreases |events|
  {
    if events == [] then Some(s)
    else
      var next := Step(s, events[0]);
      if next.None? then None else Run(next.value, events[1..])
  }

  // ---------------------------------------------------------------- what it is for

  /** Every member that is asked for is a string. */
  predicate WantedAreTexts(members: seq<Member>) {
    forall i :: 0 <= i < |members| ==> IsWanted(StageFor(members[i].key)) ==> members[i].value.Text?
  }

  predicate Accepts(d: Doc) {
    d.Record? && WantedAreTexts(d.members)
  }

  /** The strings found in a list of members: of equal keys the last one counts. */
  function Collect(members: seq<Member>, f: Found): Found {
    if members == [] then f
    else
      var m := members[0];
      Collect(members[1..], if m.value.Text? then Store(f, StageFor(m.key), m.value.text) else f)
  }

  /** The position of the last string member with the given stage, or -1. */
  function LastOf(members: seq<Member>, stage: Stage): (i: int)
    ensures -1 <= i < |members|
    ensures i >= 0 ==> members[i].value.Text? && StageFor(members[i].key) == stage
    ensures forall j :: i < j < |members| ==> !(members[j].value.Text? && StageFor(members[j].key) == stage)
  {
    if members == [] then -1
    else
      var n := |members| - 1;
      if members[n].value.Text? && StageFor(members[n].key) == stage then n else LastOf(members[..n], stage)
  }

  /** The string of the last such member, or the one given. */
  function LastText(members: seq<Member>, stage: Stage, start: seq<byte>): seq<byte> {
    var i := LastOf(members, stage);
    if i >= 0 then members[i].value.text else start
  }

  lemma {:induction false} LastTextOfFirst(m: Member, rest: seq<Member>, stage: Stage, start: seq<byte>)
    ensures LastText([m] + rest, stage, start)
         == LastText(rest, stage, if m.value.Text? && StageFor(m.key) == stage then m.value.text else start)
    decreases |rest|
  {
    hide StageFor;
    var all := [m] + rest;
    if rest == [] {
      assert all[..0] == [];
    } else {
      var n := |rest| - 1;
      LastTextOfFirst(m, rest[..n], stage, start);
      assert all[..n + 1] == [m] + rest[..n] && all[n + 1] == rest[n];
    }
  }

  /** Collecting from the front keeps, for each of the three keys, its last string. */
  lemma {:induction false} CollectKeepsLast(members: seq<Member>, f: Found)
    ensures Collect(members, f) ==
      Found(LastText(members, ExpectChallenge, f.challenge),
            LastText(members, ExpectOrigin, f.origin),
            LastText(members, ExpectType, f.typ))
  {
    hide StageFor, LastText;
    if members == [] {
      NoText(ExpectChallenge, f.challenge);
      NoText(ExpectOrigin, f.origin);
      NoText(ExpectType, f.typ);
    } else {
      var m, rest := members[0], members[1..];
      assert members == [m] + rest;
      CollectKeepsLast(rest, if m.value.Text? then Store(f, StageFor(m.key), m.value.text) else f);
      LastTextOfFirst(m, rest, ExpectChallenge, f.challenge);
      LastTextOfFirst(m, rest, ExpectOrigin, f.origin);
      LastTextOfFirst(m, rest, ExpectType, f.typ);
    }
  }

  lemma NoText(stage: Stage, start: seq<byte>)
    ensures LastText([], stage, start) == start
  {
  }

  // ---------------------------------------------------------------- running through a document

  lemma RunFirst(s: State, e: Event, rest: seq<Event>)
    ensures Run(s, [e] + rest) == if Step(s, e).None? then None else Run(Step(s, e).value, rest)
  {
    assert ([e] + rest)[1..] == rest;
  }

  /** In a nested container; the counter is the true depth in 32 bits. */
  function Nested(found: Found, depth: nat): State {
    State(InNested, depth % TWO_32, found)
  }

  /** Opening and closing one more container around the current one. */
  lemma OneDeeper(f: Found, depth: nat)
    requires 1 <= depth && depth + 1 <= TWO_32
    ensures Open(Nested(f, depth)) == Some(Nested(f, depth + 1))
    ensures Close(Nested(f, depth + 1)) == Some(Nested(f, depth))
  {
  }

  lemma Assoc(a: seq<Event>, b: seq<Event>, c: seq<Event>, rest: seq<Event>)
    ensures a + b + c + rest == a + (b + (c + rest))
  {
  }

  /** Inside a nested container a whole document changes nothing. */
  lemma {:induction false} RunNested(f: Found, depth: nat, d: Doc, rest: seq<Event>)
    requires 1 <= depth && depth + Nesting(d) <= TWO_32
    ensures Run(Nested(f, depth), EventsOf(d) + rest) == Run(Nested(f, depth), rest)
    decreases d, 0
  {
    hide Run;
    var s := Nested(f, depth);
    match d
    case Scalar => RunFirst(s, ScalarEvent, rest);
    case Text(text) => RunFirst(s, StringEvent(text), rest);
    case List(items) =>
      OneDeeper(f, depth);
      Assoc([StartArrayEvent], EventsOfItems(items), [EndArrayEvent], rest);
      RunFirst(s, StartArrayEvent, EventsOfItems(items) + ([EndArrayEvent] + rest));
      RunNestedItems(f, depth + 1, items, [EndArrayEvent] + rest);
      RunFirst(Nested(f, depth + 1), EndArrayEvent, rest);
    case Record(members) =>
      OneDeeper(f, depth);
      Assoc([StartObjectEvent], EventsOfMembers(members), [EndObjectEvent], rest);
      RunFirst(s, StartObjectEvent, EventsOfMembers(members) + ([EndObjectEvent] + rest));
      RunNestedMembers(f, depth + 1, members, [EndObjectEvent] + rest);
      RunFirst(Nested(f, depth + 1), EndObjectEvent, rest);
  }

  lemma {:induction false} RunNestedItems(f: Found, depth: nat, items: seq<Doc>, rest: seq<Event>)
    requires 1 <= depth && depth + NestingOfItems(items) <= TWO_32
    ensures Run(Nested(f, depth), EventsOfItems(items) + rest) == Run(Nested(f, depth), rest)
    decreases items, 0
  {
    hide Run, Nested;
    if items == [] {
      assert [] + rest == rest;
    } else {
      assert EventsOfItems(items) + rest == EventsOf(items[0]) + (EventsOfItems(items[1..]) + rest);
      RunNested(f, depth, items[0], EventsOfItems(items[1..]) + rest);
      RunNestedItems(f, depth, items[1..], rest);
    }
  }

  lemma {:induction false} RunNestedMembers(f: Found, depth: nat, members: seq<Member>, rest: seq<Event>)
    requires 1 <= depth && depth + NestingOfMembers(members) <= TWO_32
    ensures Run(Nested(f, depth), EventsOfMembers(members) + rest) == Run(Nested(f, depth), rest)
    decreases members, 0
  {
    hide Run;
    if members == [] {
      assert [] + rest == rest;
    } else {
      var m := members[0];
      Assoc([KeyEvent(m.key)], EventsOf(m.value), EventsOfMembers(members[1..]), rest);
      RunFirst(Nested(f, depth), KeyEvent(m.key), EventsOf(m.value) + (EventsOfMembers(members[1..]) + rest));
      RunNested(f, depth, m.value, EventsOfMembers(members[1..]) + rest);
      RunNestedMembers(f, depth, members[1..], rest);
    }
  }

  function AtKey(f: Found): State {
    State(ExpectKey, 0, f)
  }

  /** A container as the value of a member that nobody asked for. */
  lemma RunContainer(f: Found, d: Doc, rest: seq<Event>)
    requires (d.List? || d.Record?) && Nesting(d) <= TWO_32
    ensures Run(State(ExpectDontCare, 0, f), EventsOf(d) + rest) == Run(AtKey(f), rest)
  {
    hide Run;
    var s := State(ExpectDontCare, 0, f);
    match d
    case List(items) =>
      Assoc([StartArrayEvent], EventsOfItems(items), [EndArrayEvent], rest);
      RunFirst(s, StartArrayEvent, EventsOfItems(items) + ([EndArrayEvent] + rest));
      RunNestedItems(f, 1, items, [EndArrayEvent] + rest);
      RunFirst(Nested(f, 1), EndArrayEvent, rest);
    case Record(members) =>
      Assoc([StartObjectEvent], EventsOfMembers(members), [EndObjectEvent], rest);
      RunFirst(s, StartObjectEvent, EventsOfMembers(members) + ([EndObjectEvent] + rest));
      RunNestedMembers(f, 1, members, [EndObjectEvent] + rest);
      RunFirst(Nested(f, 1), EndObjectEvent, rest);
    case _ =>
  }

  /** The value of a member, by what its key asks for. */
  lemma RunValue(f: Found, stage: Stage, d: Doc, rest: seq<Event>)
    requires stage.ExpectDontCare? || IsWanted(stage)
    requires Nesting(d) <= TWO_32
    ensures Run(State(stage, 0, f), EventsOf(d) + rest) ==
      if d.Text? then Run(AtKey(Store(f, stage, d.text)), rest)
      else if IsWanted(stage) then None
      else Run(AtKey(f), rest)
  {
    hide Run;
    var s := State(stage, 0, f);
    match d
    case Scalar => RunFirst(s, ScalarEvent, rest);
    case Text(text) => RunFirst(s, StringEvent(text), rest);
    case List(items) =>
      if stage.ExpectDontCare? {
        RunContainer(f, d, rest);
      } else {
        Assoc([StartArrayEvent], EventsOfItems(items), [EndArrayEvent], rest);
        RunFirst(s, StartArrayEvent, EventsOfItems(items) + ([EndArrayEvent] + rest));
      }
    case Record(members) =>
      if stage.ExpectDontCare? {
        RunContainer(f, d, rest);
      } else {
        Assoc([StartObjectEvent], EventsOfMembers(members), [EndObjectEvent], rest);
        RunFirst(s, StartObjectEvent, EventsOfMembers(members) + ([EndObjectEvent] + rest));
      }
  }

  lemma {:induction false} RunMembers(f: Found, members: seq<Member>, rest: seq<Event>)
    requires NestingOfMembers(members) <= TWO_32
    ensures Run(AtKey(f), EventsOfMembers(members) + rest) ==
      if WantedAreTexts(members) then Run(AtKey(Collect(members, f)), rest) else None
    decreases |members|
  {
    hide Run, StageFor, EventsOf;
    if members == [] {
      assert [] + rest == rest;
    } else {
      var m, others := members[0], members[1..];
      var stage := StageFor(m.key);
      StageForIs(m.key);
      Assoc([KeyEvent(m.key)], EventsOf(m.value), EventsOfMembers(others), rest);
      RunFirst(AtKey(f), KeyEvent(m.key), EventsOf(m.value) + (EventsOfMembers(others) + rest));
      RunValue(f, stage, m.value, EventsOfMembers(others) + rest);
      WantedStep(members);
      hide WantedAreTexts;
      StoreDontCare(f, stage);
      RunMembers(if m.value.Text? then Store(f, stage, m.value.text) else f, others, rest);
    }
  }

  lemma StageForIs(key: seq<byte>)
    ensures StageFor(key).ExpectDontCare? || IsWanted(StageFor(key))
  {
  }

  lemma StoreDontCare(f: Found, stage: Stage)
    ensures forall text :: !IsWanted(stage) ==> Store(f, stage, text) == f
  {
  }

  lemma WantedStep(members: seq<Member>)
    requires members != []
    ensures WantedAreTexts(members) <==>
      (IsWanted(StageFor(members[0].key)) ==> members[0].value.Text?) && WantedAreTexts(members[1..])
  {
    hide StageFor, IsWanted;
    assert forall i :: 0 < i < |members| ==> members[i] == members[1..][i - 1];
  }

  /** What the handler should end with. */
  function Expected(d: Doc): Option<State> {
    if Accepts(d) then Some(AtKey(Collect(d.members, INITIAL.found))) else None
  }

  ghost predicate HandledCorrectly(d: Doc) {
    Run(INITIAL, EventsOf(d)) == Expected(d)
  }

  /** How deep containers are nested below a root that is an object; other roots are refused at once. */
  function NestingBelow(d: Doc): nat {
    if d.Record? then NestingOfMembers(d.members) else 0
  }

  /**
    The handler accepts exactly the documents whose root is an object in which every member asked
    for is a string, and then holds the last string of each.
   */
  lemma HandlerIsCorrect(d: Doc)
    requires NestingBelow(d) <= TWO_32
    ensures HandledCorrectly(d)
  {
    hide Run;
    assert EventsOf(d) + [] == EventsOf(d);
    match d
    case Scalar => RunFirst(INITIAL, ScalarEvent, []);
    case Text(text) => RunFirst(INITIAL, StringEvent(text), []);
    case List(items) =>
      Assoc([StartArrayEvent], EventsOfItems(items), [EndArrayEvent], []);
      RunFirst(INITIAL, StartArrayEvent, EventsOfItems(items) + ([EndArrayEvent] + []));
    case Record(members) =>
      Assoc([StartObjectEvent], EventsOfMembers(members), [EndObjectEvent], []);
      RunFirst(INITIAL, StartObjectEvent, EventsOfMembers(members) + ([EndObjectEvent] + []));
      RunMembers(INITIAL.found, members, [EndObjectEvent] + []);
      hide Collect;
      var s := AtKey(Collect(members, INITIAL.found));
      RunFirst(s, EndObjectEvent, []);
      RunNothing(s);
  }

  lemma RunNothing(s: State)
    ensures Run(s, []) == Some(s)
  {
  }

  // ---------------------------------------------------------------- the handler

  class Handler {
    var stage: Stage
    var depth: nat
    var challenge: seq<byte>
    var origin: seq<byte>
    var typ: seq<byte>

    ghost function View(): State
      reads this
    {
      State(stage, depth, Found(challenge, origin, typ))
    }

    constructor ()
      ensures View() == INITIAL
    {
      stage, depth, challenge, origin, typ := ExpectObjectStart, 0, [], [], [];
    }

    /** Null, Bool and every kind of number. */
    method BasicStuff() returns (ok: bool)
      modifies this
      ensures if ok then Step(old(View()), ScalarEvent) == Some(View())
              else Step(old(View()), ScalarEvent).None? && View() == old(View())
    {
      if stage.InNested? {
        return true;
      }
      if stage.ExpectDontCare? {
        stage := ExpectKey;
        return true;
      }
      return false;
    }

    method String(str: seq<byte>) returns (ok: bool)
      modifies this
      ensures if ok then Step(old(View()), StringEvent(str)) == Some(View())
              else Step(old(View()), StringEvent(str)).None? && View() == old(View())
    {
      match stage {
        case ExpectObjectStart => return false;
        case ExpectKey => return false;
        case ExpectChallenge =>
          challenge := str;
          stage := ExpectKey;
        case ExpectOrigin =>
          origin := str;
          stage := ExpectKey;
        case ExpectType =>
          typ := str;
          stage := ExpectKey;
        case ExpectDontCare => stage := ExpectKey;
        case InNested =>
      }
      return true;
    }

    method StartObject() returns (ok: bool)
      modifies this
      ensures if ok then Step(old(View()), StartObjectEvent) == Some(View())
              else Step(old(View()), StartObjectEvent).None? && View() == old(View())
    {
      match stage {
        case ExpectObjectStart => stage := ExpectKey;
        case ExpectDontCare =>
          stage := InNested;
          depth := Increment(depth);
        case InNested => depth := Increment(depth);
        case _ => return false;
      }
      return true;
    }

    method Key(str: seq<byte>) returns (ok: bool)
      modifies this
      ensures if ok then Step(old(View()), KeyEvent(str)) == Some(View())
              else Step(old(View()), KeyEvent(str)).None? && View() == old(View())
    {
      match stage {
        case ExpectKey =>
          var k := CString(str);
          if k == Ascii("challenge") {
            stage := ExpectChallenge;
          } else if k == Ascii("origin") {
            stage := ExpectOrigin;
          } else if k == Ascii("type") {
            stage := ExpectType;
          } else {
            stage := ExpectDontCare;
          }
        case InNested =>
        case _ => return false;
      }
      return true;
    }

    method EndObject() returns (ok: bool)
      modifies this
      ensures if ok then Step(old(View()), EndObjectEvent) == Some(View())
              else Step(old(View()), EndObjectEvent).None? && View() == old(View())
    {
      match stage {
        case InNested =>
          depth := Decrement(depth);
          if depth == 0 {
            stage := ExpectKey;
          }
        case ExpectKey =>
        case _ => return false;
      }
      return true;
    }

    method StartArray() returns (ok: bool)
      modifies this
      ensures if ok then Step(old(View()), StartArrayEvent) == Some(View())
              else Step(old(View()), StartArrayEvent).None? && View() == old(View())
    {
      match stage {
        case ExpectDontCare =>
          stage := InNested;
          depth := Increment(depth);
        case InNested => depth := Increment(depth);
        case _ => return false;
      }
      return true;
    }

    method EndArray() returns (ok: bool)
      modifies this
      ensures if ok then Step(old(View()), EndArrayEvent) == Some(View())
              else Step(old(View()), EndArrayEvent).None? && View() == old(View())
    {
      match stage {
        case InNested =>
          depth := Decrement(depth);
          if depth == 0 {
            stage := ExpectKey;
          }
        case _ => return false;
      }
      return true;
    }

    method Handle(e: Event) returns (ok: bool)
      modifies this
      ensures if ok then Step(old(View()), e) == Some(View()) else Step(old(View()), e).None?
    {
      match e {
        case ScalarEvent => ok := BasicStuff();
        case StringEvent(text) => ok := String(text);
        case StartObjectEvent => ok := StartObject();
        case KeyEvent(key) => ok := Key(key);
        case EndObjectEvent => ok := EndObject();
        case StartArrayEvent => ok := StartArray();
        case EndArrayEvent => ok := EndArray();
      }
    }

    /** The parser reports the events of a document until the handler refuses one. */
    method Parse(d: Doc) returns (ok: bool)
      requires View() == INITIAL
      modifies this
      ensures ok <==> Run(INITIAL, EventsOf(d)).Some?
      ensures ok ==> Run(INITIAL, EventsOf(d)) == Some(View())
      ensures HandledCorrectly(d) ==> (ok <==> Accepts(d)) && (ok ==> HoldsLastTexts(d.members))
    {
      hide Step, Run, Accepts, LastText;
      if d.Record? {
        CollectKeepsLast(d.members, INITIAL.found);
      } else {
        NotAccepted(d);
      }
      hide Collect;
      var events := EventsOf(d);
      assert events[0..] == events;
      for i := 0 to |events|
        invariant Run(View(), events[i..]) == Run(INITIAL, events)
      {
        RunFirst(View(), events[i], events[i + 1..]);
        assert events[i..] == [events[i]] + events[i + 1..];
        var more := Handle(events[i]);
        if !more {
          return false;
        }
      }
      assert events[|events|..] == [];
      RunNothing(View());
      return true;
    }

    /** The fields hold the last string of each name, and the counter is back at zero. */
    ghost predicate HoldsLastTexts(members: seq<Member>)
      reads this
    {
      challenge == LastText(members, ExpectChallenge, [])
      && origin == LastText(members, ExpectOrigin, [])
      && typ == LastText(members, ExpectType, [])
      && depth == 0 && stage == ExpectKey
    }
  }

  lemma NotAccepted(d: Doc)
    requires !d.Record?
    ensures !Accepts(d)
  {
  }
}
