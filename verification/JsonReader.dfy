/**
  The legacy reader in the source's form: mutually recursive methods that consume a shared
  stream with peek and get, and build strings and containers in loops. A thrown exception is `None`.
 */
module JsonReader {
  import opened Bytes
  import opened Options
  import opened JsonStrings
  import opened JsonGrammar

  /** An input stream: the octets not yet read. */
  class InStream {
    var rest: seq<byte>

    constructor (text: seq<byte>)
      ensures rest == text
    {
      rest := text;
    }

    /** -1 at the end, as `EOF`. */
    function Peek(): (c: int)
      reads this
      ensures c == if rest == [] then -1 else rest[0] as int
    {
      if rest == [] then -1 else rest[0] as int
    }

    method Get() returns (b: byte)
      requires rest != []
      modifies this
      ensures b == old(rest)[0] && rest == old(rest)[1..]
    {
      b := rest[0];
      rest := rest[1..];
    }
  }

  /** How a method that may throw relates to the function that says what it reads. */
  ghost predicate Reads<T(!new)>(r: Option<T>, rest: seq<byte>, p: Parsed<T>) {
    match p
    case Fail => r.None?
    case Parsed(v, left) => r == Some(v) && rest == left
  }

  method SkipWhiteSpace(input: InStream) returns (r: Option<bool>)
    modifies input
    ensures r.Some? <==> SkipSpace(old(input.rest)).Some?
    ensures r.Some? ==> input.rest == SkipSpace(old(input.rest)).value
    ensures r.Some? ==> r.value == (|input.rest| < |old(input.rest)|)
  {
    var skipped := false;
    while input.rest != [] && IsSpace(input.rest[0])
      invariant SkipSpace(input.rest) == SkipSpace(old(input.rest))
      invariant skipped == (|input.rest| < |old(input.rest)|)
      invariant |input.rest| <= |old(input.rest)|
      decreases |input.rest|
    {
      skipped := true;
      var _ := input.Get();
    }
    if input.Peek() == NUL as int {
      return None;
    }
    return Some(skipped);
  }

  method ReadString(input: InStream) returns (r: Option<seq<byte>>)
    modifies input
    ensures Reads(r, input.rest, StringLiteral(old(input.rest)))
  {
    if input.Peek() != QUOTE as int {
      return None;
    }
    var c := input.Get();
    var token: seq<byte> := [];
    ghost var start := input.rest;
    PushNothing(StringBody(start));
    while input.rest != []
      invariant StringBody(start) == Push(token, StringBody(input.rest))
      decreases |input.rest|
    {
      ghost var before := input.rest;
      c := input.rest[0];
      if c == BACKSLASH {
        var _ := input.Get();
        if input.rest == [] {
          return None;
        }
        var e := input.Get();
        assert before[2..] == input.rest;
        PushTwice(token, [Unescaped(e)], StringBody(input.rest));
        token := token + [Unescaped(e)];
      } else if c == EOT {
        return None;
      } else if c == QUOTE {
        var _ := input.Get();
        assert token + [] == token;
        return Some(token);
      } else {
        var _ := input.Get();
        PushTwice(token, [c], StringBody(input.rest));
        token := token + [c];
      }
    }
    return None;
  }

  method ReadToken(input: InStream) returns (token: seq<byte>)
    modifies input
    ensures (token, input.rest) == TokenString(old(input.rest))
  {
    token := [];
    ghost var start := input.rest;
    FollowedNothing(TokenString(start));
    while input.rest != []
      invariant TokenString(start) == Followed(token, TokenString(input.rest))
      decreases |input.rest|
    {
      ghost var before := input.rest;
      var c := input.rest[0];
      if c == BACKSLASH {
        var _ := input.Get();
        var e := 255;
        if input.rest != [] {
          e := input.Get();
          assert before[2..] == input.rest;
          e := Unescaped(e);
        }
        assert [e] + [] == [e];
        FollowedTwice(token, e, TokenString(input.rest));
        token := token + [e];
      } else if c == TAB || c == SPACE || c == LF {
        var _ := input.Get();
        assert token + [] == token;
        return;
      } else if IsTokenByte(c) {
        var _ := input.Get();
        FollowedTwice(token, c, TokenString(input.rest));
        token := token + [c];
      } else {
        assert token + [] == token;
        return;
      }
    }
    assert token + [] == token;
  }

  ghost function Followed(token: seq<byte>, r: (seq<byte>, seq<byte>)): (seq<byte>, seq<byte>) {
    (token + r.0, r.1)
  }

  lemma FollowedNothing(r: (seq<byte>, seq<byte>))
    ensures Followed([], r) == r
  {
    assert [] + r.0 == r.0;
  }

  lemma FollowedTwice(token: seq<byte>, c: byte, r: (seq<byte>, seq<byte>))
    ensures Followed(token, Followed([c], r)) == Followed(token + [c], r)
  {
    assert token + ([c] + r.0) == token + [c] + r.0;
  }

  method ReadNumber(input: InStream, reals: Reals) returns (r: Option<Value>)
    requires input.rest != [] && (input.rest[0] == MINUS || input.rest[0] == DOT || IsDigit(input.rest[0]))
    modifies input
    ensures Reads(r, input.rest, NumberFrom(old(input.rest), reals))
  {
    var negative := input.Peek() == MINUS as int;
    if negative {
      var _ := input.Get();
    }
    var chars: seq<byte> := [];
    var dot := false;
    ghost var start := input.rest;
    PrecededNothing(NumberChars(start, false));
    while input.rest != [] && (input.rest[0] == DOT || IsDigit(input.rest[0]))
      invariant NumberChars(start, false) == Preceded(chars, NumberChars(input.rest, dot))
      invariant dot || Decimal.AllDigits(chars)
      decreases |input.rest|
    {
      if input.rest[0] == DOT {
        if dot {
          return None;
        }
        dot := true;
      }
      var c := input.Get();
      PrecededTwice(chars, c, NumberChars(input.rest, dot));
      chars := chars + [c];
    }
    assert chars + [] == chars;
    if input.rest != [] && IsAlnum(input.rest[0]) {
      var token := ReadToken(input);
      return Some(Str((if negative then [MINUS] else []) + chars + token));
    }
    return NumberValue(negative, chars, dot, reals);
  }

  ghost function Preceded(chars: seq<byte>, r: Option<(seq<byte>, seq<byte>, bool)>):
    Option<(seq<byte>, seq<byte>, bool)>
  {
    match r
    case None => None
    case Some(v) => Some((chars + v.0, v.1, v.2))
  }

  lemma PrecededNothing(r: Option<(seq<byte>, seq<byte>, bool)>)
    ensures Preceded([], r) == r
  {
    if r.Some? {
      assert [] + r.value.0 == r.value.0;
    }
  }

  lemma PrecededTwice(chars: seq<byte>, c: byte, r: Option<(seq<byte>, seq<byte>, bool)>)
    ensures Preceded(chars, Preceded([c], r)) == Preceded(chars + [c], r)
  {
    if r.Some? {
      assert chars + ([c] + r.value.0) == chars + [c] + r.value.0;
    }
  }

  method ReadWord(input: InStream) returns (r: Value)
    requires input.rest != [] && IsWordByte(input.rest[0])
    modifies input
    ensures WordFrom(old(input.rest)) == Parsed(r, input.rest)
  {
    var word: seq<byte> := [];
    ghost var start := input.rest;
    while input.rest != [] && IsWordByte(input.rest[0])
      invariant start == word + input.rest && WordLength(start) == |word| + WordLength(input.rest)
      decreases |input.rest|
    {
      var c := input.Get();
      word := word + [c];
    }
    assert word == start[..WordLength(start)] && input.rest == start[WordLength(start)..];
    if word == TEXT_NULL {
      return Null;
    } else if word == TEXT_TRUE {
      return Bool(true);
    } else if word == TEXT_FALSE {
      return Bool(false);
    }
    var token := ReadToken(input);
    return Str(word + token);
  }

  method ReadValue(input: InStream, depth: nat, reals: Reals) returns (r: Option<Value>)
    modifies input
    ensures Reads(r, input.rest, ValueFrom(old(input.rest), depth, reals))
    decreases |input.rest|, 1
  {
    if depth == 0 {
      return None;
    }
    var skipped := SkipWhiteSpace(input);
    if skipped.None? || input.rest == [] {
      return None;
    }
    var c := input.rest[0];
    if c == QUOTE {
      var s := ReadString(input);
      return if s.None? then None else Some(Str(s.value));
    } else if c == LBRACE {
      var entries := ReadObject(input, Down(depth), reals);
      return if entries.None? then None else Some(Obj(entries.value));
    } else if c == LBRACKET {
      var items := ReadArray(input, Down(depth), reals);
      return if items.None? then None else Some(Arr(items.value));
    } else if c == MINUS || c == DOT || IsDigit(c) {
      r := ReadNumber(input, reals);
    } else if c == TEXT_NULL[0] || c == TEXT_TRUE[0] || c == TEXT_FALSE[0] {
      var v := ReadWord(input);
      return Some(v);
    } else {
      return None;
    }
  }

  method ReadArray(input: InStream, depth: nat, reals: Reals) returns (r: Option<seq<Value>>)
    modifies input
    ensures Reads(r, input.rest, ArrayFrom(old(input.rest), depth, reals))
    decreases |input.rest|, 0
  {
    hide ValueFrom, SkipSpace;
    if input.Peek() != LBRACKET as int {
      return None;
    }
    var _ := input.Get();
    var skipped := SkipWhiteSpace(input);
    if skipped.None? {
      return None;
    }
    var items: seq<Value> := [];
    ghost var start := input.rest;
    PushNothing(ItemsFrom(start, depth, reals));
    while input.rest == [] || input.rest[0] != RBRACKET
      invariant |input.rest| < |old(input.rest)|
      invariant ItemsFrom(start, depth, reals) == Push(items, ItemsFrom(input.rest, depth, reals))
      decreases |input.rest|
    {
      if input.Peek() == COMMA as int {
        var _ := input.Get();
        continue;
      }
      skipped := SkipWhiteSpace(input);
      if skipped.None? {
        return None;
      }
      if skipped.value {
        continue;
      }
      var v := ReadValue(input, Down(depth), reals);
      if v.None? {
        return None;
      }
      skipped := SkipWhiteSpace(input);
      if skipped.None? {
        return None;
      }
      PushTwice(items, [v.value], ItemsFrom(input.rest, depth, reals));
      items := items + [v.value];
    }
    var _ := input.Get();
    assert items + [] == items;
    return Some(items);
  }

  method ReadObject(input: InStream, depth: nat, reals: Reals) returns (r: Option<seq<Entry>>)
    modifies input
    ensures Reads(r, input.rest, ObjectFrom(old(input.rest), depth, reals))
    decreases |input.rest|, 0
  {
    hide ValueFrom, SkipSpace, StringLiteral;
    if input.Peek() != LBRACE as int {
      return None;
    }
    var _ := input.Get();
    var entries: seq<Entry> := [];
    ghost var start := input.rest;
    while input.rest == [] || input.rest[0] != RBRACE
      invariant |input.rest| < |old(input.rest)|
      invariant MembersFrom(start, depth, [], reals) == MembersFrom(input.rest, depth, entries, reals)
      decreases |input.rest|
    {
      if input.Peek() == COMMA as int {
        var _ := input.Get();
        continue;
      }
      var skipped := SkipWhiteSpace(input);
      if skipped.None? {
        return None;
      }
      if skipped.value {
        continue;
      }
      var key := ReadString(input);
      if key.None? {
        return None;
      }
      skipped := SkipWhiteSpace(input);
      if skipped.None? || input.Peek() != COLON as int {
        return None;
      }
      var _ := input.Get();
      var v := ReadValue(input, Down(depth), reals);
      if v.None? {
        return None;
      }
      entries := entries + [Entry(key.value, v.value)];
    }
    var _ := input.Get();
    return Some(entries);
  }

  /** `json::from_string` with the legacy parsers: what follows the value is not looked at. */
  method FromString(text: seq<byte>, maxDepth: nat, reals: Reals) returns (r: Option<Value>)
    ensures match ValueFrom(text, maxDepth, reals)
      case Fail => r.None?
      case Parsed(v, _) => r == Some(v)
  {
    var input := new InStream(text);
    r := ReadValue(input, maxDepth, reals);
  }
}
