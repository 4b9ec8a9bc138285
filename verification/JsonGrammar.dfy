/**
  The legacy JSON reader as functions from the text ahead to a value and the text left.
  The imperative reader in `JsonReader` is proved to compute exactly these.
 */
module JsonGrammar {
  import opened Bytes
  import opened Options
  import opened Decimal
  import opened JsonStrings

  /** The variant; a number with a decimal point is kept as its literal. */
  datatype Value =
    | Null
    | Bool(b: bool)
    | Int64(i: int)
    | Uint64(u: nat)
    | Real(literal: seq<byte>)
    | Str(s: seq<byte>)
    | Arr(items: seq<Value>)
    | Obj(entries: seq<Entry>)

  datatype Entry = Entry(key: seq<byte>, value: Value)

  const TWO_32 := 0x1_0000_0000
  const TWO_63 := 0x8000_0000_0000_0000
  const TWO_64 := 0x1_0000_0000_0000_0000

  /** `max_depth - 1` in 32 unsigned bits. */
  function Down(depth: nat): nat {
    if depth == 0 then TWO_32 - 1 else depth - 1
  }

  // ---------------------------------------------------------------- tokens

  predicate IsSpace(b: byte) {
    b == SPACE || b == TAB || b == LF || b == CR
  }

  /** `skip_white_space`; None is the exception thrown at a NUL. */
  function SkipSpace(t: seq<byte>): (r: Option<seq<byte>>)
    ensures r.Some? ==> |r.value| <= |t| && (r.value == [] || (!IsSpace(r.value[0]) && r.value[0] != NUL))
    ensures r.Some? && |r.value| == |t| ==> r.value == t
  {
    if t == [] then Some(t)
    else if IsSpace(t[0]) then SkipSpace(t[1..])
    else if t[0] == NUL then None
    else Some(t)
  }

  predicate IsTokenByte(b: byte) {
    IsAlnum(b) || b == UNDERSCORE || b == MINUS || b == DOT || b == COLON || b == SLASH
  }

  /** `stringFromToken`, the unquoted string: it never throws. */
  function TokenString(t: seq<byte>): (r: (seq<byte>, seq<byte>))
    ensures |r.1| <= |t|
  {
    if t == [] then ([], [])
    else if t[0] == BACKSLASH then
      if |t| == 1 then ([255], [])
      else var r := TokenString(t[2..]); ([Unescaped(t[1])] + r.0, r.1)
    else if t[0] == TAB || t[0] == SPACE || t[0] == LF then ([], t[1..])
    else if IsTokenByte(t[0]) then var r := TokenString(t[1..]); ([t[0]] + r.0, r.1)
    else ([], t)
  }

  /** The digits and points a number is scanned from; None is the exception at a second point. */
  function NumberChars(t: seq<byte>, dot: bool): (r: Option<(seq<byte>, seq<byte>, bool)>)
    ensures r.Some? ==> |r.value.0| + |r.value.1| == |t|
    ensures r.Some? && !r.value.2 ==> !dot && AllDigits(r.value.0)
  {
    if t != [] && t[0] == DOT then
      if dot then None
      else
        match NumberChars(t[1..], true)
        case None => None
        case Some(r) => Some(([t[0]] + r.0, r.1, r.2))
    else if t != [] && IsDigit(t[0]) then
      match NumberChars(t[1..], dot)
      case None => None
      case Some(r) => Some(([t[0]] + r.0, r.1, r.2))
    else Some(([], t, dot))
  }

  /**
    What becomes of a number with a decimal point: a string with legacy_parser_with_string_doubles,
    otherwise a real, unless the conversion refuses the text and throws.
   */
  datatype Reals = AsText | AsNumber(converts: seq<byte> -> bool)

  function RealValue(text: seq<byte>, reals: Reals): Option<Value> {
    match reals
    case AsText => Some(Str(text))
    case AsNumber(converts) => if converts(text) then Some(Real(text)) else None
  }

  /** The value of a scanned number. */
  function NumberValue(negative: bool, chars: seq<byte>, dot: bool, reals: Reals): Option<Value>
    requires dot || AllDigits(chars)
  {
    var text := (if negative then [MINUS] else []) + chars;
    if (chars == [] && negative) || chars == [DOT] then None
    else if dot then RealValue(text, reals)
    else if negative then
      var n: int := NatOf(chars);
      if n <= TWO_63 then Some(Int64(-n)) else None
    else if NatOf(chars) < TWO_64 then Some(Uint64(NatOf(chars))) else None
  }

  /** `number_from_stream`, called on a digit, a point or a minus sign. */
  function NumberFrom(t: seq<byte>, reals: Reals): (r: Parsed<Value>)
    requires t != [] && (t[0] == MINUS || t[0] == DOT || IsDigit(t[0]))
    ensures r.Parsed? ==> |r.rest| < |t|
  {
    var negative := t[0] == MINUS;
    match NumberChars(if negative then t[1..] else t, false)
    case None => Fail
    case Some((chars, rest, dot)) =>
      if rest != [] && IsAlnum(rest[0]) then
        var token := TokenString(rest);
        Parsed(Str((if negative then [MINUS] else []) + chars + token.0), token.1)
      else
        match NumberValue(negative, chars, dot, reals)
        case None => Fail
        case Some(v) => Parsed(v, rest)
  }

  const TEXT_NULL: seq<byte> := [110, 117, 108, 108]
  const TEXT_TRUE: seq<byte> := [116, 114, 117, 101]
  const TEXT_FALSE: seq<byte> := [102, 97, 108, 115, 101]

  /** The letters of null, true and false. */
  predicate IsWordByte(b: byte) {
    b == 110 || b == 117 || b == 108 || b == 116 || b == 114 || b == 101 || b == 102 || b == 97 || b == 115
  }

  function WordLength(t: seq<byte>): (n: nat)
    ensures n <= |t|
  {
    if t != [] && IsWordByte(t[0]) then 1 + WordLength(t[1..]) else 0
  }

  /** `token_from_stream`: a word it does not know becomes an unquoted string. */
  function WordFrom(t: seq<byte>): (r: Parsed<Value>)
    requires t != [] && IsWordByte(t[0])
    ensures r.Parsed? && |r.rest| < |t|
  {
    var n := WordLength(t);
    var word, rest := t[..n], t[n..];
    if word == TEXT_NULL then Parsed(Null, rest)
    else if word == TEXT_TRUE then Parsed(Bool(true), rest)
    else if word == TEXT_FALSE then Parsed(Bool(false), rest)
    else var token := TokenString(rest); Parsed(Str(word + token.0), token.1)
  }

  // ---------------------------------------------------------------- values

  /** `variant_from_stream`. */
  function ValueFrom(t: seq<byte>, depth: nat, reals: Reals): (r: Parsed<Value>)
    ensures r.Parsed? ==> |r.rest| < |t|
    decreases |t|, 1
  {
    if depth == 0 then Fail
    else
      match SkipSpace(t)
      case None => Fail
      case Some(u) =>
        if u == [] then Fail
        else if u[0] == QUOTE then
          match StringLiteral(u)
          case Fail => Fail
          case Parsed(s, rest) => Parsed(Str(s), rest)
        else if u[0] == LBRACE then
          match ObjectFrom(u, Down(depth), reals)
          case Fail => Fail
          case Parsed(entries, rest) => Parsed(Obj(entries), rest)
        else if u[0] == LBRACKET then
          match ArrayFrom(u, Down(depth), reals)
          case Fail => Fail
          case Parsed(items, rest) => Parsed(Arr(items), rest)
        else if u[0] == MINUS || u[0] == DOT || IsDigit(u[0]) then NumberFrom(u, reals)
        else if u[0] == TEXT_NULL[0] || u[0] == TEXT_TRUE[0] || u[0] == TEXT_FALSE[0] then WordFrom(u)
        else Fail
  }

  function ArrayFrom(t: seq<byte>, depth: nat, reals: Reals): (r: Parsed<seq<Value>>)
    ensures r.Parsed? ==> |r.rest| < |t|
    decreases |t|, 0
  {
    if t == [] || t[0] != LBRACKET then Fail
    else
      match SkipSpace(t[1..])
      case None => Fail
      case Some(u) => ItemsFrom(u, depth, reals)
  }

  function ObjectFrom(t: seq<byte>, depth: nat, reals: Reals): (r: Parsed<seq<Entry>>)
    ensures r.Parsed? ==> |r.rest| < |t|
    decreases |t|, 0
  {
    if t == [] || t[0] != LBRACE then Fail else MembersFrom(t[1..], depth, [], reals)
  }

  /** The loop of `arrayFromStream`. */
  function ItemsFrom(t: seq<byte>, depth: nat, reals: Reals): (r: Parsed<seq<Value>>)
    ensures r.Parsed? ==> |r.rest| < |t|
    decreases |t|, 2
  {
    if t != [] && t[0] == RBRACKET then Parsed([], t[1..])
    else if t != [] && t[0] == COMMA then ItemsFrom(t[1..], depth, reals)
    else
      match SkipSpace(t)
      case None => Fail
      case Some(u) =>
        if |u| < |t| then ItemsFrom(u, depth, reals)
        else
          match ValueFrom(t, Down(depth), reals)
          case Fail => Fail
          case Parsed(v, rest) =>
            match SkipSpace(rest)
            case None => Fail
            case Some(w) => Push([v], ItemsFrom(w, depth, reals))
  }

  /** A key, its colon and its value. */
  function MemberFrom(t: seq<byte>, depth: nat, reals: Reals): (r: Parsed<Entry>)
    ensures r.Parsed? ==> |r.rest| < |t|
    decreases |t|, 2
  {
    match StringLiteral(t)
    case Fail => Fail
    case Parsed(key, afterKey) =>
      match SkipSpace(afterKey)
      case None => Fail
      case Some(u) =>
        if u == [] || u[0] != COLON then Fail
        else
          match ValueFrom(u[1..], Down(depth), reals)
          case Fail => Fail
          case Parsed(v, rest) => Parsed(Entry(key, v), rest)
  }

  /**
    The loop of `objectFromStream`, with the entries so far: an entry is appended whether or not its
    key is there already.
   */
  function MembersFrom(t: seq<byte>, depth: nat, entries: seq<Entry>, reals: Reals): (r: Parsed<seq<Entry>>)
    ensures r.Parsed? ==> |r.rest| < |t|
    decreases |t|, 3
  {
    if t != [] && t[0] == RBRACE then Parsed(entries, t[1..])
    else if t != [] && t[0] == COMMA then MembersFrom(t[1..], depth, entries, reals)
    else
      match SkipSpace(t)
      case None => Fail
      case Some(u) =>
        if |u| < |t| then MembersFrom(u, depth, entries, reals)
        else
          match MemberFrom(t, depth, reals)
          case Fail => Fail
          case Parsed(e, rest) => MembersFrom(rest, depth, entries + [e], reals)
  }
}
