/** The JSON texts themselves, in plain characters: what is printed and what is recognised, byte for byte. */
module JsonText {
  import opened Bytes
  import opened Options
  import opened Decimal
  import opened Sanitizer
  import opened JsonStrings
  import opened JsonGrammar
  import opened JsonPrinter

  // ---------------------------------------------------------------- scalars

  lemma WordsAre()
    ensures Ascii("null") == [110, 117, 108, 108]
    ensures Ascii("true") == [116, 114, 117, 101]
    ensures Ascii("false") == [102, 97, 108, 115, 101]
  {
  }

  lemma PrintedWords(l: Layout, level: nat, stringify: bool)
    ensures Render(Null, l, level, stringify) == Ascii("null")
    ensures Render(Bool(true), l, level, stringify) == Ascii("true")
    ensures Render(Bool(false), l, level, stringify) == Ascii("false")
  {
    WordsAre();
  }

  /** A numeral for n: decimal digits worth n, with no zero in front of another digit. */
  predicate IsNumeral(s: seq<byte>, n: nat) {
    |s| >= 1 && (forall i :: 0 <= i < |s| ==> 48 <= s[i] < 58) && (s[0] == 48 ==> |s| == 1) && Worth(s) == n
  }

  function Worth(s: seq<byte>): int {
    if s == [] then 0 else 10 * Worth(s[..|s| - 1]) + (s[|s| - 1] as int - 48)
  }

  lemma {:induction false} WorthIsNatOf(s: seq<byte>)
    requires AllDigits(s)
    ensures Worth(s) == NatOf(s)
    decreases |s|
  {
    if s != [] {
      WorthIsNatOf(s[..|s| - 1]);
    }
  }

  lemma DigitsAreNumeral(n: nat)
    ensures IsNumeral(DigitsOf(n), n)
  {
    var s := DigitsOf(n);
    NatOfDigitsOf(n);
    WorthIsNatOf(s);
    if n > 0 {
      NoLeadingZero(n);
    }
  }

  /** The decimal text of an integer. */
  predicate IsIntText(s: seq<byte>, i: int) {
    if i >= 0 then IsNumeral(s, i)
    else s != [] && [s[0]] == Ascii("-") && IsNumeral(s[1..], -i)
  }

  lemma IntTextIs(i: int)
    ensures IsIntText(IntText(i), i)
  {
    DigitsAreNumeral(if i < 0 then -i else i);
    if i < 0 {
      assert IntText(i)[1..] == DigitsOf(-i);
    }
  }

  /** Integers print in decimal, in quotes exactly when the format asks for it and they exceed 32 bits. */
  lemma PrintedNumbers(i: int, stringify: bool, l: Layout, level: nat)
    ensures WellTyped(Int64(i)) ==> QuotedNumber(Render(Int64(i), l, level, stringify), i, stringify && i > 0xFFFF_FFFF)
    ensures i >= 0 && WellTyped(Uint64(i))
      ==> QuotedNumber(Render(Uint64(i), l, level, stringify), i, stringify && i > 0xFFFF_FFFF)
  {
    IntTextIs(i);
    hide IsIntText;
    var t := [QUOTE] + IntText(i) + [QUOTE];
    assert t[1..|t| - 1] == IntText(i);
    assert [QUOTE] == Ascii("\"");
  }

  predicate QuotedNumber(s: seq<byte>, i: int, quoted: bool) {
    if quoted then
      |s| >= 2 && [s[0]] == Ascii("\"") && [s[|s| - 1]] == Ascii("\"") && IsIntText(s[1..|s| - 1], i)
    else IsIntText(s, i)
  }

  // ---------------------------------------------------------------- strings

  /** The value of a small hexadecimal digit. */
  function HexValue(c: byte): int {
    if 48 <= c < 58 then c as int - 48 else if 97 <= c < 103 then c as int - 87 else -1
  }

  /** Six characters: backslash, u, two zeros and two digits that read as v in base 16. */
  predicate SpellsOut(s: seq<byte>, v: int) {
    |s| == 6 && s[..4] == Ascii("\\u00") && HexValue(s[4]) >= 0 && HexValue(s[5]) >= 0
    && 16 * HexValue(s[4]) + HexValue(s[5]) == v
  }

  lemma UnicodeEscapeIs(v: nat)
    requires v < 256
    ensures SpellsOut(UnicodeEscape(v), v)
  {
    var u := UnicodeEscape(v);
    assert Ascii("\\u00") == [92, 117, 48, 48];
    assert u[..4] == [92, 117, 48, 48];
  }

  /** How each character below 128 is escaped. */
  lemma Escapes(b: byte)
    ensures EscapeByte(9, true) == Ascii("\\t")
    ensures EscapeByte(10, true) == Ascii("\\n")
    ensures EscapeByte(13, true) == Ascii("\\r")
    ensures EscapeByte(92, true) == Ascii("\\\\")
    ensures EscapeByte(34, true) == Ascii("\\\"")
    ensures (b < 32 && b != 9 && b != 10 && b != 13) || b == 127
      ==> SpellsOut(EscapeByte(b, true), b as int) && SpellsOut(EscapeByte(b, false), b as int)
    ensures 32 <= b < 127 && b != 34 && b != 92 ==> EscapeByte(b, true) == [b]
    ensures 32 <= b < 127 || b == 9 || b == 10 || b == 13 ==> EscapeByte(b, false) == [b]
  {
    UnicodeEscapeIs(b as nat);
    assert Ascii("\\t") == [92, 116] && Ascii("\\n") == [92, 110] && Ascii("\\r") == [92, 114];
    assert Ascii("\\\\") == [92, 92] && Ascii("\\\"") == [92, 34];
    hide UnicodeEscape, SpellsOut;
  }

  /** What a literal's contents read as, escape by escape and to the closing quote. */
  lemma Unescapes(c: byte, t: seq<byte>)
    ensures StringBody(Ascii("\\t") + t) == Push([9], StringBody(t))
    ensures StringBody(Ascii("\\n") + t) == Push([10], StringBody(t))
    ensures StringBody(Ascii("\\r") + t) == Push([13], StringBody(t))
    ensures c != 116 && c != 110 && c != 114 ==> StringBody([92, c] + t) == Push([c], StringBody(t))
    ensures StringBody(Ascii("\"") + t) == Parsed([], t)
    ensures c != 92 && c != 34 && c != 4 ==> StringBody([c] + t) == Push([c], StringBody(t))
    ensures StringLiteral(Ascii("\"") + t) == StringBody(t)
  {
    assert Ascii("\\t") == [92, 116] && Ascii("\\n") == [92, 110] && Ascii("\\r") == [92, 114];
    assert Ascii("\"") == [34];
    BodyUnescapes(116, t);
    BodyUnescapes(110, t);
    BodyUnescapes(114, t);
    BodyUnescapes(c, t);
    assert ([34] + t)[1..] == t && ([c] + t)[1..] == t;
  }

  lemma PrintedString(s: seq<byte>, l: Layout, level: nat, stringify: bool)
    ensures Render(Str(s), l, level, stringify) == Ascii("\"") + Escaped(s, true) + Ascii("\"")
  {
    assert Ascii("\"") == [34];
  }

  // ---------------------------------------------------------------- containers

  lemma Punctuation()
    ensures Ascii("[") == [91] && Ascii("]") == [93] && Ascii("{") == [123] && Ascii("}") == [125]
    ensures Ascii(",") == [44] && Ascii("\"") == [34] && Ascii(":") == [58] && Ascii("-") == [45]
    ensures Ascii(" ") == [32] && Ascii("\n") == [10]
  {
  }

  lemma RenderOfArray(items: seq<Value>, stringify: bool)
    requires AllWellTyped(items)
    ensures Render(Arr(items), Compact, 0, stringify) == [91] + RenderItems(items, Compact, 1, stringify) + [93]
  {
    var body := RenderItems(items, Compact, 1, stringify);
    assert [LBRACKET] + body + [] == [LBRACKET] + body;
  }

  /** Compact arrays: brackets around the items, a comma between them. */
  lemma PrintedArrays(v: Value, more: seq<Value>, stringify: bool)
    requires WellTyped(v) && AllWellTyped(more)
    ensures Render(Arr([]), Compact, 0, stringify) == Ascii("[]")
    ensures AllWellTyped([v]) && AllWellTyped([v] + more)
    ensures Render(Arr([v]), Compact, 0, stringify)
         == Ascii("[") + Render(v, Compact, 0, stringify) + Ascii("]")
    ensures more != [] ==>
      Render(Arr([v] + more), Compact, 0, stringify)
      == Ascii("[") + Render(v, Compact, 0, stringify) + Ascii(",") + Render(Arr(more), Compact, 0, stringify)[1..]
  {
    Punctuation();
    assert Ascii("[]") == [91, 93];
    hide Ascii;
    RenderOfArray([], stringify);
    OneItem(v, more);
    ItemsText([v], stringify);
    ItemsText([v] + more, stringify);
    hide Render, RenderItems, AllWellTyped;
    RenderOfArray([v], stringify);
    RenderOfArray([v] + more, stringify);
    RenderOfArray(more, stringify);
    Joined(91, Render(v, Compact, 0, stringify), RenderItems(more, Compact, 1, stringify), 93);
  }

  lemma OneItem(v: Value, more: seq<Value>)
    requires WellTyped(v) && AllWellTyped(more)
    ensures AllWellTyped([v]) && AllWellTyped([v] + more)
    ensures [v][0] == v && [v][1..] == [] && ([v] + more)[0] == v && ([v] + more)[1..] == more
  {
    assert [v][1..] == [];
  }

  lemma ItemsText(items: seq<Value>, stringify: bool)
    requires items != [] && AllWellTyped(items)
    ensures WellTyped(items[0]) && AllWellTyped(items[1..]) && RenderItems([], Compact, 1, stringify) == []
    ensures RenderItems(items, Compact, 1, stringify)
         == Render(items[0], Compact, 0, stringify) + (if |items| > 1 then [44] else [])
            + RenderItems(items[1..], Compact, 1, stringify)
  {
    LevelIsIrrelevant(items[0], 1, 0, stringify);
    hide Render;
    assert [] + Render(items[0], Compact, 1, stringify) == Render(items[0], Compact, 1, stringify);
  }

  lemma RenderOfObject(entries: seq<Entry>, stringify: bool)
    requires AllEntriesWellTyped(entries)
    ensures Render(Obj(entries), Compact, 0, stringify) == [123] + RenderEntries(entries, Compact, 1, stringify) + [125]
  {
    var body := RenderEntries(entries, Compact, 1, stringify);
    assert [LBRACE] + body + [] == [LBRACE] + body;
  }

  lemma EntriesText(entries: seq<Entry>, stringify: bool)
    requires entries != [] && AllEntriesWellTyped(entries)
    ensures WellTyped(entries[0].value) && AllEntriesWellTyped(entries[1..])
    ensures RenderEntries([], Compact, 1, stringify) == []
    ensures RenderEntries(entries, Compact, 1, stringify)
         == [34] + Escaped(entries[0].key, true) + [34] + [58] + Render(entries[0].value, Compact, 0, stringify)
            + (if |entries| > 1 then [44] else []) + RenderEntries(entries[1..], Compact, 1, stringify)
  {
    LevelIsIrrelevant(entries[0].value, 1, 0, stringify);
    hide Render, Escaped;
    var quoted := [34] + Escaped(entries[0].key, true) + [34];
    assert QuotedText(entries[0].key) == quoted && [] + quoted == quoted;
  }

  /** Compact objects: braces around the members, a quoted key and a colon in front of each value. */
  lemma PrintedObjects(e: Entry, more: seq<Entry>, stringify: bool)
    requires WellTyped(e.value) && AllEntriesWellTyped(more)
    ensures Render(Obj([]), Compact, 0, stringify) == Ascii("{}")
    ensures AllEntriesWellTyped([e]) && AllEntriesWellTyped([e] + more)
    ensures var member := Ascii("\"") + Escaped(e.key, true) + Ascii("\"") + Ascii(":")
                          + Render(e.value, Compact, 0, stringify);
      && Render(Obj([e]), Compact, 0, stringify) == Ascii("{") + member + Ascii("}")
      && (more != [] ==>
            Render(Obj([e] + more), Compact, 0, stringify)
            == Ascii("{") + member + Ascii(",") + Render(Obj(more), Compact, 0, stringify)[1..])
  {
    Punctuation();
    assert Ascii("{}") == [123, 125];
    hide Ascii;
    RenderOfObject([], stringify);
    OneEntry(e, more);
    EntriesText([e], stringify);
    EntriesText([e] + more, stringify);
    hide Render, RenderEntries, Escaped, AllEntriesWellTyped;
    RenderOfObject([e], stringify);
    RenderOfObject([e] + more, stringify);
    RenderOfObject(more, stringify);
    Joined(123, [34] + Escaped(e.key, true) + [34] + [58] + Render(e.value, Compact, 0, stringify),
           RenderEntries(more, Compact, 1, stringify), 125);
  }

  lemma OneEntry(e: Entry, more: seq<Entry>)
    requires WellTyped(e.value) && AllEntriesWellTyped(more)
    ensures AllEntriesWellTyped([e]) && AllEntriesWellTyped([e] + more)
    ensures [e][0] == e && [e][1..] == [] && ([e] + more)[0] == e && ([e] + more)[1..] == more
  {
    assert [e][1..] == [];
  }

  lemma Joined(open: byte, x: seq<byte>, rest: seq<byte>, close: byte)
    ensures ([open] + rest + [close])[1..] == rest + [close]
    ensures [open] + (x + [44] + rest) + [close] == [open] + x + [44] + ([open] + rest + [close])[1..]
    ensures [open] + (x + [] + []) + [close] == [open] + x + [close]
  {
  }

  // ---------------------------------------------------------------- the indented layout

  /** A line break and n blanks. */
  function NewLine(n: nat): seq<byte> {
    Ascii("\n") + seq(n, i => 32)
  }

  lemma {:induction false} SpacesAre(n: nat)
    ensures Spaces(n) == seq(n, i => 32)
    decreases n
  {
    if n > 0 {
      SpacesAre(n - 1);
    }
  }

  lemma GapIs(indent: nat, level: nat)
    ensures Gap(Pretty(indent), level) == NewLine(level * indent)
  {
    SpacesAre(level * indent);
    Punctuation();
    hide Ascii;
  }

  lemma OneItemLaidOut(v: Value, l: Layout, level: nat, stringify: bool)
    requires WellTyped(v)
    ensures AllWellTyped([v])
    ensures RenderItems([v], l, level, stringify) == ItemGap(v, l, level) + Render(v, l, level, stringify)
  {
    assert [v][1..] == [];
    hide Render, ItemGap;
    assert ItemGap(v, l, level) + Render(v, l, level, stringify) + [] + []
        == ItemGap(v, l, level) + Render(v, l, level, stringify);
  }

  lemma OneEntryLaidOut(e: Entry, indent: nat, level: nat, stringify: bool)
    requires WellTyped(e.value)
    ensures AllEntriesWellTyped([e])
    ensures RenderEntries([e], Pretty(indent), level, stringify)
         == Gap(Pretty(indent), level) + QuotedText(e.key) + [58, 32]
            + Render(e.value, Pretty(indent), level, stringify)
  {
    assert [e][1..] == [];
    hide Render, Gap, Escaped;
    var x := Gap(Pretty(indent), level) + QuotedText(e.key) + [58, 32]
             + Render(e.value, Pretty(indent), level, stringify);
    assert x + [] + [] == x;
  }

  lemma ArrayLaidOut(items: seq<Value>, l: Layout, level: nat, stringify: bool)
    requires AllWellTyped(items) && items != []
    ensures Render(Arr(items), l, level, stringify)
         == [91] + RenderItems(items, l, level + 1, stringify) + Gap(l, level) + [93]
  {
    hide RenderItems, AllWellTyped, Gap;
  }

  lemma ObjectLaidOut(entries: seq<Entry>, l: Layout, level: nat, stringify: bool)
    requires AllEntriesWellTyped(entries) && entries != []
    ensures Render(Obj(entries), l, level, stringify)
         == [123] + RenderEntries(entries, l, level + 1, stringify) + Gap(l, level) + [125]
  {
    hide RenderEntries, AllEntriesWellTyped, Gap;
  }

  lemma Regrouped(open: seq<byte>, a: seq<byte>, b: seq<byte>, gap: seq<byte>, close: seq<byte>)
    ensures open + (a + b) + gap + close == open + a + b + gap + close
  {
  }

  lemma RegroupedMember(open: seq<byte>, a: seq<byte>, k: seq<byte>, c: seq<byte>, b: seq<byte>, gap: seq<byte>,
                        close: seq<byte>)
    ensures open + (a + k + c + b) + gap + close == open + a + k + c + b + gap + close
  {
  }

  /** Where the first item of an array and the closing bracket go, and that a container stays on its line. */
  lemma PrettyArrays(v: Value, indent: nat, level: nat, stringify: bool)
    requires WellTyped(v)
    ensures AllWellTyped([v])
    ensures Render(Arr([v]), Pretty(indent), level, stringify)
         == Ascii("[") + (if v.Arr? || v.Obj? then [] else NewLine((level + 1) * indent))
            + Render(v, Pretty(indent), level + 1, stringify) + NewLine(level * indent) + Ascii("]")
  {
    Punctuation();
    GapIs(indent, level);
    GapIs(indent, level + 1);
    OneItemLaidOut(v, Pretty(indent), level + 1, stringify);
    ArrayLaidOut([v], Pretty(indent), level, stringify);
    hide Ascii, NewLine, Gap, Render, RenderItems, AllWellTyped, WellTyped;
    Regrouped([91], ItemGap(v, Pretty(indent), level + 1), Render(v, Pretty(indent), level + 1, stringify),
              Gap(Pretty(indent), level), [93]);
  }

  /** Members stand on their own lines, with a blank after the colon. */
  lemma PrettyObjects(e: Entry, indent: nat, level: nat, stringify: bool)
    requires WellTyped(e.value)
    ensures AllEntriesWellTyped([e])
    ensures Render(Obj([e]), Pretty(indent), level, stringify)
         == Ascii("{") + NewLine((level + 1) * indent) + (Ascii("\"") + Escaped(e.key, true) + Ascii("\""))
            + Ascii(": ") + Render(e.value, Pretty(indent), level + 1, stringify) + NewLine(level * indent)
            + Ascii("}")
  {
    Punctuation();
    assert Ascii(": ") == [58, 32];
    GapIs(indent, level);
    GapIs(indent, level + 1);
    OneEntryLaidOut(e, indent, level + 1, stringify);
    ObjectLaidOut([e], Pretty(indent), level, stringify);
    hide Ascii, NewLine, Gap, Escaped, Render, RenderEntries, AllEntriesWellTyped, WellTyped;
    RegroupedMember([123], Gap(Pretty(indent), level + 1), QuotedText(e.key), [58, 32],
                    Render(e.value, Pretty(indent), level + 1, stringify), Gap(Pretty(indent), level), [125]);
  }

  // ---------------------------------------------------------------- what is recognised

  lemma SpacesSkipped(b: byte, t: seq<byte>)
    ensures IsSpace(b) <==> b == 32 || b == 9 || b == 10 || b == 13
    ensures IsSpace(b) ==> SkipSpace([b] + t) == SkipSpace(t)
    ensures SkipSpace([0] + t) == None
    ensures !IsSpace(b) && b != 0 ==> SkipSpace([b] + t) == Some([b] + t)
  {
    assert ([b] + t)[1..] == t;
  }

  lemma TokenBytes(b: byte)
    ensures IsTokenByte(b) <==> 48 <= b < 58 || 65 <= b < 91 || 97 <= b < 123 || b in Ascii("_-.:/")
    ensures IsWordByte(b) <==> b in Ascii("nultrefas")
  {
    assert Ascii("_-.:/") == [95, 45, 46, 58, 47];
    assert Ascii("nultrefas") == [110, 117, 108, 116, 114, 101, 102, 97, 115];
  }

  /** What may follow a word: nothing, white space, a comma or a closing bracket. */
  predicate Delimited(rest: seq<byte>) {
    rest == [] || rest[0] in Ascii(" \t\n\r,]}")
  }

  lemma DelimiterIsNoWord(rest: seq<byte>)
    requires Delimited(rest)
    ensures WordLength(rest) == 0
  {
    assert Ascii(" \t\n\r,]}") == [32, 9, 10, 13, 44, 93, 125];
  }

  lemma {:induction false} WordLengthOf(word: seq<byte>, rest: seq<byte>)
    requires (forall i :: 0 <= i < |word| ==> IsWordByte(word[i])) && WordLength(rest) == 0
    ensures WordLength(word + rest) == |word|
    decreases |word|
  {
    if word == [] {
      assert word + rest == rest;
    } else {
      assert (word + rest)[1..] == word[1..] + rest;
      WordLengthOf(word[1..], rest);
    }
  }

  /** The three words are read as what they say. */
  lemma WordsRead(rest: seq<byte>, depth: nat, reals: Reals)
    requires Delimited(rest) && depth != 0
    ensures ValueFrom(Ascii("null") + rest, depth, reals) == Parsed(Null, rest)
    ensures ValueFrom(Ascii("true") + rest, depth, reals) == Parsed(Bool(true), rest)
    ensures ValueFrom(Ascii("false") + rest, depth, reals) == Parsed(Bool(false), rest)
  {
    WordsAre();
    DelimiterIsNoWord(rest);
    hide Ascii;
    WordRead(Ascii("null"), rest, depth, reals);
    WordRead(Ascii("true"), rest, depth, reals);
    WordRead(Ascii("false"), rest, depth, reals);
  }

  lemma WordRead(word: seq<byte>, rest: seq<byte>, depth: nat, reals: Reals)
    requires word != [] && depth != 0 && WordLength(rest) == 0
    requires forall i :: 0 <= i < |word| ==> IsWordByte(word[i])
    requires word[0] == 110 || word[0] == 116 || word[0] == 102
    ensures word == [110, 117, 108, 108] ==> ValueFrom(word + rest, depth, reals) == Parsed(Null, rest)
    ensures word == [116, 114, 117, 101] ==> ValueFrom(word + rest, depth, reals) == Parsed(Bool(true), rest)
    ensures word == [102, 97, 108, 115, 101] ==> ValueFrom(word + rest, depth, reals) == Parsed(Bool(false), rest)
  {
    WordLengthOf(word, rest);
    var t := word + rest;
    assert t[..|word|] == word && t[|word|..] == rest;
    assert SkipSpace(t) == Some(t);
    hide WordLength;
  }
}
