/**
  On the compact text of a tree, `pretty_print` writes the indented layout of the tree, and nothing but white
  space is added.
 */
module JsonLayout {
  import opened Bytes
  import opened Arith
  import opened Utf8
  import opened Sanitizer
  import opened JsonStrings
  import opened JsonGrammar
  import opened JsonPrinter
  import opened JsonPretty

  // ---------------------------------------------------------------- running the machine piece by piece

  function Then(a: Trace, b: Trace): Trace {
    Trace(a.out + b.out, b.end, Min(a.low, b.low))
  }

  lemma {:induction false} RunConcat(s: State, a: seq<byte>, b: seq<byte>, indent: nat)
    ensures Run(s, a + b, indent) == Then(Run(s, a, indent), Run(Run(s, a, indent).end, b, indent))
    decreases a
  {
    hide Advance, Emit;
    if a == [] {
      assert a + b == b;
      RunLowBound(s, b, indent);
      var r := Run(s, b, indent);
      assert [] + r.out == r.out;
    } else {
      assert (a + b)[1..] == a[1..] + b;
      RunConcat(Advance(s, a[0]), a[1..], b, indent);
    }
  }

  lemma {:induction false} RunLowBound(s: State, t: seq<byte>, indent: nat)
    ensures Run(s, t, indent).low <= s.level
  {
  }

  lemma RunOne(s: State, c: byte, indent: nat)
    ensures Run(s, [c], indent) == Trace(Emit(s, c, indent), Advance(s, c), Min(s.level, Advance(s, c).level))
  {
    hide Advance, Emit;
    var s' := Advance(s, c);
    assert [c][1..] == [];
    assert Run(s', [], indent) == Trace([], s', s'.level);
    assert Emit(s, c, indent) + [] == Emit(s, c, indent);
  }

  /** Outside a string. */
  function Out(level: int, first: bool, afterOpen: bool): State {
    State(level, first, false, false, afterOpen)
  }

  /** Inside a string, no escape pending. */
  function In(level: int): State {
    State(level, false, true, false, false)
  }

  predicate Ordinary(c: byte) {
    c != BACKSLASH && c != COLON && c != QUOTE && c != COMMA && !IsOpening(c) && !IsClosing(c)
  }

  lemma {:induction false} RunOrdinary(level: int, first: bool, afterOpen: bool, a: seq<byte>, indent: nat)
    requires a != [] && forall i :: 0 <= i < |a| ==> Ordinary(a[i])
    ensures Run(Out(level, first, afterOpen), a, indent)
         == Trace(Break(Out(level, first, afterOpen), indent) + a, Out(level, false, false), level)
  {
    hide Break, Run, Emit, Advance;
    var s := Out(level, first, afterOpen);
    var s' := Out(level, false, false);
    assert a == [a[0]] + a[1..];
    RunOneOrdinary(level, first, afterOpen, a[0], indent);
    RunConcat(s, [a[0]], a[1..], indent);
    if |a| > 1 {
      RunOrdinary(level, false, false, a[1..], indent);
      NoBreak(s', indent);
      assert [] + a[1..] == a[1..];
      Regroup(Break(s, indent), [a[0]], a[1..]);
    } else {
      RunNothing(s', indent);
      assert a[1..] == [];
    }
  }

  lemma RunOneOrdinary(level: int, first: bool, afterOpen: bool, c: byte, indent: nat)
    requires Ordinary(c)
    ensures Run(Out(level, first, afterOpen), [c], indent)
         == Trace(Break(Out(level, first, afterOpen), indent) + [c], Out(level, false, false), level)
  {
    hide Run, Break;
    RunOne(Out(level, first, afterOpen), c, indent);
  }

  lemma NoBreak(s: State, indent: nat)
    requires !s.first
    ensures Break(s, indent) == []
  {
  }

  lemma RunNothing(s: State, indent: nat)
    ensures Run(s, [], indent) == Trace([], s, s.level)
  {
  }

  // ---------------------------------------------------------------- strings

  lemma {:induction false} RunInside(level: int, a: seq<byte>, indent: nat)
    requires forall i :: 0 <= i < |a| ==> a[i] != BACKSLASH && a[i] != QUOTE
    ensures Run(In(level), a, indent) == Trace(a, In(level), level)
  {
    if a != [] {
      RunInside(level, a[1..], indent);
      assert a == [a[0]] + a[1..];
    }
  }

  lemma RunEscapePair(level: int, x: byte, indent: nat)
    requires x == LOWER_T || x == LOWER_N || x == LOWER_R || x == BACKSLASH || x == QUOTE || x == 117
    ensures Run(In(level), [BACKSLASH, x], indent) == Trace([BACKSLASH, x], In(level), level)
  {
    assert [BACKSLASH, x] == [BACKSLASH] + [x];
    RunConcat(In(level), [BACKSLASH], [x], indent);
    RunOne(In(level), BACKSLASH, indent);
    RunOne(Advance(In(level), BACKSLASH), x, indent);
  }

  lemma RunUnicodeEscape(level: int, v: nat, indent: nat)
    requires v < 256
    ensures Run(In(level), UnicodeEscape(v), indent) == Trace(UnicodeEscape(v), In(level), level)
  {
    var u := UnicodeEscape(v);
    assert u == [BACKSLASH, 117] + u[2..];
    RunEscapePair(level, 117, indent);
    RunInside(level, u[2..], indent);
    RunConcat(In(level), [BACKSLASH, 117], u[2..], indent);
  }

  lemma RunUnit(level: int, s: seq<byte>, indent: nat)
    requires s != []
    ensures Run(In(level), UnitEscaped(s), indent) == Trace(UnitEscaped(s), In(level), level)
  {
    hide Run, ValidateNext, UnicodeEscape, Advance, Emit;
    if s[0] >= 0x80 {
      if ValidateNext(s, 0).error == Utf8Ok && IsC1(ValidateNext(s, 0).codePoint) {
        RunUnicodeEscape(level, ValidateNext(s, 0).codePoint, indent);
      } else {
        UnitIsHigh(s);
        RunInside(level, UnitText(s), indent);
      }
    } else if IsHidden(s[0]) {
      RunUnicodeEscape(level, s[0] as int, indent);
    } else if |EscapeByte(s[0], true)| == 2 {
      RunEscapePair(level, EscapeByte(s[0], true)[1], indent);
    } else {
      RunInside(level, [s[0]], indent);
    }
  }

  lemma {:induction false} RunUnits(level: int, s: seq<byte>, indent: nat)
    ensures Run(In(level), EscapedUnits(s), indent) == Trace(EscapedUnits(s), In(level), level)
    decreases |s|
  {
    if s != [] {
      hide Run, UnitEscaped, UnitLength;
      RunUnit(level, s, indent);
      RunUnits(level, s[UnitLength(s)..], indent);
      RunConcat(In(level), UnitEscaped(s), EscapedUnits(s[UnitLength(s)..]), indent);
    }
  }

  lemma RunQuoted(level: int, first: bool, afterOpen: bool, contents: seq<byte>, indent: nat)
    requires Run(In(level), contents, indent) == Trace(contents, In(level), level)
    ensures Run(Out(level, first, afterOpen), [QUOTE] + contents + [QUOTE], indent)
         == Trace(Break(Out(level, first, afterOpen), indent) + ([QUOTE] + contents + [QUOTE]),
                  Out(level, false, false), level)
  {
    var s := Out(level, first, afterOpen);
    hide Run, Break;
    RunOne(s, QUOTE, indent);
    RunConcat(s, [QUOTE], contents, indent);
    RunOne(In(level), QUOTE, indent);
    NoBreak(In(level), indent);
    assert [] + [QUOTE] == [QUOTE];
    RunConcat(s, [QUOTE] + contents, [QUOTE], indent);
    assert Break(s, indent) + [QUOTE] + contents + [QUOTE] == Break(s, indent) + ([QUOTE] + contents + [QUOTE]);
  }

  lemma RunString(level: int, first: bool, afterOpen: bool, s: seq<byte>, indent: nat)
    ensures Run(Out(level, first, afterOpen), QuotedText(s), indent)
         == Trace(Break(Out(level, first, afterOpen), indent) + QuotedText(s), Out(level, false, false), level)
  {
    hide Run, Break, Escaped, EscapedUnits;
    EscapedIsUnitwise(s);
    RunUnits(level, s, indent);
    RunQuoted(level, first, afterOpen, Escaped(s, true), indent);
  }

  // ---------------------------------------------------------------- values

  lemma RunInt(level: int, first: bool, afterOpen: bool, i: int, stringify: bool, indent: nat)
    ensures Run(Out(level, first, afterOpen), NumberText(i, stringify), indent)
         == Trace(Break(Out(level, first, afterOpen), indent) + NumberText(i, stringify),
                  Out(level, false, false), level)
  {
    hide Run, Break;
    if IsLarge(i, stringify) {
      RunInside(level, IntText(i), indent);
      RunQuoted(level, first, afterOpen, IntText(i), indent);
    } else {
      RunOrdinary(level, first, afterOpen, IntText(i), indent);
    }
  }

  lemma RunScalar(v: Value, level: nat, first: bool, afterOpen: bool, stringify: bool, indent: nat)
    requires WellTyped(v) && !IsContainer(v)
    ensures Run(Out(level, first, afterOpen), ScalarText(v, stringify), indent)
         == Trace(Break(Out(level, first, afterOpen), indent) + ScalarText(v, stringify),
                  Out(level, false, false), level)
  {
    hide Run, Break, NumberText, QuotedText;
    match v
    case Null => RunOrdinary(level, first, afterOpen, TEXT_NULL, indent);
    case Bool(b) => RunOrdinary(level, first, afterOpen, if b then TEXT_TRUE else TEXT_FALSE, indent);
    case Int64(i) => RunInt(level, first, afterOpen, i, stringify, indent);
    case Uint64(u) => RunInt(level, first, afterOpen, u, stringify, indent);
    case Str(s) => RunString(level, first, afterOpen, s, indent);
  }

  /** The line break pending in front of a value. */
  function Lead(v: Value, level: nat, first: bool, indent: nat): seq<byte> {
    if first then ItemGap(v, Pretty(indent), level) else []
  }

  lemma BreakIsGap(level: nat, first: bool, afterOpen: bool, indent: nat)
    ensures Break(Out(level, first, afterOpen), indent) == if first then Gap(Pretty(indent), level) else []
    ensures Indentation(level, indent) == Spaces(level * indent)
  {
    assert level * indent >= 0;
  }

  lemma {:induction false} RunValue(v: Value, level: nat, first: bool, afterOpen: bool, stringify: bool, indent: nat)
    requires WellTyped(v)
    ensures Run(Out(level, first, afterOpen), Render(v, Compact, level, stringify), indent)
         == Trace(Lead(v, level, first, indent) + Render(v, Pretty(indent), level, stringify),
                  Out(level, false, false), level)
    decreases v, 1
  {
    hide Run, Break, Gap;
    if !IsContainer(v) {
      RunScalar(v, level, first, afterOpen, stringify, indent);
      BreakIsGap(level, first, afterOpen, indent);
    } else {
      var a, b := Render(v, Compact, level, stringify), Render(v, Pretty(indent), level, stringify);
      match v
      case Arr(items) =>
        if items != [] {
          RunItems(items, level + 1, true, stringify, indent);
        } else {
          RunNothing(Out(level + 1, true, true), indent);
        }
        RunBracketed(level, first, afterOpen, LBRACKET, RenderItems(items, Compact, level + 1, stringify),
                     RenderItems(items, Pretty(indent), level + 1, stringify), items == [], RBRACKET, indent);
        CompactGap(level);
        assert [LBRACKET] + RenderItems(items, Compact, level + 1, stringify) + []
            == [LBRACKET] + RenderItems(items, Compact, level + 1, stringify);
      case Obj(entries) =>
        if entries != [] {
          RunEntries(entries, level + 1, true, stringify, indent);
        } else {
          RunNothing(Out(level + 1, true, true), indent);
        }
        RunBracketed(level, first, afterOpen, LBRACE, RenderEntries(entries, Compact, level + 1, stringify),
                     RenderEntries(entries, Pretty(indent), level + 1, stringify), entries == [], RBRACE, indent);
        CompactGap(level);
        assert [LBRACE] + RenderEntries(entries, Compact, level + 1, stringify) + []
            == [LBRACE] + RenderEntries(entries, Compact, level + 1, stringify);
    }
  }

  lemma CompactGap(level: nat)
    ensures Gap(Compact, level) == []
  {
  }

  /** Brackets around a body that the machine turns into `pretty`. */
  lemma RunBracketed(level: nat, first: bool, afterOpen: bool, open: byte, body: seq<byte>, pretty: seq<byte>,
                     empty: bool, close: byte, indent: nat)
    requires IsOpening(open) && IsClosing(close)
    requires Run(Out(level + 1, true, true), body, indent) == Trace(pretty, Out(level + 1, empty, empty), level + 1)
    ensures Run(Out(level, first, afterOpen), [open] + body + [close], indent)
         == Trace([open] + pretty + (if empty then [] else Gap(Pretty(indent), level)) + [close],
                  Out(level, false, false), level)
  {
    var s := Out(level, first, afterOpen);
    var s1 := Out(level + 1, empty, empty);
    hide Run, Break, Indentation;
    RunOne(s, open, indent);
    RunConcat(s, [open], body, indent);
    RunConcat(s, [open] + body, [close], indent);
    RunOne(s1, close, indent);
    BreakIsGap(level, false, false, indent);
    var gap := if empty then [] else Gap(Pretty(indent), level);
    assert Emit(s1, close, indent) == gap + [close];
    assert [open] + pretty + (gap + [close]) == [open] + pretty + gap + [close];
  }

  lemma RunComma(level: nat, n: nat, indent: nat)
    requires n >= 1
    ensures Run(Out(level, false, false), Separator(n), indent) == Trace(Separator(n), Out(level, n > 1, false), level)
  {
    if n > 1 {
      RunOne(Out(level, false, false), COMMA, indent);
    } else {
      RunNothing(Out(level, false, false), indent);
    }
  }

  lemma {:induction false} RunItems(items: seq<Value>, level: nat, afterOpen: bool, stringify: bool, indent: nat)
    requires items != [] && AllWellTyped(items)
    ensures Run(Out(level, true, afterOpen), RenderItems(items, Compact, level, stringify), indent)
         == Trace(RenderItems(items, Pretty(indent), level, stringify), Out(level, false, false), level)
    decreases items, 0
  {
    hide Run, Render, Gap, ItemGap, Separator, RenderItems;
    var s := Out(level, true, afterOpen);
    var x, y := Render(items[0], Compact, level, stringify), Render(items[0], Pretty(indent), level, stringify);
    var sep := Separator(|items|);
    var xs, ys := RenderItems(items[1..], Compact, level, stringify),
        RenderItems(items[1..], Pretty(indent), level, stringify);
    var gap := ItemGap(items[0], Pretty(indent), level);
    ItemsText(items, level, stringify, indent);
    RunValue(items[0], level, true, afterOpen, stringify, indent);
    RunComma(level, |items|, indent);
    RunConcat(s, x, sep, indent);
    RunConcat(s, x + sep, xs, indent);
    if |items| > 1 {
      RunItems(items[1..], level, false, stringify, indent);
    } else {
      RunNothing(Out(level, false, false), indent);
    }
  }

  lemma ItemsText(items: seq<Value>, level: nat, stringify: bool, indent: nat)
    requires items != [] && AllWellTyped(items)
    ensures RenderItems(items, Compact, level, stringify)
         == Render(items[0], Compact, level, stringify) + Separator(|items|)
             + RenderItems(items[1..], Compact, level, stringify)
    ensures RenderItems(items, Pretty(indent), level, stringify)
         == ItemGap(items[0], Pretty(indent), level) + Render(items[0], Pretty(indent), level, stringify)
             + Separator(|items|)
            + RenderItems(items[1..], Pretty(indent), level, stringify)
    ensures |items| == 1 ==> RenderItems(items[1..], Compact, level, stringify) == []
                             && RenderItems(items[1..], Pretty(indent), level, stringify) == []
  {
    hide Render;
    var x := Render(items[0], Compact, level, stringify);
    assert [] + x == x;
  }

  lemma {:induction false} RunEntries(entries: seq<Entry>, level: nat, afterOpen: bool, stringify: bool, indent: nat)
    requires entries != [] && AllEntriesWellTyped(entries)
    ensures Run(Out(level, true, afterOpen), RenderEntries(entries, Compact, level, stringify), indent)
         == Trace(RenderEntries(entries, Pretty(indent), level, stringify), Out(level, false, false), level)
    decreases entries, 0
  {
    hide Run, Render, Gap, Separator, RenderEntries, QuotedText, Break;
    var s, s' := Out(level, true, afterOpen), Out(level, false, false);
    var key := QuotedText(entries[0].key);
    var x := Render(entries[0].value, Compact, level, stringify);
    var sep := Separator(|entries|);
    var xs := RenderEntries(entries[1..], Compact, level, stringify);
    EntriesText(entries, level, stringify, indent);
    RunString(level, true, afterOpen, entries[0].key, indent);
    BreakIsGap(level, true, afterOpen, indent);
    RunOne(s', COLON, indent);
    RunConcat(s, key, [COLON], indent);
    RunValue(entries[0].value, level, false, false, stringify, indent);
    RunConcat(s, key + [COLON], x, indent);
    RunComma(level, |entries|, indent);
    RunConcat(s, key + [COLON] + x, sep, indent);
    RunConcat(s, key + [COLON] + x + sep, xs, indent);
    if |entries| > 1 {
      RunEntries(entries[1..], level, false, stringify, indent);
    } else {
      RunNothing(s', indent);
    }
    hide Emit, Advance;
    var y := Render(entries[0].value, Pretty(indent), level, stringify);
    assert [] + y == y;
  }

  lemma EntriesText(entries: seq<Entry>, level: nat, stringify: bool, indent: nat)
    requires entries != [] && AllEntriesWellTyped(entries)
    ensures RenderEntries(entries, Compact, level, stringify)
         == QuotedText(entries[0].key) + [COLON] + Render(entries[0].value, Compact, level, stringify)
             + Separator(|entries|)
            + RenderEntries(entries[1..], Compact, level, stringify)
    ensures RenderEntries(entries, Pretty(indent), level, stringify)
         == Gap(Pretty(indent), level) + QuotedText(entries[0].key) + [COLON, SPACE]
            + Render(entries[0].value, Pretty(indent), level, stringify) + Separator(|entries|)
            + RenderEntries(entries[1..], Pretty(indent), level, stringify)
    ensures |entries| == 1 ==> RenderEntries(entries[1..], Compact, level, stringify) == []
                               && RenderEntries(entries[1..], Pretty(indent), level, stringify) == []
  {
    hide Render, QuotedText, Separator;
    var key := QuotedText(entries[0].key);
    assert [] + key == key;
  }

  /** The machine turns the compact text of a tree into its indented layout; the level never
      goes below zero and ends there, outside any string. */
  lemma PrettyTextIsLayout(v: Value, stringify: bool, indent: nat)
    requires WellTyped(v)
    ensures Run(START, Render(v, Compact, 0, stringify), indent)
        == Trace(Render(v, Pretty(indent), 0, stringify), START, 0)
  {
    RunValue(v, 0, false, false, stringify, indent);
    hide Run, Render;
    var y := Render(v, Pretty(indent), 0, stringify);
    assert [] + y == y;
  }
}
