/** Deleting the white space outside string literals undoes the layout. */
module JsonStrip {
  import opened Bytes
  import opened Utf8
  import opened Sanitizer
  import opened JsonStrings
  import opened JsonGrammar
  import opened JsonPrinter
  import opened JsonRoundTrip

  /** A scan of JSON text: what is kept, and whether it ended inside a string or after a backslash there. */
  datatype Scan = Scan(kept: seq<byte>, quote: bool, escape: bool)

  function NextQuote(quote: bool, escape: bool, c: byte): bool {
    if c == QUOTE && !escape then !quote else quote
  }

  function NextEscape(quote: bool, escape: bool, c: byte): bool {
    quote && !escape && c == BACKSLASH
  }

  function Keep(quote: bool, c: byte): seq<byte> {
    if !quote && IsSpace(c) then [] else [c]
  }

  function Strip(quote: bool, escape: bool, t: seq<byte>): Scan
    decreases t
  {
    if t == [] then Scan([], quote, escape)
    else
      var r := Strip(NextQuote(quote, escape, t[0]), NextEscape(quote, escape, t[0]), t[1..]);
      Scan(Keep(quote, t[0]) + r.kept, r.quote, r.escape)
  }

  function Then(a: Scan, b: Scan): Scan {
    Scan(a.kept + b.kept, b.quote, b.escape)
  }

  lemma {:induction false} StripConcat(quote: bool, escape: bool, a: seq<byte>, b: seq<byte>)
    ensures var r := Strip(quote, escape, a); Strip(quote, escape, a + b) == Then(r, Strip(r.quote, r.escape, b))
    decreases a
  {
    hide NextQuote, NextEscape, Keep;
    if a == [] {
      assert a + b == b;
      assert [] + Strip(quote, escape, b).kept == Strip(quote, escape, b).kept;
    } else {
      assert (a + b)[1..] == a[1..] + b;
      var q, e := NextQuote(quote, escape, a[0]), NextEscape(quote, escape, a[0]);
      StripConcat(q, e, a[1..], b);
      var r := Strip(q, e, a[1..]);
      Regroup(Keep(quote, a[0]), r.kept, Strip(r.quote, r.escape, b).kept);
    }
  }

  lemma {:induction false} StripSpace(g: seq<byte>)
    requires AllSpace(g)
    ensures Strip(false, false, g) == Scan([], false, false)
  {
    if g != [] {
      StripSpace(g[1..]);
    }
  }

  /**
    Text with no quote and no white space is kept outside strings; with no quote and no backslash it is kept
    inside.
   */
  lemma {:induction false} StripKeeps(quote: bool, a: seq<byte>)
    requires forall i :: 0 <= i < |a| ==> a[i] != QUOTE && if quote then a[i] != BACKSLASH else !IsSpace(a[i])
    ensures Strip(quote, false, a) == Scan(a, quote, false)
  {
    if a != [] {
      StripKeeps(quote, a[1..]);
      assert a == [a[0]] + a[1..];
    }
  }

  lemma StripPair(x: byte)
    ensures Strip(true, false, [BACKSLASH, x]) == Scan([BACKSLASH, x], true, false)
  {
    assert [BACKSLASH, x][1..] == [x];
    assert [x][1..] == [];
    assert Strip(true, true, [x]) == Scan([x] + [], true, false);
  }

  lemma StripUnicodeEscape(v: nat)
    requires v < 256
    ensures Strip(true, false, UnicodeEscape(v)) == Scan(UnicodeEscape(v), true, false)
  {
    var u := UnicodeEscape(v);
    StripPair(117);
    StripKeeps(true, u[2..]);
    StripConcat(true, false, [BACKSLASH, 117], u[2..]);
    assert u == [BACKSLASH, 117] + u[2..];
  }

  lemma StripUnit(s: seq<byte>)
    requires s != []
    ensures Strip(true, false, UnitEscaped(s)) == Scan(UnitEscaped(s), true, false)
  {
    hide Strip, ValidateNext, UnicodeEscape;
    if s[0] >= 0x80 {
      if ValidateNext(s, 0).error == Utf8Ok && IsC1(ValidateNext(s, 0).codePoint) {
        StripUnicodeEscape(ValidateNext(s, 0).codePoint);
      } else {
        UnitIsHigh(s);
        StripKeeps(true, UnitText(s));
      }
    } else if IsHidden(s[0]) {
      StripUnicodeEscape(s[0] as int);
    } else if |EscapeByte(s[0], true)| == 2 {
      StripPair(EscapeByte(s[0], true)[1]);
    } else {
      StripKeeps(true, [s[0]]);
    }
  }

  lemma {:induction false} StripUnits(s: seq<byte>)
    ensures Strip(true, false, EscapedUnits(s)) == Scan(EscapedUnits(s), true, false)
    decreases |s|
  {
    if s != [] {
      hide Strip, UnitEscaped, UnitLength;
      StripUnit(s);
      StripUnits(s[UnitLength(s)..]);
      StripConcat(true, false, UnitEscaped(s), EscapedUnits(s[UnitLength(s)..]));
    }
  }

  lemma StripQuoted(contents: seq<byte>)
    requires Strip(true, false, contents) == Scan(contents, true, false)
    ensures Strip(false, false, [QUOTE] + contents + [QUOTE]) == Scan([QUOTE] + contents + [QUOTE], false, false)
  {
    StripQuote(false);
    StripQuote(true);
    hide Strip;
    StripConcat(false, false, [QUOTE], contents);
    StripConcat(false, false, [QUOTE] + contents, [QUOTE]);
  }

  lemma StripQuote(quote: bool)
    ensures Strip(quote, false, [QUOTE]) == Scan([QUOTE], !quote, false)
  {
    assert [QUOTE][1..] == [];
    assert [QUOTE] + [] == [QUOTE];
  }

  lemma StripString(s: seq<byte>)
    ensures Strip(false, false, QuotedText(s)) == Scan(QuotedText(s), false, false)
  {
    hide Strip, Escaped, EscapedUnits;
    EscapedIsUnitwise(s);
    StripUnits(s);
    StripQuoted(Escaped(s, true));
  }

  lemma StripInt(i: int, stringify: bool)
    ensures Strip(false, false, NumberText(i, stringify)) == Scan(NumberText(i, stringify), false, false)
  {
    hide Strip;
    if IsLarge(i, stringify) {
      StripKeeps(true, IntText(i));
      StripQuoted(IntText(i));
    } else {
      StripKeeps(false, IntText(i));
    }
  }

  lemma StripScalar(v: Value, stringify: bool)
    requires WellTyped(v) && !IsContainer(v)
    ensures Strip(false, false, ScalarText(v, stringify)) == Scan(ScalarText(v, stringify), false, false)
  {
    hide Strip, NumberText, QuotedText;
    match v
    case Null => StripKeeps(false, TEXT_NULL);
    case Bool(b) => StripKeeps(false, if b then TEXT_TRUE else TEXT_FALSE);
    case Int64(i) => StripInt(i, stringify);
    case Uint64(u) => StripInt(u, stringify);
    case Str(s) => StripString(s);
  }

  /** Two pieces scanned one after the other, starting and ending outside strings. */
  lemma StripBoth(a: seq<byte>, ka: seq<byte>, b: seq<byte>, kb: seq<byte>)
    requires Strip(false, false, a) == Scan(ka, false, false) && Strip(false, false, b) == Scan(kb, false, false)
    ensures Strip(false, false, a + b) == Scan(ka + kb, false, false)
  {
    hide Strip;
    StripConcat(false, false, a, b);
  }

  lemma {:induction false} StripValue(v: Value, l: Layout, level: nat, stringify: bool)
    requires WellTyped(v)
    ensures Strip(false, false, Render(v, l, level, stringify))
        == Scan(Render(v, Compact, level, stringify), false, false)
    decreases v, 1
  {
    hide Strip, Gap;
    GapIsSpace(l, level);
    StripSpace(Gap(l, level));
    StripSpace([]);
    NoGap(level);
    match v
    case Arr(items) =>
      StripItems(items, l, level + 1, stringify);
      StripBrackets(LBRACKET, RenderItems(items, l, level + 1, stringify),
          RenderItems(items, Compact, level + 1, stringify),
                    if items == [] then [] else Gap(l, level), RBRACKET);
    case Obj(entries) =>
      StripEntries(entries, l, level + 1, stringify);
      StripBrackets(LBRACE, RenderEntries(entries, l, level + 1, stringify),
          RenderEntries(entries, Compact, level + 1, stringify),
                    if entries == [] then [] else Gap(l, level), RBRACE);
    case _ => StripScalar(v, stringify);
  }

  lemma NoGap(level: nat)
    ensures Gap(Compact, level) == []
  {
  }

  lemma StripBrackets(open: byte, body: seq<byte>, kept: seq<byte>, gap: seq<byte>, close: byte)
    requires open == LBRACE || open == LBRACKET
    requires close == RBRACE || close == RBRACKET
    requires Strip(false, false, body) == Scan(kept, false, false) && Strip(false, false, gap) == Scan([], false, false)
    ensures Strip(false, false, [open] + body + gap + [close]) == Scan([open] + kept + [] + [close], false, false)
  {
    hide Strip;
    StripKeeps(false, [open]);
    StripKeeps(false, [close]);
    StripBoth([open], [open], body, kept);
    StripBoth([open] + body, [open] + kept, gap, []);
    StripBoth([open] + body + gap, [open] + kept + [], [close], [close]);
  }

  lemma {:induction false} StripItems(items: seq<Value>, l: Layout, level: nat, stringify: bool)
    requires AllWellTyped(items)
    ensures Strip(false, false, RenderItems(items, l, level, stringify))
         == Scan(RenderItems(items, Compact, level, stringify), false, false)
    decreases items, 0
  {
    hide Strip, Gap, Render;
    if items == [] {
      StripSpace([]);
    } else {
      var gap, x, sep := ItemGap(items[0], l, level), Render(items[0], l, level, stringify), Separator(|items|);
      var kx := Render(items[0], Compact, level, stringify);
      GapIsSpace(l, level);
      NoGap(level);
      StripSpace(gap);
      StripValue(items[0], l, level, stringify);
      StripKeeps(false, sep);
      StripItems(items[1..], l, level, stringify);
      StripBoth(gap, [], x, kx);
      StripBoth(gap + x, [] + kx, sep, sep);
      StripBoth(gap + x + sep, [] + kx + sep, RenderItems(items[1..], l, level, stringify),
                RenderItems(items[1..], Compact, level, stringify));
    }
  }

  lemma {:induction false} StripEntries(entries: seq<Entry>, l: Layout, level: nat, stringify: bool)
    requires AllEntriesWellTyped(entries)
    ensures Strip(false, false, RenderEntries(entries, l, level, stringify))
         == Scan(RenderEntries(entries, Compact, level, stringify), false, false)
    decreases entries, 0
  {
    hide Strip, Gap, Render, QuotedText, ColonText, Separator;
    if entries == [] {
      StripSpace([]);
    } else {
      var gap, key, colon := Gap(l, level), QuotedText(entries[0].key), ColonText(l);
      var x, kx := Render(entries[0].value, l, level, stringify), Render(entries[0].value, Compact, level, stringify);
      var sep := Separator(|entries|);
      GapIsSpace(l, level);
      NoGap(level);
      StripSpace(gap);
      StripString(entries[0].key);
      StripColon(l);
      StripValue(entries[0].value, l, level, stringify);
      StripSeparator(|entries|);
      StripEntries(entries[1..], l, level, stringify);
      StripBoth(gap, [], key, key);
      StripBoth(gap + key, [] + key, colon, [COLON]);
      StripBoth(gap + key + colon, [] + key + [COLON], x, kx);
      StripBoth(gap + key + colon + x, [] + key + [COLON] + kx, sep, sep);
      StripBoth(gap + key + colon + x + sep, [] + key + [COLON] + kx + sep,
          RenderEntries(entries[1..], l, level, stringify),
                RenderEntries(entries[1..], Compact, level, stringify));
    }
  }

  lemma StripColon(l: Layout)
    ensures Strip(false, false, ColonText(l)) == Scan([COLON], false, false)
    ensures ColonText(Compact) == [COLON]
  {
    StripKeeps(false, [COLON]);
    StripSpace([SPACE]);
    StripConcat(false, false, [COLON], [SPACE]);
    assert [COLON] + [SPACE] == [COLON, SPACE];
    assert [COLON] + [] == [COLON];
  }

  lemma StripSeparator(n: nat)
    ensures Strip(false, false, Separator(n)) == Scan(Separator(n), false, false)
  {
    StripKeeps(false, Separator(n));
  }

  /** Stripping a tree's text in any layout gives its compact text. */
  lemma StripUndoesLayout(v: Value, l: Layout, stringify: bool)
    requires WellTyped(v)
    ensures Strip(false, false, Render(v, l, 0, stringify)) == Scan(Render(v, Compact, 0, stringify), false, false)
  {
    StripValue(v, l, 0, stringify);
  }
}
