/**
  Printing a variant (`to_stream`), the layout that `pretty_print` gives it, and what the
  legacy reader makes of the text.
 */
module JsonPrinter {
  import opened Bytes
  import opened Decimal
  import opened JsonStrings
  import opened JsonGrammar

  /** The text with no white space, or indented by the given number of spaces per level. */
  datatype Layout = Compact | Pretty(indent: nat)

  /** A variant the printer handles: integers in range, no doubles. */
  predicate WellTyped(v: Value)
    decreases v, 1
  {
    match v
    case Null => true
    case Bool(_) => true
    case Int64(i) => -TWO_63 <= i < TWO_63
    case Uint64(u) => u < TWO_64
    case Real(_) => false
    case Str(_) => true
    case Arr(items) => AllWellTyped(items)
    case Obj(entries) => AllEntriesWellTyped(entries)
  }

  predicate AllWellTyped(items: seq<Value>)
    decreases items, 0
  {
    items == [] || (WellTyped(items[0]) && AllWellTyped(items[1..]))
  }

  predicate AllEntriesWellTyped(entries: seq<Entry>)
    decreases entries, 0
  {
    entries == [] || (WellTyped(entries[0].value) && AllEntriesWellTyped(entries[1..]))
  }

  predicate IsContainer(v: Value) {
    v.Arr? || v.Obj?
  }

  function Spaces(n: nat): seq<byte> {
    if n == 0 then [] else [SPACE] + Spaces(n - 1)
  }

  /** The line break in front of an item at the given level. */
  function Gap(l: Layout, level: nat): seq<byte> {
    match l
    case Compact => []
    case Pretty(indent) => [LF] + Spaces(level * indent)
  }

  function ColonText(l: Layout): seq<byte> {
    if l.Compact? then [COLON] else [COLON, SPACE]
  }

  function IntText(i: int): seq<byte> {
    if i < 0 then [MINUS] + DigitsOf(-i) else DigitsOf(i)
  }

  /** Does the format stringify_large_ints_and_doubles turn this integer into a string? */
  predicate IsLarge(i: int, stringify: bool) {
    stringify && i > 0xFFFF_FFFF
  }

  function QuotedText(s: seq<byte>): seq<byte> {
    [QUOTE] + Escaped(s, true) + [QUOTE]
  }

  function NumberText(i: int, stringify: bool): seq<byte> {
    if IsLarge(i, stringify) then [QUOTE] + IntText(i) + [QUOTE] else IntText(i)
  }

  function ScalarText(v: Value, stringify: bool): seq<byte>
    requires !IsContainer(v) && !v.Real?
  {
    match v
    case Null => TEXT_NULL
    case Bool(b) => if b then TEXT_TRUE else TEXT_FALSE
    case Int64(i) => NumberText(i, stringify)
    case Uint64(u) => NumberText(u, stringify)
    case Str(s) => QuotedText(s)
  }

  /** The text of a value standing at the given level. */
  function Render(v: Value, l: Layout, level: nat, stringify: bool): seq<byte>
    requires WellTyped(v)
    decreases v, 1
  {
    match v
    case Arr(items) =>
      [LBRACKET] + RenderItems(items, l, level + 1, stringify)
      + (if items == [] then [] else Gap(l, level)) + [RBRACKET]
    case Obj(entries) =>
      [LBRACE] + RenderEntries(entries, l, level + 1, stringify)
      + (if entries == [] then [] else Gap(l, level)) + [RBRACE]
    case _ => ScalarText(v, stringify)
  }

  /** A container is opened on the line it is reached on; anything else starts a new one. */
  function ItemGap(v: Value, l: Layout, level: nat): seq<byte> {
    if IsContainer(v) then [] else Gap(l, level)
  }

  function Separator(n: nat): seq<byte> {
    if n > 1 then [COMMA] else []
  }

  function RenderItems(items: seq<Value>, l: Layout, level: nat, stringify: bool): seq<byte>
    requires AllWellTyped(items)
    decreases items, 0
  {
    if items == [] then []
    else
      ItemGap(items[0], l, level) + Render(items[0], l, level, stringify) + Separator(|items|)
      + RenderItems(items[1..], l, level, stringify)
  }

  function RenderEntries(entries: seq<Entry>, l: Layout, level: nat, stringify: bool): seq<byte>
    requires AllEntriesWellTyped(entries)
    decreases entries, 0
  {
    if entries == [] then []
    else
      Gap(l, level) + QuotedText(entries[0].key) + ColonText(l)
      + Render(entries[0].value, l, level, stringify) + Separator(|entries|)
      + RenderEntries(entries[1..], l, level, stringify)
  }

  // ---------------------------------------------------------------- the printer

  class OutStream {
    var text: seq<byte>

    constructor ()
      ensures text == []
    {
      text := [];
    }

    method Put(s: seq<byte>)
      modifies this
      ensures text == old(text) + s
    {
      text := text + s;
    }
  }

  method PrintString(os: OutStream, s: seq<byte>)
    modifies os
    ensures os.text == old(os.text) + QuotedText(s)
  {
    var e := EscapeString(s, true);
    os.Put([QUOTE]);
    os.Put(e);
    os.Put([QUOTE]);
  }

  method PrintValue(os: OutStream, v: Value, stringify: bool)
    requires WellTyped(v)
    modifies os
    ensures os.text == old(os.text) + Render(v, Compact, 0, stringify)
    decreases v, 1
  {
    match v {
      case Null => os.Put(TEXT_NULL);
      case Bool(b) => os.Put(if b then TEXT_TRUE else TEXT_FALSE);
      case Int64(i) => os.Put(NumberText(i, stringify));
      case Uint64(u) => os.Put(NumberText(u, stringify));
      case Str(s) => PrintString(os, s);
      case Arr(items) => PrintArray(os, items, stringify);
      case Obj(entries) => PrintObject(os, entries, stringify);
    }
  }

  method PrintArray(os: OutStream, items: seq<Value>, stringify: bool)
    requires AllWellTyped(items)
    modifies os
    ensures os.text == old(os.text) + Render(Arr(items), Compact, 0, stringify)
    decreases items, 0
  {
    hide Render, RenderItems, WellTyped, AllWellTyped;
    os.Put([LBRACKET]);
    ghost var body := [];
    var i := 0;
    assert items[0..] == items;
    while i < |items|
      invariant i <= |items| && AllWellTyped(items[i..])
      invariant RenderItems(items, Compact, 1, stringify) == body + RenderItems(items[i..], Compact, 1, stringify)
      invariant os.text == old(os.text) + [LBRACKET] + body
    {
      ItemsStep(items[i..], stringify);
      assert items[i..][1..] == items[i + 1..];
      PrintValue(os, items[i], stringify);
      ghost var item := Render(items[i], Compact, 0, stringify);
      i := i + 1;
      if i < |items| {
        os.Put([COMMA]);
        item := item + [COMMA];
      }
      Regroup(body, item, RenderItems(items[i..], Compact, 1, stringify));
      Regroup(old(os.text) + [LBRACKET], body, item);
      body := body + item;
    }
    assert items[i..] == [];
    os.Put([RBRACKET]);
    ArrayText(items, stringify);
    assert os.text == old(os.text) + ([LBRACKET] + body + [RBRACKET]);
  }

  lemma Regroup(a: seq<byte>, b: seq<byte>, c: seq<byte>)
    ensures a + (b + c) == (a + b) + c
  {
  }

  lemma ItemsStep(items: seq<Value>, stringify: bool)
    requires items != [] && AllWellTyped(items)
    ensures WellTyped(items[0]) && AllWellTyped(items[1..])
    ensures RenderItems(items, Compact, 1, stringify)
         == Render(items[0], Compact, 0, stringify) + Separator(|items|)
             + RenderItems(items[1..], Compact, 1, stringify)
  {
    LevelIsIrrelevant(items[0], 0, 1, stringify);
    hide Render;
    var r := Render(items[0], Compact, 1, stringify);
    assert [] + r == r;
  }

  lemma ArrayText(items: seq<Value>, stringify: bool)
    requires AllWellTyped(items)
    ensures RenderItems([], Compact, 1, stringify) == []
    ensures Render(Arr(items), Compact, 0, stringify)
        == [LBRACKET] + RenderItems(items, Compact, 1, stringify) + [RBRACKET]
  {
    var r := [LBRACKET] + RenderItems(items, Compact, 1, stringify);
    assert r + [] == r;
  }

  function EntryText(e: Entry, stringify: bool): seq<byte>
    requires WellTyped(e.value)
  {
    QuotedText(e.key) + [COLON] + Render(e.value, Compact, 0, stringify)
  }

  method PrintEntry(os: OutStream, e: Entry, stringify: bool)
    requires WellTyped(e.value)
    modifies os
    ensures os.text == old(os.text) + EntryText(e, stringify)
    decreases e, 0
  {
    hide Render, QuotedText;
    PrintString(os, e.key);
    os.Put([COLON]);
    PrintValue(os, e.value, stringify);
  }

  method PrintObject(os: OutStream, entries: seq<Entry>, stringify: bool)
    requires AllEntriesWellTyped(entries)
    modifies os
    ensures os.text == old(os.text) + Render(Obj(entries), Compact, 0, stringify)
    decreases entries, 0
  {
    hide Render, RenderEntries, EntryText;
    os.Put([LBRACE]);
    ghost var body := [];
    var i := 0;
    assert entries[0..] == entries;
    while i < |entries|
      invariant i <= |entries| && AllEntriesWellTyped(entries[i..])
      invariant RenderEntries(entries, Compact, 1, stringify)
          == body + RenderEntries(entries[i..], Compact, 1, stringify)
      invariant os.text == old(os.text) + [LBRACE] + body
    {
      EntriesStep(entries[i..], stringify);
      assert entries[i..][1..] == entries[i + 1..];
      PrintEntry(os, entries[i], stringify);
      ghost var item := EntryText(entries[i], stringify);
      i := i + 1;
      if i < |entries| {
        os.Put([COMMA]);
        item := item + [COMMA];
      }
      Regroup(body, item, RenderEntries(entries[i..], Compact, 1, stringify));
      Regroup(old(os.text) + [LBRACE], body, item);
      body := body + item;
    }
    assert entries[i..] == [];
    os.Put([RBRACE]);
    ObjectText(entries, stringify);
    assert os.text == old(os.text) + ([LBRACE] + body + [RBRACE]);
  }

  lemma EntriesStep(entries: seq<Entry>, stringify: bool)
    requires entries != [] && AllEntriesWellTyped(entries)
    ensures WellTyped(entries[0].value) && AllEntriesWellTyped(entries[1..])
    ensures RenderEntries(entries, Compact, 1, stringify)
         == EntryText(entries[0], stringify) + Separator(|entries|) + RenderEntries(entries[1..], Compact, 1, stringify)
  {
    LevelIsIrrelevant(entries[0].value, 0, 1, stringify);
    hide Render, QuotedText;
    var q := QuotedText(entries[0].key);
    assert [] + q == q;
  }

  lemma ObjectText(entries: seq<Entry>, stringify: bool)
    requires AllEntriesWellTyped(entries)
    ensures RenderEntries([], Compact, 1, stringify) == []
    ensures Render(Obj(entries), Compact, 0, stringify)
         == [LBRACE] + RenderEntries(entries, Compact, 1, stringify) + [RBRACE]
  {
    var r := [LBRACE] + RenderEntries(entries, Compact, 1, stringify);
    assert r + [] == r;
  }

  lemma {:induction false} LevelIsIrrelevant(v: Value, a: nat, b: nat, stringify: bool)
    requires WellTyped(v)
    ensures Render(v, Compact, a, stringify) == Render(v, Compact, b, stringify)
    decreases v, 1
  {
    match v
    case Arr(items) => LevelIsIrrelevantItems(items, a + 1, b + 1, stringify);
    case Obj(entries) => LevelIsIrrelevantEntries(entries, a + 1, b + 1, stringify);
    case _ =>
  }

  lemma {:induction false} LevelIsIrrelevantItems(items: seq<Value>, a: nat, b: nat, stringify: bool)
    requires AllWellTyped(items)
    ensures RenderItems(items, Compact, a, stringify) == RenderItems(items, Compact, b, stringify)
    decreases items, 0
  {
    if items != [] {
      LevelIsIrrelevant(items[0], a, b, stringify);
      LevelIsIrrelevantItems(items[1..], a, b, stringify);
    }
  }

  lemma {:induction false} LevelIsIrrelevantEntries(entries: seq<Entry>, a: nat, b: nat, stringify: bool)
    requires AllEntriesWellTyped(entries)
    ensures RenderEntries(entries, Compact, a, stringify) == RenderEntries(entries, Compact, b, stringify)
    decreases entries, 0
  {
    if entries != [] {
      LevelIsIrrelevant(entries[0].value, a, b, stringify);
      LevelIsIrrelevantEntries(entries[1..], a, b, stringify);
    }
  }
}
