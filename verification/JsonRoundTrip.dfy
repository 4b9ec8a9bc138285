/**
  What the legacy reader makes of printed text, compact or pretty: the canonical form of the
  tree, as long as the depth budget lasts.
 */
module JsonRoundTrip {
  import opened Bytes
  import opened Arith
  import opened Options
  import opened Decimal
  import opened JsonStrings
  import opened JsonGrammar
  import opened JsonPrinter

  // ---------------------------------------------------------------- the canonical form

  /** Non-negative integers come back unsigned, large ones as strings if the format says so,
      strings and keys respelled; entries stay as they are, repeated keys included. */
  function Canon(v: Value, stringify: bool): Value
    decreases v, 1
  {
    match v
    case Int64(i) => CanonInt(i, stringify)
    case Uint64(u) => CanonInt(u, stringify)
    case Str(s) => Str(Respell(s))
    case Arr(items) => Arr(CanonItems(items, stringify))
    case Obj(entries) => Obj(CanonEntries(entries, stringify))
    case _ => v
  }

  function CanonInt(i: int, stringify: bool): Value {
    if IsLarge(i, stringify) then Str(IntText(i)) else if i < 0 then Int64(i) else Uint64(i)
  }

  function CanonItems(items: seq<Value>, stringify: bool): seq<Value>
    decreases items, 0
  {
    if items == [] then [] else [Canon(items[0], stringify)] + CanonItems(items[1..], stringify)
  }

  function CanonEntries(entries: seq<Entry>, stringify: bool): seq<Entry>
    decreases entries, 0
  {
    if entries == [] then []
    else
      [Entry(Respell(entries[0].key), Canon(entries[0].value, stringify))] + CanonEntries(entries[1..], stringify)
  }

  // ---------------------------------------------------------------- the depth budget

  /** Does no value of the tree meet a budget of zero? */
  predicate Fits(v: Value, depth: nat)
    decreases v, 1
  {
    && depth != 0
    && (v.Arr? ==> AllFit(v.items, Down(Down(depth))))
    && (v.Obj? ==> AllEntriesFit(v.entries, Down(Down(depth))))
  }

  predicate AllFit(items: seq<Value>, depth: nat)
    decreases items, 0
  {
    items == [] || (Fits(items[0], depth) && AllFit(items[1..], depth))
  }

  predicate AllEntriesFit(entries: seq<Entry>, depth: nat)
    decreases entries, 0
  {
    entries == [] || (Fits(entries[0].value, depth) && AllEntriesFit(entries[1..], depth))
  }

  /** How many containers the deepest value lies in. */
  function Height(v: Value): nat
    decreases v, 1
  {
    match v
    case Arr(items) => if items == [] then 0 else 1 + MaxHeight(items)
    case Obj(entries) => if entries == [] then 0 else 1 + MaxEntryHeight(entries)
    case _ => 0
  }

  function MaxHeight(items: seq<Value>): nat
    decreases items, 0
  {
    if items == [] then 0 else Max(Height(items[0]), MaxHeight(items[1..]))
  }

  function MaxEntryHeight(entries: seq<Entry>): nat
    decreases entries, 0
  {
    if entries == [] then 0 else Max(Height(entries[0].value), MaxEntryHeight(entries[1..]))
  }

  /** The budget drops by two per level and wraps: an odd one never reaches zero. */
  predicate Enough(depth: nat, height: nat) {
    depth % 2 == 1 || 2 * height < depth
  }

  lemma {:induction false} FitsIff(v: Value, depth: nat)
    requires depth < TWO_32
    ensures Fits(v, depth) <==> Enough(depth, Height(v))
    decreases v, 1
  {
    if depth != 0 {
      var d := Down(Down(depth));
      match v
      case Arr(items) => AllFitIff(items, d);
      case Obj(entries) => AllEntriesFitIff(entries, d);
      case _ =>
    }
  }

  lemma {:induction false} AllFitIff(items: seq<Value>, depth: nat)
    requires depth < TWO_32
    ensures AllFit(items, depth) <==> items == [] || Enough(depth, MaxHeight(items))
    decreases items, 0
  {
    if items != [] {
      FitsIff(items[0], depth);
      AllFitIff(items[1..], depth);
    }
  }

  lemma {:induction false} AllEntriesFitIff(entries: seq<Entry>, depth: nat)
    requires depth < TWO_32
    ensures AllEntriesFit(entries, depth) <==> entries == [] || Enough(depth, MaxEntryHeight(entries))
    decreases entries, 0
  {
    if entries != [] {
      FitsIff(entries[0].value, depth);
      AllEntriesFitIff(entries[1..], depth);
    }
  }

  // ---------------------------------------------------------------- scalars

  /** What may follow a value: nothing, white space, a comma or a closing bracket. */
  predicate Ends(rest: seq<byte>) {
    rest == [] || IsSpace(rest[0]) || rest[0] == COMMA || rest[0] == RBRACKET || rest[0] == RBRACE
  }

  /** What a value starts with: nothing that the loops of the reader would step over. */
  predicate Starts(t: seq<byte>) {
    t != [] && !IsSpace(t[0]) && t[0] != NUL && t[0] != COMMA && t[0] != RBRACKET && t[0] != RBRACE
  }

  lemma {:induction false} NumberCharsOfDigits(digits: seq<byte>, rest: seq<byte>)
    requires AllDigits(digits) && Ends(rest)
    ensures NumberChars(digits + rest, false) == Some((digits, rest, false))
  {
    var t := digits + rest;
    if digits == [] {
      assert t == rest;
    } else {
      assert t[1..] == digits[1..] + rest;
      NumberCharsOfDigits(digits[1..], rest);
      assert [digits[0]] + digits[1..] == digits;
    }
  }

  lemma NumberReadsBack(i: int, rest: seq<byte>, reals: Reals)
    requires -TWO_63 <= i < TWO_64 && Ends(rest)
    ensures Starts(IntText(i)) && (IntText(i)[0] == MINUS || IsDigit(IntText(i)[0]))
    ensures NumberFrom(IntText(i) + rest, reals) == Parsed(if i < 0 then Int64(i) else Uint64(i), rest)
  {
    hide NumberChars, NatOf, DigitsOf, TokenString;
    var n: nat := if i < 0 then -i else i;
    var digits := DigitsOf(n);
    var t := IntText(i) + rest;
    NumberCharsOfDigits(digits, rest);
    NatOfDigitsOf(n);
    assert IsDigit(digits[0]) && digits != [DOT];
    if i < 0 {
      assert t[1..] == digits + rest;
    } else {
      assert t[0] == digits[0];
    }
  }

  lemma WordReadsBack(word: seq<byte>, rest: seq<byte>)
    requires word == TEXT_NULL || word == TEXT_TRUE || word == TEXT_FALSE
    requires Ends(rest)
    ensures WordFrom(word + rest) == Parsed(if word == TEXT_NULL then Null else Bool(word == TEXT_TRUE), rest)
  {
    WordLengthOf(word, rest);
    var t := word + rest;
    assert t[..|word|] == word && t[|word|..] == rest;
  }

  lemma {:induction false} WordLengthOf(word: seq<byte>, rest: seq<byte>)
    requires Ends(rest) && forall i :: 0 <= i < |word| ==> IsWordByte(word[i])
    ensures WordLength(word + rest) == |word|
  {
    var t := word + rest;
    if word == [] {
      assert t == rest;
    } else {
      assert t[1..] == word[1..] + rest;
      WordLengthOf(word[1..], rest);
    }
  }

  /** A stringified integer reads back as the string of its digits. */
  lemma QuotedNumberReadsBack(i: int, rest: seq<byte>)
    ensures StringLiteral([QUOTE] + IntText(i) + [QUOTE] + rest) == Parsed(IntText(i), rest)
  {
    var digits := IntText(i);
    BodyCopies(digits, [QUOTE] + rest);
    var t := [QUOTE] + digits + [QUOTE] + rest;
    assert t[1..] == digits + ([QUOTE] + rest);
    assert ([QUOTE] + rest)[1..] == rest;
    assert digits + [] == digits;
  }

  lemma SkipNothing(t: seq<byte>)
    requires Starts(t)
    ensures SkipSpace(t) == Some(t)
  {
  }

  lemma ScalarReadsBack(v: Value, stringify: bool, depth: nat, rest: seq<byte>, reals: Reals)
    requires WellTyped(v) && !IsContainer(v) && Ends(rest)
    ensures Starts(ScalarText(v, stringify))
    ensures depth != 0
        ==> ValueFrom(ScalarText(v, stringify) + rest, depth, reals) == Parsed(Canon(v, stringify), rest)
  {
    hide NumberFrom, WordFrom, StringLiteral, Escaped, IntText, Respell;
    var text := ScalarText(v, stringify);
    match v
    case Null => WordReadsBack(text, rest);
    case Bool(b) => WordReadsBack(text, rest);
    case Int64(i) => IntReadsBack(i, stringify, depth, rest, reals);
    case Uint64(u) => IntReadsBack(u, stringify, depth, rest, reals);
    case Str(s) =>
      LiteralReadsBack(s, rest);
      SkipNothing(text + rest);
  }

  lemma IntReadsBack(i: int, stringify: bool, depth: nat, rest: seq<byte>, reals: Reals)
    requires -TWO_63 <= i < TWO_64 && Ends(rest)
    ensures Starts(NumberText(i, stringify))
    ensures depth != 0
        ==> ValueFrom(NumberText(i, stringify) + rest, depth, reals) == Parsed(CanonInt(i, stringify), rest)
  {
    hide NumberFrom, StringLiteral, IntText;
    var t := NumberText(i, stringify) + rest;
    if IsLarge(i, stringify) {
      QuotedNumberReadsBack(i, rest);
    } else {
      NumberReadsBack(i, rest, reals);
    }
    SkipNothing(t);
  }

  // ---------------------------------------------------------------- white space

  predicate AllSpace(g: seq<byte>) {
    forall i :: 0 <= i < |g| ==> IsSpace(g[i])
  }

  lemma {:induction false} SpacesAreSpace(n: nat)
    ensures AllSpace(Spaces(n))
  {
    if n > 0 {
      SpacesAreSpace(n - 1);
    }
  }

  lemma GapIsSpace(l: Layout, level: nat)
    ensures AllSpace(Gap(l, level))
  {
    if l.Pretty? {
      SpacesAreSpace(level * l.indent);
    }
  }

  lemma {:induction false} SkipGap(g: seq<byte>, t: seq<byte>)
    requires AllSpace(g) && t != [] && !IsSpace(t[0]) && t[0] != NUL
    ensures SkipSpace(g + t) == Some(t)
  {
    if g == [] {
      assert g + t == t;
    } else {
      assert (g + t)[1..] == g[1..] + t;
      SkipGap(g[1..], t);
    }
  }

  // White space in front of an item, a member or a value changes nothing.

  lemma ItemsSkip(t: seq<byte>, u: seq<byte>, depth: nat, reals: Reals)
    requires SkipSpace(t) == Some(u)
    ensures ItemsFrom(t, depth, reals) == ItemsFrom(u, depth, reals)
  {
    hide ValueFrom;
    assert |u| < |t| ==> IsSpace(t[0]);
  }

  lemma MembersSkip(t: seq<byte>, u: seq<byte>, depth: nat, entries: seq<Entry>, reals: Reals)
    requires SkipSpace(t) == Some(u)
    ensures MembersFrom(t, depth, entries, reals) == MembersFrom(u, depth, entries, reals)
  {
    hide MemberFrom;
    assert |u| < |t| ==> IsSpace(t[0]);
  }

  lemma ValueSkip(t: seq<byte>, u: seq<byte>, depth: nat, reals: Reals)
    requires SkipSpace(t) == Some(u) && SkipSpace(u) == Some(u)
    ensures ValueFrom(t, depth, reals) == ValueFrom(u, depth, reals)
  {
    hide StringLiteral, ObjectFrom, ArrayFrom, NumberFrom, WordFrom, SkipSpace;
  }

  // ---------------------------------------------------------------- one turn of each loop

  lemma ItemsTurn(t: seq<byte>, depth: nat, reals: Reals)
    requires Starts(t)
    ensures ItemsFrom(t, depth, reals) ==
      match ValueFrom(t, Down(depth), reals)
      case Fail => Fail
      case Parsed(v, rest) =>
        match SkipSpace(rest)
        case None => Fail
        case Some(w) => Push([v], ItemsFrom(w, depth, reals))
  {
    hide ValueFrom;
    SkipNothing(t);
  }

  lemma MembersTurn(t: seq<byte>, depth: nat, entries: seq<Entry>, reals: Reals)
    requires Starts(t)
    ensures MembersFrom(t, depth, entries, reals) ==
      var r := MemberFrom(t, depth, reals);
      if r.Fail? then Fail
      else MembersFrom(r.rest, depth, entries + [r.value], reals)
  {
    hide MemberFrom;
    SkipNothing(t);
  }

  lemma ItemsComma(t: seq<byte>, depth: nat, reals: Reals)
    ensures ItemsFrom([COMMA] + t, depth, reals) == ItemsFrom(t, depth, reals)
  {
    hide ValueFrom, SkipSpace;
    assert ([COMMA] + t)[1..] == t;
  }

  lemma MembersComma(t: seq<byte>, depth: nat, entries: seq<Entry>, reals: Reals)
    ensures MembersFrom([COMMA] + t, depth, entries, reals) == MembersFrom(t, depth, entries, reals)
  {
    hide MemberFrom, SkipSpace;
    assert ([COMMA] + t)[1..] == t;
  }

  lemma ItemsEnd(close: seq<byte>, rest: seq<byte>, depth: nat, reals: Reals)
    requires AllSpace(close)
    ensures SkipSpace(close + [RBRACKET] + rest).Some?
    ensures ItemsFrom(close + [RBRACKET] + rest, depth, reals) == Parsed([], rest)
  {
    var t := [RBRACKET] + rest;
    assert close + [RBRACKET] + rest == close + t;
    SkipGap(close, t);
    ItemsSkip(close + t, t, depth, reals);
    assert t[1..] == rest;
  }

  lemma MembersEnd(close: seq<byte>, rest: seq<byte>, depth: nat, entries: seq<Entry>, reals: Reals)
    requires AllSpace(close)
    ensures MembersFrom(close + [RBRACE] + rest, depth, entries, reals) == Parsed(entries, rest)
  {
    var t := [RBRACE] + rest;
    assert close + [RBRACE] + rest == close + t;
    SkipGap(close, t);
    MembersSkip(close + t, t, depth, entries, reals);
    assert t[1..] == rest;
  }

  // ---------------------------------------------------------------- containers

  lemma RenderStarts(v: Value, l: Layout, level: nat, stringify: bool)
    requires WellTyped(v)
    ensures Starts(Render(v, l, level, stringify))
  {
    if !IsContainer(v) {
      ScalarReadsBack(v, stringify, 1, [], AsText);
    }
  }

  lemma RegroupItem(gap: seq<byte>, x: seq<byte>, sep: seq<byte>, more: seq<byte>, close: seq<byte>, rest: seq<byte>)
    ensures gap + x + sep + more + close + [RBRACKET] + rest == gap + (x + (sep + (more + close + [RBRACKET] + rest)))
  {
  }

  /** The pieces of the text of a non-empty run of items: gap, first item, what follows it, the other items. */
  lemma ItemsSplit(items: seq<Value>, l: Layout, level: nat, stringify: bool, close: seq<byte>, rest: seq<byte>)
    requires items != [] && AllWellTyped(items)
    ensures WellTyped(items[0]) && AllWellTyped(items[1..])
    ensures RenderItems(items, l, level, stringify) + close + [RBRACKET] + rest
         == ItemGap(items[0], l, level)
            + (Render(items[0], l, level, stringify)
               + (Separator(|items|) + (RenderItems(items[1..], l, level, stringify) + close + [RBRACKET] + rest)))
    ensures |items| == 1
        ==> RenderItems(items[1..], l, level, stringify) + close + [RBRACKET] + rest == close + [RBRACKET] + rest
  {
    hide Render, ItemGap, Separator;
    var more := RenderItems(items[1..], l, level, stringify);
    RegroupItem(ItemGap(items[0], l, level), Render(items[0], l, level, stringify), Separator(|items|), more, close,
        rest);
    if |items| == 1 {
      assert more == [];
      assert more + close == close;
    }
  }

  lemma {:induction false} ReadsBack(v: Value, l: Layout, level: nat, stringify: bool, depth: nat, rest: seq<byte>,
      reals: Reals)
    requires WellTyped(v) && Ends(rest)
    ensures ValueFrom(Render(v, l, level, stringify) + rest, depth, reals)
         == if Fits(v, depth) then Parsed(Canon(v, stringify), rest) else Fail
    decreases v, 1
  {
    if !IsContainer(v) {
      ScalarReadsBack(v, stringify, depth, rest, reals);
    } else if depth != 0 {
      RenderStarts(v, l, level, stringify);
      SkipNothing(Render(v, l, level, stringify) + rest);
      match v
      case Arr(items) =>
        ArrayReadsBack(items, l, level, stringify, Down(depth), rest, reals);
        hide ArrayFrom, Render;
      case Obj(entries) =>
        ObjectReadsBack(entries, l, level, stringify, Down(depth), rest, reals);
        hide ObjectFrom, Render;
    }
  }

  lemma ArrayBody(items: seq<Value>, l: Layout, level: nat, stringify: bool, rest: seq<byte>)
    requires AllWellTyped(items)
    ensures var t := Render(Arr(items), l, level, stringify) + rest;
      t[0] == LBRACKET
      && t[1..] == RenderItems(items, l, level + 1, stringify) + (if items == [] then [] else Gap(l, level))
          + [RBRACKET] + rest
  {
    hide RenderItems, Gap;
  }

  lemma ObjectBody(entries: seq<Entry>, l: Layout, level: nat, stringify: bool, rest: seq<byte>)
    requires AllEntriesWellTyped(entries)
    ensures var t := Render(Obj(entries), l, level, stringify) + rest;
      t[0] == LBRACE
      && t[1..] == RenderEntries(entries, l, level + 1, stringify) + (if entries == [] then [] else Gap(l, level))
          + [RBRACE] + rest
  {
    hide RenderEntries, Gap;
  }

  lemma {:induction false} ArrayReadsBack(items: seq<Value>, l: Layout, level: nat, stringify: bool, depth: nat,
      rest: seq<byte>, reals: Reals)
    requires AllWellTyped(items) && Ends(rest)
    ensures var t := Render(Arr(items), l, level, stringify) + rest;
      t[0] == LBRACKET
      && ArrayFrom(t, depth, reals)
         == if AllFit(items, Down(depth)) then Parsed(CanonItems(items, stringify), rest) else Fail
    decreases items, 2
  {
    ArrayBody(items, l, level, stringify, rest);
    hide ItemsFrom, Render, RenderItems, SkipSpace, Gap, AllFit, CanonItems;
    var t := Render(Arr(items), l, level, stringify) + rest;
    var close := if items == [] then [] else Gap(l, level);
    GapIsSpace(l, level);
    ItemsReadBack(items, l, level + 1, stringify, depth, close, rest, reals);
    ItemsSkip(t[1..], SkipSpace(t[1..]).value, depth, reals);
  }

  lemma {:induction false} ItemsReadBack(items: seq<Value>, l: Layout, level: nat, stringify: bool,
                                         depth: nat, close: seq<byte>, rest: seq<byte>, reals: Reals)
    requires AllWellTyped(items) && AllSpace(close) && Ends(rest)
    ensures var t := RenderItems(items, l, level, stringify) + close + [RBRACKET] + rest;
      SkipSpace(t).Some?
      && ItemsFrom(t, depth, reals)
         == if AllFit(items, Down(depth)) then Parsed(CanonItems(items, stringify), rest) else Fail
    decreases items, 1
  {
    if items == [] {
      ItemsEnd(close, rest, depth, reals);
      assert RenderItems(items, l, level, stringify) + close + [RBRACKET] + rest == close + [RBRACKET] + rest;
    } else {
      hide ItemsFrom, Render, RenderItems, SkipSpace, Canon, ValueFrom;
      ItemsSplit(items, l, level, stringify, close, rest);
      var more := RenderItems(items[1..], l, level, stringify) + close + [RBRACKET] + rest;
      var tail := Separator(|items|) + more;
      var x := Render(items[0], l, level, stringify) + tail;
      var gap := ItemGap(items[0], l, level);
      RenderStarts(items[0], l, level, stringify);
      GapIsSpace(l, level);
      SkipGap(gap, x);
      ItemsSkip(gap + x, x, depth, reals);
      ItemsTurn(x, depth, reals);
      ItemsReadBack(items[1..], l, level, stringify, depth, close, rest, reals);
      TailOfItem(|items|, close, more, rest);
      ReadsBack(items[0], l, level, stringify, Down(depth), tail, reals);
      if Fits(items[0], Down(depth)) {
        ItemsSkip(tail, SkipSpace(tail).value, depth, reals);
        if |items| > 1 {
          ItemsComma(more, depth, reals);
        } else {
          assert tail == more;
        }
      }
    }
  }

  lemma TailOfItem(n: nat, close: seq<byte>, more: seq<byte>, rest: seq<byte>)
    requires n >= 1 && AllSpace(close) && (n == 1 ==> more == close + [RBRACKET] + rest)
    ensures Ends(Separator(n) + more) && SkipSpace(Separator(n) + more).Some?
  {
    if n == 1 {
      assert Separator(n) + more == close + ([RBRACKET] + rest);
      SkipGap(close, [RBRACKET] + rest);
    } else {
      SkipGap([], [COMMA] + more);
      assert [] + ([COMMA] + more) == [COMMA] + more;
    }
  }

  lemma RegroupEntry(gap: seq<byte>, key: seq<byte>, colon: seq<byte>, x: seq<byte>, sep: seq<byte>, more: seq<byte>,
                     close: seq<byte>, rest: seq<byte>)
    ensures gap + key + colon + x + sep + more + close + [RBRACE] + rest
         == gap + (key + (colon + (x + (sep + (more + close + [RBRACE] + rest)))))
  {
  }

  lemma EntriesSplit(entries: seq<Entry>, l: Layout, level: nat, stringify: bool, close: seq<byte>, rest: seq<byte>)
    requires entries != [] && AllEntriesWellTyped(entries)
    ensures WellTyped(entries[0].value) && AllEntriesWellTyped(entries[1..])
    ensures RenderEntries(entries, l, level, stringify) + close + [RBRACE] + rest
         == Gap(l, level)
            + (QuotedText(entries[0].key)
               + (ColonText(l)
                  + (Render(entries[0].value, l, level, stringify)
                     + (Separator(|entries|)
                         + (RenderEntries(entries[1..], l, level, stringify) + close + [RBRACE] + rest)))))
    ensures |entries| == 1 ==>
              RenderEntries(entries[1..], l, level, stringify) + close + [RBRACE] + rest == close + [RBRACE] + rest
  {
    hide Render, QuotedText, Gap, Separator, ColonText;
    var more := RenderEntries(entries[1..], l, level, stringify);
    RegroupEntry(Gap(l, level), QuotedText(entries[0].key), ColonText(l), Render(entries[0].value, l, level, stringify),
                 Separator(|entries|), more, close, rest);
    if |entries| == 1 {
      assert more == [];
      assert more + close == close;
    }
  }

  /** A member: the key respelled, white space around the colon ignored, then the value. */
  lemma {:induction false} MemberReadsBack(e: Entry, l: Layout, level: nat, stringify: bool, depth: nat,
      tail: seq<byte>, reals: Reals)
    requires WellTyped(e.value) && Ends(tail)
    ensures var t := QuotedText(e.key) + (ColonText(l) + (Render(e.value, l, level, stringify) + tail));
      Starts(t)
      && MemberFrom(t, depth, reals)
         == if Fits(e.value, Down(depth)) then Parsed(Entry(Respell(e.key), Canon(e.value, stringify)), tail) else Fail
    decreases e, 2
  {
    hide StringLiteral, Escaped, ValueFrom, Render, Respell, Canon, Fits;
    var x := Render(e.value, l, level, stringify) + tail;
    var c := ColonText(l) + x;
    var t := QuotedText(e.key) + c;
    LiteralReadsBack(e.key, c);
    assert t == [QUOTE] + Escaped(e.key, true) + [QUOTE] + c;
    SkipNothing(c);
    RenderStarts(e.value, l, level, stringify);
    ReadsBack(e.value, l, level, stringify, Down(depth), tail, reals);
    SkipNothing(x);
    var gap := ColonText(l)[1..];
    assert c[1..] == gap + x;
    SkipGap(gap, x);
    ValueSkip(gap + x, x, Down(depth), reals);
  }

  lemma {:induction false} ObjectReadsBack(entries: seq<Entry>, l: Layout, level: nat, stringify: bool, depth: nat,
      rest: seq<byte>, reals: Reals)
    requires AllEntriesWellTyped(entries) && Ends(rest)
    ensures var t := Render(Obj(entries), l, level, stringify) + rest;
      t[0] == LBRACE
      && ObjectFrom(t, depth, reals)
         == if AllEntriesFit(entries, Down(depth)) then Parsed(CanonEntries(entries, stringify), rest) else Fail
    decreases entries, 2
  {
    ObjectBody(entries, l, level, stringify, rest);
    hide MembersFrom, Render, RenderEntries, Gap, AllEntriesFit, CanonEntries, WellTyped, AllEntriesWellTyped;
    var t := Render(Obj(entries), l, level, stringify) + rest;
    var close := if entries == [] then [] else Gap(l, level);
    GapIsSpace(l, level);
    EntriesReadBack(entries, l, level + 1, stringify, depth, close, rest, [], reals);
    Appended([], Entry([], Null), CanonEntries(entries, stringify));
  }

  lemma {:induction false} EntriesReadBack(entries: seq<Entry>, l: Layout, level: nat, stringify: bool, depth: nat,
                                           close: seq<byte>, rest: seq<byte>, before: seq<Entry>, reals: Reals)
    requires AllEntriesWellTyped(entries) && AllSpace(close) && Ends(rest)
    ensures var t := RenderEntries(entries, l, level, stringify) + close + [RBRACE] + rest;
      MembersFrom(t, depth, before, reals)
      == if AllEntriesFit(entries, Down(depth)) then Parsed(before + CanonEntries(entries, stringify), rest) else Fail
    decreases entries, 1
  {
    if entries == [] {
      MembersEnd(close, rest, depth, before, reals);
      assert before + [] == before;
      assert RenderEntries(entries, l, level, stringify) + close + [RBRACE] + rest == close + [RBRACE] + rest;
    } else {
      hide MembersFrom, Render, RenderEntries, SkipSpace, Canon, MemberFrom, Respell, QuotedText;
      hide CanonEntries, AllEntriesFit;
      EntriesStep(entries, before, stringify, Down(depth));
      EntriesSplit(entries, l, level, stringify, close, rest);
      var e := entries[0];
      var more := RenderEntries(entries[1..], l, level, stringify) + close + [RBRACE] + rest;
      var tail := Separator(|entries|) + more;
      TailOfEntry(|entries|, close, more, rest);
      MemberReadsBack(e, l, level, stringify, depth, tail, reals);
      var x := QuotedText(e.key) + (ColonText(l) + (Render(e.value, l, level, stringify) + tail));
      var gap := Gap(l, level);
      GapIsSpace(l, level);
      SkipGap(gap, x);
      MembersSkip(gap + x, x, depth, before, reals);
      MembersTurn(x, depth, before, reals);
      if Fits(e.value, Down(depth)) {
        var canon := Entry(Respell(e.key), Canon(e.value, stringify));
        var after := before + [canon];
        EntriesReadBack(entries[1..], l, level, stringify, depth, close, rest, after, reals);
        if |entries| > 1 {
          MembersComma(more, depth, after, reals);
        } else {
          assert tail == more;
        }
      }
    }
  }

  lemma EntriesStep(entries: seq<Entry>, before: seq<Entry>, stringify: bool, depth: nat)
    requires entries != []
    ensures var canon := Entry(Respell(entries[0].key), Canon(entries[0].value, stringify));
      before + CanonEntries(entries, stringify) == (before + [canon]) + CanonEntries(entries[1..], stringify)
    ensures AllEntriesFit(entries, depth) == (Fits(entries[0].value, depth) && AllEntriesFit(entries[1..], depth))
  {
    CanonEntriesStep(entries, stringify);
    AllEntriesFitStep(entries, depth);
    hide *;
    var canon := Entry(Respell(entries[0].key), Canon(entries[0].value, stringify));
    Appended(before, canon, CanonEntries(entries[1..], stringify));
  }

  lemma CanonEntriesStep(entries: seq<Entry>, stringify: bool)
    requires entries != []
    ensures CanonEntries(entries, stringify)
         == [Entry(Respell(entries[0].key), Canon(entries[0].value, stringify))] + CanonEntries(entries[1..], stringify)
  {
    hide Respell, Canon;
  }

  lemma AllEntriesFitStep(entries: seq<Entry>, depth: nat)
    requires entries != []
    ensures AllEntriesFit(entries, depth) == (Fits(entries[0].value, depth) && AllEntriesFit(entries[1..], depth))
  {
    hide Fits;
  }

  lemma Appended(before: seq<Entry>, e: Entry, rest: seq<Entry>)
    ensures before + ([e] + rest) == (before + [e]) + rest
    ensures [] + rest == rest
  {
  }

  lemma TailOfEntry(n: nat, close: seq<byte>, more: seq<byte>, rest: seq<byte>)
    requires n >= 1 && AllSpace(close) && (n == 1 ==> more == close + [RBRACE] + rest)
    ensures Ends(Separator(n) + more)
  {
    if n == 1 {
      assert Separator(n) + more == close + ([RBRACE] + rest);
    }
  }

  // ---------------------------------------------------------------- the round trip

  /** The reader gives back the canonical tree and consumes the whole text, compact or pretty,
      exactly when the depth budget is odd or more than twice the height of the tree. */
  lemma RoundTrip(v: Value, l: Layout, stringify: bool, depth: nat, reals: Reals)
    requires WellTyped(v) && depth < TWO_32
    ensures ValueFrom(Render(v, l, 0, stringify), depth, reals)
         == if Enough(depth, Height(v)) then Parsed(Canon(v, stringify), []) else Fail
  {
    hide *;
    var t := Render(v, l, 0, stringify);
    assert t + [] == t;
    NothingEnds();
    ReadsBack(v, l, 0, stringify, depth, [], reals);
    FitsIff(v, depth);
  }

  lemma NothingEnds()
    ensures Ends([])
  {
  }
}
