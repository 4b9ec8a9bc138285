/** The codebook is complete: the longest fragment in front of the input is found, whatever the input. */
module SmazComplete {
  import opened Bytes
  import opened Options
  import opened Smaz
  import opened SmazTables
  import opened SmazPlaces

  // ---------------------------------------------------------------- the search

  lemma TextsDiffer(a: string, b: string)
    requires Plain(a) && Plain(b) && Differ(a, b)
    ensures Ascii(a) != Ascii(b)
  {
    if |a| == |b| {
      var x, y := Ascii(a), Ascii(b);
      assert |x| == |y| && (x[0] != y[0] || (|a| >= 2 && x[1] != y[1]) || (|a| >= 3 && x[2] != y[2])
             || (|a| >= 4 && x[3] != y[3]));
    }
  }

  lemma ScanOfEntries(e: Entry, more: seq<Entry>, input: seq<byte>, j: nat)
    requires Confirmed(e) && (forall k :: 0 <= k < |more| ==> Confirmed(more[k])) && j <= |input|
    ensures |Texts()| == 254 && SlotAgrees(Raw(more), Texts()) && SlotAgrees(Raw([e] + more), Texts())
    ensures Scan(Raw([e] + more), Texts(), input, j)
         == if |e.text| == j && Ascii(e.text) == input[..j] then Some(e.code)
            else Scan(Raw(more), Texts(), input, j)
  {
    WordsLength();
    RawAgrees(more);
    var all := [e] + more;
    assert all[0] == e && all[1..] == more;
    RawAgrees(all);
    hide Confirmed, Texts, SlotAgrees;
    assert Raw(all) == RawEntry(e) + Raw(more);
    EntryParts(e, Raw(more));
    ScanStep(Raw(all), 0, Texts(), input, j);
    assert Raw(all)[0..] == Raw(all);
  }

  lemma EntryParts(e: Entry, rest: seq<byte>)
    requires Confirmed(e)
    ensures var raw, n := RawEntry(e) + rest, |e.text|;
      n >= 1 && |raw| >= n + 2 && raw[0] as nat == n && raw[n + 1] == e.code && raw[1..n + 1] == Ascii(e.text)
      && raw[n + 2..] == rest
  {
    hide Ascii, Word;
    FirstAgrees(e, rest);
    var raw, n := RawEntry(e) + rest, |e.text|;
    assert raw[1..n + 1] == Ascii(e.text);
  }

  predicate Usual(entries: seq<Entry>) {
    forall k :: 0 <= k < |entries| ==> Confirmed(entries[k]) && Plain(entries[k].text)
  }

  /** Scanning a slot stops at the first entry with the text that is asked for. */
  lemma {:induction false} ScanFinds(entries: seq<Entry>, i: nat, text: string, c: nat, input: seq<byte>)
    requires Usual(entries) && Plain(text) && FirstAt(entries, i, text, c)
    requires |text| <= |input| && input[..|text|] == Ascii(text)
    ensures |Texts()| == 254 && SlotAgrees(Raw(entries), Texts())
    ensures Scan(Raw(entries), Texts(), input, |text|) == Some(c as byte)
    decreases i
  {
    var e, more := entries[0], entries[1..];
    assert entries == [e] + more;
    ScanOfEntries(e, more, input, |text|);
    hide Raw, Texts, SlotAgrees, Scan, Ascii, Confirmed, Plain;
    if i > 0 {
      TextsDiffer(e.text, text);
      ScanFinds(more, i - 1, text, c, input);
    }
  }

  lemma SlotIsUsual(h: nat)
    requires h < SLOTS
    ensures Usual(Slot(h))
  {
    SlotIsConfirmed(h);
    hide Slot, Word, Plain;
    forall k | 0 <= k < |Slot(h)| ensures Plain(Slot(h)[k].text) {
      assert Confirmed(Slot(h)[k]);
      EveryFragmentIsPlaced(Slot(h)[k].code as nat);
    }
  }

  lemma CharOfPrefix(text: string, input: seq<byte>, k: nat)
    requires Plain(text) && |text| <= |input| && input[..|text|] == Ascii(text) && k < |text|
    ensures Widened(input[k]) == text[k] as nat < 128
  {
    assert input[k] == Ascii(text)[k];
  }

  lemma HashOfPrefix(text: string, input: seq<byte>)
    requires Plain(text) && |text| <= |input| && input[..|text|] == Ascii(text)
    ensures Hash(input, |text|) == HashOfText(text)
  {
    hide XorWord, Ascii, Widened;
    CharOfPrefix(text, input, 0);
    if |text| >= 2 {
      CharOfPrefix(text, input, 1);
    }
    if |text| >= 3 {
      CharOfPrefix(text, input, 2);
    }
  }

  /** A fragment in front of the input is found when the search comes to its length. */
  lemma FragmentIsFound(c: nat, input: seq<byte>)
    requires c < 254 && Ascii(Word(c)) <= input
    ensures |Word(c)| >= 1 && Agrees(Tables())
    ensures var n := |Word(c)|;
      Scan(Tables().slots[Hash(input, n) % SLOTS], Tables().words, input, n) == Some(c as byte)
  {
    EveryFragmentIsPlaced(c);
    var text, h := Word(c), HashOfText(Word(c)) % SLOTS;
    var i :| FirstAt(Slot(h), i, text, c);
    assert input[..|text|] == Ascii(text);
    HashOfPrefix(text, input);
    SlotIsUsual(h);
    TablesAgree();
    hide Word, Slot, HashOfText, Hash, Ascii, Scan, SlotAgrees, Raw, Usual, FirstAt;
    ScanFinds(Slot(h), i, text, c, input);
  }

  predicate StartsWith(input: seq<byte>, c: nat) {
    c < 254 && Ascii(Word(c)) <= input
  }

  /** A match that is longer than code c, or is code c. */
  predicate Covers(r: Option<Match>, c: nat) {
    r.Some? && |Word(c)| <= r.value.length && (r.value.length == |Word(c)| ==> r.value.code as nat == c)
  }

  lemma {:induction false} LongestCovers(cb: Codebook, input: seq<byte>, n: nat, code: byte, j: nat)
    requires Agrees(cb) && 1 <= n <= j <= |input|
    requires Scan(cb.slots[Hash(input, n) % SLOTS], cb.words, input, n) == Some(code)
    ensures var r := Longest(cb, input, j);
      r.Some? && n <= r.value.length && (r.value.length == n ==> r.value.code == code)
    decreases j
  {
    hide Hash, Scan, SlotAgrees;
    if j > n {
      LongestCovers(cb, input, n, code, j - 1);
    }
  }

  lemma LookupCovers(input: seq<byte>, c: nat)
    requires StartsWith(input, c)
    ensures Agrees(Tables()) && Covers(Lookup(Tables(), input), c)
  {
    FragmentFits(input, c);
    FragmentIsFound(c, input);
    hide Word, Tables, Agrees, Ascii, Longest, Hash, Scan;
    LongestCovers(Tables(), input, |Word(c)|, c as byte, Limit(input));
  }

  /** A match that is a fragment, and as long as this says. */
  predicate IsFragment(m: Match, input: seq<byte>) {
    StartsWith(input, m.code as nat) && |Word(m.code as nat)| == m.length
  }

  /**
    The hash table is only a short cut: a match is found exactly when some fragment is a prefix of
    the input, and it is the longest of those.
   */
  lemma LookupIsLongest(input: seq<byte>)
    ensures Agrees(Tables())
    ensures Lookup(Tables(), input).None? <==> forall c: nat :: !StartsWith(input, c)
    ensures Lookup(Tables(), input).Some? ==> IsFragment(Lookup(Tables(), input).value, input)
    ensures forall c: nat :: StartsWith(input, c) ==> Covers(Lookup(Tables(), input), c)
  {
    TablesAgree();
    hide *;
    if Lookup(Tables(), input).Some? {
      LookupIsFragment(input);
      IsFragmentIs(Lookup(Tables(), input).value, input);
    }
    forall c: nat | StartsWith(input, c)
      ensures Lookup(Tables(), input).Some? && Covers(Lookup(Tables(), input), c)
    {
      LookupCovers(input, c);
      CoversSome(Lookup(Tables(), input), c);
    }
  }

  lemma IsFragmentIs(m: Match, input: seq<byte>)
    requires IsFragment(m, input)
    ensures StartsWith(input, m.code as nat)
  {
  }

  lemma CoversSome(r: Option<Match>, c: nat)
    requires Covers(r, c)
    ensures r.Some?
  {
  }

  lemma LookupIsFragment(input: seq<byte>)
    requires Agrees(Tables()) && Lookup(Tables(), input).Some?
    ensures IsFragment(Lookup(Tables(), input).value, input)
  {
    LongestIsSound(Tables(), input, Limit(input));
    WordsAre();
    hide Tables, Agrees, Longest, Word, Ascii;
  }

  lemma FragmentFits(input: seq<byte>, c: nat)
    requires StartsWith(input, c)
    ensures |Word(c)| <= Limit(input) <= |input|
  {
    EveryFragmentIsPlaced(c);
    hide Word, HashOfText, Slot;
  }

  lemma WordsAre()
    ensures |Tables().words| == 254 && forall c: nat :: c < 254 ==> Tables().words[c] == Ascii(Word(c))
  {
    hide Word, Ascii;
  }

  // ---------------------------------------------------------------- what is written

  /** Every fragment of the codebook compresses to its one code byte. */
  lemma FragmentIsOneByte(c: nat)
    requires c < 254
    ensures Agrees(Tables()) && Compressed(Tables(), Ascii(Word(c))) == [c as byte]
  {
    var input := Ascii(Word(c));
    LookupIsLongest(input);
    assert StartsWith(input, c);
    hide Word, Tables, Agrees, Ascii, Longest, Lookup;
    CompressedIs(Tables(), input);
    UnfoldEncode(Tables(), input, []);
    EncodeNothing(Tables());
  }

  lemma SomeFragments()
    ensures Agrees(Tables())
    ensures Compressed(Tables(), Ascii("the")) == [1] && Compressed(Tables(), Ascii("http://")) == [67]
    ensures Compressed(Tables(), Ascii(" ")) == [0] && Compressed(Tables(), Ascii(".com")) == [253]
  {
    assert Word(1) == "the" && Word(67) == "http://" && Word(0) == " " && Word(253) == ".com";
    hide *;
    FragmentIsOneByte(1);
    FragmentIsOneByte(67);
    FragmentIsOneByte(0);
    FragmentIsOneByte(253);
  }

  /** No fragment starts anywhere in the input. */
  predicate Unmatched(input: seq<byte>) {
    forall i, c: nat :: 0 <= i < |input| && c < 254 ==> !StartsWith(input[i..], c)
  }

  /** A run of verbatim bytes: 254 and the byte, or 255, one less than the length, and the bytes. */
  function Verbatim(v: seq<byte>): seq<byte>
    requires 1 <= |v| <= 256
  {
    if |v| == 1 then [254, v[0]] else [255, (|v| - 1) as byte] + v
  }

  /** Text without fragments is copied in runs of 256 bytes, the last one shorter. */
  lemma UnmatchedIsVerbatim(input: seq<byte>)
    requires Unmatched(input) && input != []
    ensures Agrees(Tables())
    ensures |input| <= 256 ==> Compressed(Tables(), input) == Verbatim(input)
    ensures |input| > 256
      ==> Compressed(Tables(), input) == Verbatim(input[..256]) + Compressed(Tables(), input[256..])
  {
    TablesAgree();
    hide Tables, Agrees, Encode, StartsWith;
    var n := if |input| <= 256 then |input| else 256;
    RunIsWritten(input, [], n);
    assert [] + input[..n] == input[..n];
    if n == |input| {
      assert input[n..] == [] && input[..n] == input;
      EncodeNothing(Tables());
      assert Verbatim(input) + [] == Verbatim(input);
    }
  }

  lemma {:induction false} RunIsWritten(input: seq<byte>, verb: seq<byte>, n: nat)
    requires Agrees(Tables()) && Unmatched(input) && |verb| < 256 && n <= |input|
    requires n == if |verb| + |input| <= 256 then |input| else 256 - |verb|
    ensures Encode(Tables(), input, verb) == Flush(verb + input[..n]) + Encode(Tables(), input[n..], [])
    decreases |input|
  {
    hide Tables, Agrees, Encode, StartsWith, Flush;
    if input == [] {
      EncodeEnd(Tables(), verb);
      EncodeNothing(Tables());
      assert verb + input[..n] == verb && input[n..] == [];
      assert Flush(verb) + [] == Flush(verb);
    } else {
      NoMatch(input);
      UnfoldEncode(Tables(), input, verb);
      assert n >= 1 && input[..n] == [input[0]] + input[1..][..n - 1] && input[n..] == input[1..][n - 1..];
      if |verb| == 255 || |input| == 1 {
        assert n == 1 && verb + input[..n] == verb + [input[0]];
      } else {
        assert Unmatched(input[1..]) by { RestUnmatched(input); }
        RunIsWritten(input[1..], verb + [input[0]], n - 1);
        assert verb + input[..n] == verb + [input[0]] + input[1..][..n - 1];
      }
    }
  }

  lemma NoMatch(input: seq<byte>)
    requires Unmatched(input) && input != []
    ensures Agrees(Tables()) && Lookup(Tables(), input).None?
  {
    LookupIsLongest(input);
    hide *;
    assert input[0..] == input;
    if Lookup(Tables(), input).Some? {
      var m := Lookup(Tables(), input).value;
      IsFragmentIs(m, input);
      MatchedAt(input, 0, m.code as nat);
    }
  }

  lemma MatchedAt(input: seq<byte>, i: nat, c: nat)
    requires Unmatched(input) && i < |input|
    ensures !StartsWith(input[i..], c)
  {
  }

  lemma RestUnmatched(input: seq<byte>)
    requires Unmatched(input) && input != []
    ensures Unmatched(input[1..])
  {
    hide StartsWith;
    forall i, c: nat | 0 <= i < |input[1..]| && c < 254 ensures !StartsWith(input[1..][i..], c) {
      assert input[1..][i..] == input[i + 1..];
      MatchedAt(input, i + 1, c);
    }
  }

  // ---------------------------------------------------------------- what is read

  /** What the decompressor makes of each unit, byte for byte. */
  lemma ExpandForms(cb: Codebook, c: byte, v: seq<byte>, rest: seq<byte>)
    requires Shaped(cb)
    ensures Expand(cb, []) == Some([])
    ensures c < 254 ==> Expand(cb, [c] + rest) == Prepend(cb.words[c], Expand(cb, rest))
    ensures Expand(cb, [254, c] + rest) == Prepend([c], Expand(cb, rest))
    ensures 1 <= |v| <= 256 ==> Expand(cb, [255, (|v| - 1) as byte] + v + rest) == Prepend(v, Expand(cb, rest))
    ensures |v| < c as nat + 1 ==> Expand(cb, [255, c] + v).None?
    ensures Expand(cb, [254]).None? && Expand(cb, [255]).None?
  {
    assert ([c] + rest)[1..] == rest && ([254, c] + rest)[2..] == rest;
    if 1 <= |v| <= 256 {
      var t := [255, (|v| - 1) as byte] + v + rest;
      assert t[2..|v| + 2] == v && t[|v| + 2..] == rest;
    }
  }
}
