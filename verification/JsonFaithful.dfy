/** Which trees survive printing and reading unchanged: exactly the faithful ones. */
module JsonFaithful {
  import opened Bytes
  import opened Sanitizer
  import opened JsonStrings
  import opened JsonGrammar
  import opened JsonPrinter
  import opened JsonRoundTrip

  /** Non-negative integers unsigned and small enough for the format, strings and keys plain. */
  ghost predicate Faithful(v: Value, stringify: bool)
    decreases v
  {
    match v
    case Int64(i) => i < 0
    case Uint64(u) => !IsLarge(u, stringify)
    case Str(s) => Plain(s)
    case Arr(items) => forall i :: 0 <= i < |items| ==> Faithful(items[i], stringify)
    case Obj(entries) =>
      forall i :: 0 <= i < |entries| ==> Plain(entries[i].key) && Faithful(entries[i].value, stringify)
    case _ => true
  }

  // ---------------------------------------------------------------- the canonical form is faithful

  lemma NumeralIsPlain(i: int)
    ensures Plain(IntText(i))
  {
    AsciiIsClean(IntText(i));
  }

  lemma {:induction false} CanonIsFaithful(v: Value, stringify: bool)
    ensures Faithful(Canon(v, stringify), stringify)
    decreases v, 1
  {
    hide Plain, IntText, Respell;
    match v
    case Int64(i) => NumeralIsPlain(i);
    case Uint64(u) => NumeralIsPlain(u);
    case Str(s) => RespellIsPlain(s);
    case Arr(items) => CanonItemsAreFaithful(items, stringify);
    case Obj(entries) => CanonEntriesAreFaithful(entries, stringify);
    case _ =>
  }

  lemma {:induction false} CanonItemsAreFaithful(items: seq<Value>, stringify: bool)
    ensures Faithful(Arr(CanonItems(items, stringify)), stringify)
    decreases items, 0
  {
    if items != [] {
      hide Canon;
      CanonIsFaithful(items[0], stringify);
      CanonItemsAreFaithful(items[1..], stringify);
    }
  }

  lemma {:induction false} CanonEntriesAreFaithful(entries: seq<Entry>, stringify: bool)
    ensures Faithful(Obj(CanonEntries(entries, stringify)), stringify)
    decreases entries, 0
  {
    if entries != [] {
      hide Canon, Respell, Plain;
      RespellIsPlain(entries[0].key);
      CanonIsFaithful(entries[0].value, stringify);
      CanonEntriesAreFaithful(entries[1..], stringify);
    }
  }

  // ---------------------------------------------------------------- faithful trees are canonical

  lemma {:induction false} FaithfulIsCanonical(v: Value, stringify: bool)
    requires Faithful(v, stringify)
    ensures Canon(v, stringify) == v
    decreases v, 0, 1
  {
    match v
    case Str(s) => PlainIsKept(s);
    case Arr(items) =>
      FaithfulItems(v, 0, stringify);
      assert items[0..] == items;
    case Obj(entries) =>
      FaithfulEntries(v, 0, stringify);
      assert entries[0..] == entries;
    case _ =>
  }

  lemma {:induction false} FaithfulItems(v: Value, n: nat, stringify: bool)
    requires v.Arr? && Faithful(v, stringify) && n <= |v.items|
    ensures CanonItems(v.items[n..], stringify) == v.items[n..]
    decreases v, 0, 0, |v.items| - n
  {
    if n < |v.items| {
      hide Canon;
      FaithfulIsCanonical(v.items[n], stringify);
      FaithfulItems(v, n + 1, stringify);
      assert v.items[n..][1..] == v.items[n + 1..];
      assert v.items[n..] == [v.items[n]] + v.items[n + 1..];
    }
  }

  lemma {:induction false} FaithfulEntries(v: Value, n: nat, stringify: bool)
    requires v.Obj? && Faithful(v, stringify) && n <= |v.entries|
    ensures CanonEntries(v.entries[n..], stringify) == v.entries[n..]
    decreases v, 0, 0, |v.entries| - n
  {
    if n < |v.entries| {
      hide Canon, Respell, Plain;
      var e := v.entries[n];
      PlainIsKept(e.key);
      FaithfulIsCanonical(e.value, stringify);
      FaithfulEntries(v, n + 1, stringify);
      assert v.entries[n..][1..] == v.entries[n + 1..];
      assert v.entries[n..] == [e] + v.entries[n + 1..];
    }
  }

  lemma CanonicalIffFaithful(v: Value, stringify: bool)
    ensures Canon(v, stringify) == v <==> Faithful(v, stringify)
  {
    hide *;
    if Faithful(v, stringify) {
      FaithfulIsCanonical(v, stringify);
    } else {
      CanonIsFaithful(v, stringify);
    }
  }

  /** A second trip changes nothing. */
  lemma CanonIsIdempotent(v: Value, stringify: bool)
    ensures Canon(Canon(v, stringify), stringify) == Canon(v, stringify)
  {
    hide *;
    CanonIsFaithful(v, stringify);
    FaithfulIsCanonical(Canon(v, stringify), stringify);
  }

  /** Repeated keys come back, each with its own value. */
  lemma RepeatedKeysAreKept(key: seq<byte>, u: nat, w: nat)
    requires Plain(key) && u <= 0xFFFF_FFFF && w <= 0xFFFF_FFFF
    ensures var v := Obj([Entry(key, Uint64(u)), Entry(key, Uint64(w))]);
      forall stringify: bool :: Canon(v, stringify) == v
  {
    var v := Obj([Entry(key, Uint64(u)), Entry(key, Uint64(w))]);
    hide Plain, Canon;
    forall stringify: bool ensures Canon(v, stringify) == v {
      FaithfulIsCanonical(v, stringify);
    }
  }
}
