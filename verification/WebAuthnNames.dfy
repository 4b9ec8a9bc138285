/** The names that the handler looks for. */
module WebAuthnNames {
  import opened Bytes
  import opened WebAuthn

  /** The three strings go where they belong, in whatever order they come. */
  lemma ThreeStrings(a: seq<byte>, b: seq<byte>, c: seq<byte>, f: Found)
    ensures Collect([Member(Ascii("challenge"), Text(a))], f) == Found(a, f.origin, f.typ)
    ensures Collect([Member(Ascii("origin"), Text(b))], f) == Found(f.challenge, b, f.typ)
    ensures Collect([Member(Ascii("type"), Text(c))], f) == Found(f.challenge, f.origin, c)
  {
    NamesAreStrings();
    NamesDiffer();
    hide Ascii, CString;
    OneMember(Member(Ascii("challenge"), Text(a)), f);
    OneMember(Member(Ascii("origin"), Text(b)), f);
    OneMember(Member(Ascii("type"), Text(c)), f);
  }

  lemma OneMember(m: Member, f: Found)
    ensures Collect([m], f) == if m.value.Text? then Store(f, StageFor(m.key), m.value.text) else f
  {
    assert [m][1..] == [];
  }

  lemma NamesDiffer()
    ensures Ascii("challenge") != Ascii("origin") && Ascii("challenge") != Ascii("type")
    ensures Ascii("origin") != Ascii("type")
  {
    assert |Ascii("challenge")| == 9 && |Ascii("origin")| == 6 && |Ascii("type")| == 4;
  }

  lemma NamesAreStrings()
    ensures CString(Ascii("challenge")) == Ascii("challenge") && CString(Ascii("origin")) == Ascii("origin")
    ensures CString(Ascii("type")) == Ascii("type")
  {
    NoNul(Ascii("challenge"));
    NoNul(Ascii("origin"));
    NoNul(Ascii("type"));
  }

  lemma {:induction false} NoNul(s: seq<byte>)
    requires forall i :: 0 <= i < |s| ==> s[i] != NUL
    ensures CString(s) == s
  {
    if s != [] {
      NoNul(s[1..]);
    }
  }

  /** Every other member is passed over, and only the part of a key before a NUL is looked at. */
  lemma OtherNames(m: Member, f: Found)
    ensures CString(m.key) !in [Ascii("challenge"), Ascii("origin"), Ascii("type")] || !m.value.Text?
      ==> Collect([m], f) == f
    ensures m.value.Text? && Ascii("type") + [NUL] <= m.key
      ==> Collect([m], f) == Found(f.challenge, f.origin, m.value.text)
  {
    OneMember(m, f);
    NamesDiffer();
    var t := Ascii("type");
    assert |t| == 4 && forall i :: 0 <= i < 4 ==> t[i] != NUL;
    hide Ascii;
    if t + [NUL] <= m.key {
      assert forall i :: 0 <= i < 5 ==> m.key[i] == (t + [NUL])[i];
      CStringEnds(m.key, 4);
      assert m.key[..4] == t;
    }
  }

  /** A document is accepted exactly when it is an object whose members of these names are all strings. */
  lemma AcceptsIs(d: Doc)
    ensures Accepts(d) <==> d.Record? && forall i :: 0 <= i < |d.members| ==>
              CString(d.members[i].key) in [Ascii("challenge"), Ascii("origin"), Ascii("type")]
              ==> d.members[i].value.Text?
  {
    hide Ascii, CString;
  }
}
