/**
  `pretty_print`: one pass over a text with four flags and a level. On the compact text of a
  tree it produces the indented layout of that tree.
 */
module JsonPretty {
  import opened Bytes
  import opened Arith
  import opened JsonPrinter

  // ---------------------------------------------------------------- the machine

  /** The loop's flags; `afterOpen` says that the character before was an opening bracket outside a string. */
  datatype State = State(level: int, first: bool, quote: bool, escape: bool, afterOpen: bool)

  const START := State(0, false, false, false, false)

  predicate IsOpening(c: byte) {
    c == LBRACE || c == LBRACKET
  }

  predicate IsClosing(c: byte) {
    c == RBRACE || c == RBRACKET
  }

  /** The letters n b f r t u, which end an escape. */
  predicate IsEscapeLetter(c: byte) {
    c == 110 || c == 98 || c == 102 || c == 114 || c == 116 || c == 117
  }

  function Advance(s: State, c: byte): State {
    var t := s.(afterOpen := !s.quote && IsOpening(c));
    if c == BACKSLASH then t.(escape := if s.escape then false else s.quote)
    else if c == COLON then t
    else if c == QUOTE then t.(first := false, quote := if s.escape then s.quote else !s.quote, escape := false)
    else if IsOpening(c) then if s.quote then t.(escape := false) else t.(level := s.level + 1, first := true)
    else if IsClosing(c) then if s.quote then t.(escape := false) else t.(level := s.level - 1, first := false)
    else if c == COMMA then if s.quote then t.(escape := false) else t.(first := true)
    else t.(first := false, escape := s.escape && !(s.quote && IsEscapeLetter(c)))
  }

  function Indentation(level: int, indent: nat): seq<byte> {
    Spaces(if level * indent > 0 then level * indent else 0)
  }

  function Break(s: State, indent: nat): seq<byte> {
    if s.first then [LF] + Indentation(s.level, indent) else []
  }

  function Emit(s: State, c: byte, indent: nat): seq<byte> {
    if c == COLON && !s.quote then [COLON, SPACE]
    else if IsClosing(c) && !s.quote then
      (if s.afterOpen then [] else [LF]) + (if s.first then [] else Indentation(s.level - 1, indent)) + [c]
    else if c == BACKSLASH || c == COLON || c == COMMA || IsOpening(c) || IsClosing(c) then [c]
    else Break(s, indent) + [c]
  }

  /** The output, the final flags and the lowest level met. */
  datatype Trace = Trace(out: seq<byte>, end: State, low: int)

  function Run(s: State, t: seq<byte>, indent: nat): Trace
    decreases t
  {
    if t == [] then Trace([], s, s.level)
    else
      var r := Run(Advance(s, t[0]), t[1..], indent);
      Trace(Emit(s, t[0], indent) + r.out, r.end, Min(s.level, r.low))
  }

  method Padding(level: int, indent: nat) returns (r: seq<byte>)
    ensures r == Indentation(level, indent)
  {
    var n := level * indent;
    r := [];
    var i := 0;
    while i < n
      invariant 0 <= i <= (if n > 0 then n else 0)
      invariant r == Spaces(i)
    {
      SpacesSnoc(i);
      r := r + [SPACE];
      i := i + 1;
    }
  }

  lemma {:induction false} SpacesSnoc(n: nat)
    ensures Spaces(n + 1) == Spaces(n) + [SPACE]
  {
    if n > 0 {
      SpacesSnoc(n - 1);
    }
  }

  /** The switch of `pretty_print` on one character; `afterOpen` is its look at v[i - 1]. */
  method PrintCharacter(c: byte, afterOpen: bool, level0: int, first0: bool, quote0: bool, escape0: bool, indent: nat)
    returns (ss: seq<byte>, level: int, first: bool, quote: bool, escape: bool)
    ensures var s := State(level0, first0, quote0, escape0, afterOpen);
      && ss == Emit(s, c, indent)
      && State(level, first, quote, escape, !quote0 && IsOpening(c)) == Advance(s, c)
  {
    hide Indentation;
    level, first, quote, escape := level0, first0, quote0, escape0;
    ss := [];
    if c == BACKSLASH {
      if !escape {
        if quote {
          escape := true;
        }
      } else {
        escape := false;
      }
      ss := [c];
    } else if c == COLON {
      if !quote {
        ss := [COLON, SPACE];
      } else {
        ss := [COLON];
      }
    } else if c == QUOTE {
      if first {
        var pad := Padding(level, indent);
        ss := [LF] + pad;
        first := false;
      }
      if !escape {
        quote := !quote;
      }
      escape := false;
      ss := ss + [c];
    } else if IsOpening(c) {
      ss := [c];
      if !quote {
        level := level + 1;
        first := true;
      } else {
        escape := false;
      }
    } else if IsClosing(c) {
      if !quote {
        if !afterOpen {
          ss := [LF];
        }
        level := level - 1;
        if !first {
          var pad := Padding(level, indent);
          ss := ss + pad;
        }
        first := false;
        ss := ss + [c];
      } else {
        escape := false;
        ss := [c];
      }
    } else if c == COMMA {
      if !quote {
        ss := [COMMA];
        first := true;
      } else {
        escape := false;
        ss := [COMMA];
      }
    } else {
      if IsEscapeLetter(c) && quote && escape {
        escape := false;
      }
      if first {
        var pad := Padding(level, indent);
        ss := [LF] + pad;
        first := false;
      }
      ss := ss + [c];
    }
  }

  /** The source reads v[i - 1] at every closing bracket outside a string, so the text must not start with one. */
  method PrettyPrint(v: seq<byte>, indent: nat) returns (ss: seq<byte>)
    requires v == [] || !IsClosing(v[0])
    ensures ss == Run(START, v, indent).out
  {
    hide Run;
    var level, first, quote, escape := 0, false, false, false;
    ss := [];
    ghost var s := START;
    assert v[0..] == v;
    for i := 0 to |v|
      invariant s.level == level && s.first == first && s.quote == quote && s.escape == escape
      invariant !quote ==> s.afterOpen == (i > 0 && IsOpening(v[i - 1]))
      invariant Run(START, v, indent).out == ss + Run(s, v[i..], indent).out
    {
      var c := v[i];
      RunStep(s, v[i..], indent);
      assert v[i..][1..] == v[i + 1..];
      var afterOpen := IsClosing(c) && !quote && IsOpening(v[i - 1]);
      EmitIgnores(s, c, afterOpen, indent);
      var piece;
      piece, level, first, quote, escape := PrintCharacter(c, afterOpen, level, first, quote, escape, indent);
      hide Emit;
      ss := ss + piece;
      s := Advance(s, c);
    }
    assert v[|v|..] == [];
    RunStep(s, [], indent);
  }

  /** The character before matters only at a closing bracket outside a string. */
  lemma EmitIgnores(s: State, c: byte, afterOpen: bool, indent: nat)
    requires IsClosing(c) && !s.quote ==> s.afterOpen == afterOpen
    ensures Emit(s.(afterOpen := afterOpen), c, indent) == Emit(s, c, indent)
    ensures Advance(s.(afterOpen := afterOpen), c) == Advance(s, c)
  {
  }

  lemma RunStep(s: State, t: seq<byte>, indent: nat)
    ensures t == [] ==> Run(s, t, indent).out == []
    ensures t != [] ==> Run(s, t, indent).out == Emit(s, t[0], indent) + Run(Advance(s, t[0]), t[1..], indent).out
  {
  }
}
