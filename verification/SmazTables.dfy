/** The two tables of the compressor, and the proof that they agree. */
module SmazTables {
  import opened Bytes
  import opened Options
  import opened Smaz

  datatype Entry = E(text: string, code: byte)

  /** A slot as it lies in memory. */
  function Raw(entries: seq<Entry>): seq<byte> {
    if entries == [] then [0]
    else RawEntry(entries[0]) + Raw(entries[1..])
  }

  function RawEntry(e: Entry): seq<byte> {
    [(|e.text| % 256) as byte] + Ascii(e.text) + [e.code]
  }

  /** An entry that the reverse table confirms. */
  predicate Confirmed(e: Entry) {
    1 <= |e.text| <= LONGEST && e.code < 254 && e.text == Word(e.code as nat)
  }

  function Texts(): seq<seq<byte>> {
    seq(254, (c: nat) => Ascii(Word(c)))
  }

  function Tables(): Codebook {
    Codebook(seq(SLOTS, (h: nat) => Raw(Slot(h))), Texts())
  }

  lemma {:induction false} RawAgrees(entries: seq<Entry>)
    requires forall i :: 0 <= i < |entries| ==> Confirmed(entries[i])
    ensures SlotAgrees(Raw(entries), Texts())
  {
    WordsLength();
    hide Ascii, Word, Texts, Confirmed, RawEntry, EntryAgrees;
    if entries != [] {
      RawAgrees(entries[1..]);
      FirstAgrees(entries[0], Raw(entries[1..]));
    }
  }

  lemma FirstAgrees(e: Entry, rest: seq<byte>)
    requires Confirmed(e)
    ensures var raw := RawEntry(e) + rest;
      |raw| >= 1 && raw[0] != 0 && raw[0] as nat + 2 <= |raw| && |Texts()| == 254
      && EntryAgrees(raw, Texts()) && raw[raw[0] as nat + 2..] == rest
  {
    hide Ascii, Word;
    var raw := RawEntry(e) + rest;
    var n := |e.text|;
    assert raw[0] as nat == n && raw[n + 1] == e.code;
    assert raw[1..n + 1] == Ascii(e.text);
    assert raw[n + 2..] == rest;
  }

  /** The codebook of the source: every entry is confirmed by the reverse table. */
  lemma TablesAgree()
    ensures Agrees(Tables())
  {
    hide Slot, Raw, Texts, SlotAgrees;
    assert |Texts()| == 254 by { WordsLength(); }
    forall h | 0 <= h < SLOTS ensures SlotAgrees(Tables().slots[h], Tables().words) {
      SlotIsConfirmed(h);
      RawAgrees(Slot(h));
    }
  }

  lemma WordsLength()
    ensures |Texts()| == 254
  {
  }

  // ---------------------------------------------------------------- the reverse table

  function Word(c: nat): string {
    match c / 16
    case 0 => Words0(c)
    case 1 => Words1(c)
    case 2 => Words2(c)
    case 3 => Words3(c)
    case 4 => Words4(c)
    case 5 => Words5(c)
    case 6 => Words6(c)
    case 7 => Words7(c)
    case 8 => Words8(c)
    case 9 => Words9(c)
    case 10 => Words10(c)
    case 11 => Words11(c)
    case 12 => Words12(c)
    case 13 => Words13(c)
    case 14 => Words14(c)
    case _ => Words15(c)
  }

  function Words0(c: nat): string {
    match c
    case 0 => " " case 1 => "the" case 2 => "e" case 3 => "t" case 4 => "a" case 5 => "of" case 6 => "o"
    case 7 => "and" case 8 => "i" case 9 => "n" case 10 => "s" case 11 => "e " case 12 => "r" case 13 => " th"
    case 14 => " t" case _ => "in"
  }

  function Words1(c: nat): string {
    match c
    case 16 => "he" case 17 => "th" case 18 => "h" case 19 => "he " case 20 => "to" case 21 => "\r\n"
    case 22 => "l" case 23 => "s " case 24 => "d" case 25 => " a" case 26 => "an" case 27 => "er"
    case 28 => "c" case 29 => " o" case 30 => "d " case _ => "on"
  }

  function Words2(c: nat): string {
    match c
    case 32 => " of" case 33 => "re" case 34 => "of " case 35 => "t " case 36 => ", " case 37 => "is"
    case 38 => "u" case 39 => "at" case 40 => "   " case 41 => "n " case 42 => "or" case 43 => "which"
    case 44 => "f" case 45 => "m" case 46 => "as" case _ => "it"
  }

  function Words3(c: nat): string {
    match c
    case 48 => "that" case 49 => "\n" case 50 => "was" case 51 => "en" case 52 => "  " case 53 => " w"
    case 54 => "es" case 55 => " an" case 56 => " i" case 57 => "\r" case 58 => "f " case 59 => "g"
    case 60 => "p" case 61 => "nd" case 62 => " s" case _ => "nd "
  }

  function Words4(c: nat): string {
    match c
    case 64 => "ed " case 65 => "w" case 66 => "ed" case 67 => "http://" case 68 => "for" case 69 => "te"
    case 70 => "ing" case 71 => "y " case 72 => "The" case 73 => " c" case 74 => "ti" case 75 => "r "
    case 76 => "his" case 77 => "st" case 78 => " in" case _ => "ar"
  }

  function Words5(c: nat): string {
    match c
    case 80 => "nt" case 81 => "," case 82 => " to" case 83 => "y" case 84 => "ng" case 85 => " h"
    case 86 => "with" case 87 => "le" case 88 => "al" case 89 => "to " case 90 => "b" case 91 => "ou"
    case 92 => "be" case 93 => "were" case 94 => " b" case _ => "se"
  }

  function Words6(c: nat): string {
    match c
    case 96 => "o " case 97 => "ent" case 98 => "ha" case 99 => "ng " case 100 => "their" case 101 => "\""
    case 102 => "hi" case 103 => "from" case 104 => " f" case 105 => "in " case 106 => "de" case 107 => "ion"
    case 108 => "me" case 109 => "v" case 110 => "." case _ => "ve"
  }

  function Words7(c: nat): string {
    match c
    case 112 => "all" case 113 => "re " case 114 => "ri" case 115 => "ro" case 116 => "is " case 117 => "co"
    case 118 => "f t" case 119 => "are" case 120 => "ea" case 121 => ". " case 122 => "her" case 123 => " m"
    case 124 => "er " case 125 => " p" case 126 => "es " case _ => "by"
  }

  function Words8(c: nat): string {
    match c
    case 128 => "they" case 129 => "di" case 130 => "ra" case 131 => "ic" case 132 => "not" case 133 => "s, "
    case 134 => "d t" case 135 => "at " case 136 => "ce" case 137 => "la" case 138 => "h " case 139 => "ne"
    case 140 => "as " case 141 => "tio" case 142 => "on " case _ => "n t"
  }

  function Words9(c: nat): string {
    match c
    case 144 => "io" case 145 => "we" case 146 => " a " case 147 => "om" case 148 => ", a" case 149 => "s o"
    case 150 => "ur" case 151 => "li" case 152 => "ll" case 153 => "ch" case 154 => "had" case 155 => "this"
    case 156 => "e t" case 157 => "g " case 158 => "e\r\n" case _ => " wh"
  }

  function Words10(c: nat): string {
    match c
    case 160 => "ere" case 161 => " co" case 162 => "e o" case 163 => "a " case 164 => "us" case 165 => " d"
    case 166 => "ss" case 167 => "\n\r\n" case 168 => "\r\n\r" case 169 => "=\"" case 170 => " be"
    case 171 => " e" case 172 => "s a" case 173 => "ma" case 174 => "one" case _ => "t t"
  }

  function Words11(c: nat): string {
    match c
    case 176 => "or " case 177 => "but" case 178 => "el" case 179 => "so" case 180 => "l " case 181 => "e s"
    case 182 => "s," case 183 => "no" case 184 => "ter" case 185 => " wa" case 186 => "iv" case 187 => "ho"
    case 188 => "e a" case 189 => " r" case 190 => "hat" case _ => "s t"
  }

  function Words12(c: nat): string {
    match c
    case 192 => "ns" case 193 => "ch " case 194 => "wh" case 195 => "tr" case 196 => "ut" case 197 => "/"
    case 198 => "have" case 199 => "ly " case 200 => "ta" case 201 => " ha" case 202 => " on"
    case 203 => "tha" case 204 => "-" case 205 => " l" case 206 => "ati" case _ => "en "
  }

  function Words13(c: nat): string {
    match c
    case 208 => "pe" case 209 => " re" case 210 => "there" case 211 => "ass" case 212 => "si"
    case 213 => " fo" case 214 => "wa" case 215 => "ec" case 216 => "our" case 217 => "who" case 218 => "its"
    case 219 => "z" case 220 => "fo" case 221 => "rs" case 222 => ">" case _ => "ot"
  }

  function Words14(c: nat): string {
    match c
    case 224 => "un" case 225 => "<" case 226 => "im" case 227 => "th " case 228 => "nc" case 229 => "ate"
    case 230 => "><" case 231 => "ver" case 232 => "ad" case 233 => " we" case 234 => "ly" case 235 => "ee"
    case 236 => " n" case 237 => "id" case 238 => " cl" case _ => "ac"
  }

  function Words15(c: nat): string {
    match c
    case 240 => "il" case 241 => "</" case 242 => "rt" case 243 => " wi" case 244 => "div" case 245 => "e, "
    case 246 => " it" case 247 => "whi" case 248 => " ma" case 249 => "ge" case 250 => "x" case 251 => "e c"
    case 252 => "men" case _ => ".com"
  }

  // ---------------------------------------------------------------- the hash table

  function Slot(h: nat): seq<Entry> {
    match h / 16
    case 0 => Slots0(h)
    case 1 => Slots1(h)
    case 2 => Slots2(h)
    case 3 => Slots3(h)
    case 4 => Slots4(h)
    case 5 => Slots5(h)
    case 6 => Slots6(h)
    case 7 => Slots7(h)
    case 8 => Slots8(h)
    case 9 => Slots9(h)
    case 10 => Slots10(h)
    case 11 => Slots11(h)
    case 12 => Slots12(h)
    case 13 => Slots13(h)
    case 14 => Slots14(h)
    case _ => Slots15(h)
  }

  function Slots0(h: nat): seq<Entry> {
    match h
    case 0 => [E("s,", 182)] case 1 => [E("had", 154), E("le", 87)] case 2 => [E("on ", 142)]
    case 4 => [E("y", 83)] case 5 => [E("ma", 173), E("li", 151)] case 6 => [E("or ", 176)]
    case 8 => [E("ll", 152), E("s t", 191)] case 9 => [E("from", 103), E("me", 108)]
    case 11 => [E("its", 218)] case 12 => [E("z", 219)] case 13 => [E("ing", 70)] case 14 => [E(">", 222)]
    case 15 => [E(" ", 0), E("   ", 40), E("nc", 228)] case _ => []
  }

  function Slots1(h: nat): seq<Entry> {
    match h
    case 16 => [E("nd", 61), E(" on", 202)] case 17 => [E("ne", 139), E("hat", 190), E("re ", 113)]
    case 19 => [E("ng", 84), E("her", 122), E("have", 198), E("s o", 149)]
    case 21 => [E("ion", 107), E("s a", 172), E("ly", 234)]
    case 22 => [E("his", 76), E(" in", 78), E(" be", 170)]
    case 24 => [E(" fo", 213), E(" of", 32), E(" ha", 201)] case 26 => [E("of", 5)]
    case 27 => [E(" co", 161), E("no", 183), E(" ma", 248)]
    case 30 => [E(" cl", 238), E("ent", 97), E(" an", 55)] case 31 => [E("ns", 192), E("\"", 101)]
    case _ => []
  }

  function Slots2(h: nat): seq<Entry> {
    match h
    case 32 => [E("n t", 143), E("nt", 80), E("s, ", 133)]
    case 33 => [E("pe", 208), E(" we", 233), E("om", 147)] case 34 => [E("on", 31)] case 36 => [E("y ", 71)]
    case 37 => [E(" wa", 185)] case 38 => [E(" re", 209), E("or", 42)]
    case 40 => [E("=\"", 169), E("ot", 223)] case 41 => [E("for", 68), E("ou", 91)] case 42 => [E(" to", 82)]
    case 43 => [E(" th", 13)] case 44 => [E(" it", 246)]
    case 45 => [E("but", 177), E("ra", 130), E(" wi", 243), E("</", 241)] case 46 => [E(" wh", 159)]
    case 47 => [E("  ", 52)] case _ => []
  }

  function Slots3(h: nat): seq<Entry> {
    match h
    case 48 => [E("nd ", 63)] case 49 => [E("re", 33)] case 51 => [E("ng ", 99)]
    case 53 => [E("ly ", 199), E("ass", 211), E("a", 4), E("ri", 114)] case 57 => [E("se", 95)]
    case 58 => [E("of ", 34)] case 59 => [E("div", 244), E("ro", 115), E("ere", 160)]
    case 61 => [E("ta", 200), E("b", 90), E("si", 212)] case 63 => [E("and", 7), E("rs", 221)] case _ => []
  }

  function Slots4(h: nat): seq<Entry> {
    match h
    case 64 => [E("rt", 242)] case 65 => [E("te", 69)] case 66 => [E("ati", 206)] case 67 => [E("so", 179)]
    case 68 => [E("th", 17)] case 69 => [E("ti", 74), E("c", 28), E("all", 112)] case 70 => [E("ate", 229)]
    case 71 => [E("ss", 166)] case 72 => [E("st", 77)] case 74 => [E("><", 230)] case 75 => [E("to", 20)]
    case 76 => [E("are", 119)] case 77 => [E("d", 24)] case 78 => [E("tr", 195)] case _ => []
  }

  function Slots5(h: nat): seq<Entry> {
    match h
    case 80 => [E("\n", 49), E(" a ", 146)] case 81 => [E("f t", 118), E("ve", 111)] case 82 => [E("un", 224)]
    case 84 => [E("e o", 162)] case 85 => [E("a ", 163), E("wa", 214), E("e", 2)]
    case 86 => [E("ur", 150), E("e a", 188)] case 87 => [E("us", 164), E("\n\r\n", 167)]
    case 88 => [E("ut", 196), E("e c", 251)] case 89 => [E("we", 145)] case 92 => [E("wh", 194)]
    case 93 => [E("f", 44)] case _ => []
  }

  function Slots6(h: nat): seq<Entry> {
    match h
    case 97 => [E("d t", 134)] case 100 => [E("th ", 227)] case 101 => [E("g", 59)]
    case 104 => [E("\r", 57), E("e s", 181)] case 105 => [E("e t", 156)] case 107 => [E("to ", 89)]
    case 108 => [E("e\r\n", 158)] case 109 => [E("d ", 30), E("h", 18)] case 111 => [E(",", 81)] case _ => []
  }

  function Slots7(h: nat): seq<Entry> {
    match h
    case 112 => [E(" a", 25)] case 113 => [E(" b", 94)] case 114 => [E("\r\n", 21), E(" c", 73)]
    case 115 => [E(" d", 165)] case 116 => [E(" e", 171)] case 117 => [E(" f", 104), E("i", 8), E("e ", 11)]
    case 119 => [E(" h", 85), E("-", 204)] case 120 => [E(" i", 56)] case 123 => [E(" l", 205)]
    case 124 => [E(" m", 123)] case 125 => [E("f ", 58), E(" n", 236)] case 126 => [E(" o", 29)]
    case 127 => [E(" p", 125), E(".", 110), E("\r\n\r", 168)] case _ => []
  }

  function Slots8(h: nat): seq<Entry> {
    match h
    case 129 => [E(" r", 189)] case 130 => [E(" s", 62)] case 131 => [E(" t", 14)]
    case 133 => [E("g ", 157), E("which", 43), E("whi", 247)] case 134 => [E(" w", 53)]
    case 135 => [E("/", 197)] case 136 => [E("as ", 140)] case 137 => [E("at ", 135)]
    case 139 => [E("who", 217)] case 141 => [E("l", 22), E("h ", 138)] case 143 => [E(", ", 36)] case _ => []
  }

  function Slots9(h: nat): seq<Entry> {
    match h
    case 145 => [E("with", 86)] case 149 => [E("m", 45)] case 152 => [E("ac", 239)] case 153 => [E("ad", 232)]
    case 154 => [E("The", 72)] case 157 => [E("this", 155), E("n", 9)] case 159 => [E(". ", 121)] case _ => []
  }

  function Slots10(h: nat): seq<Entry> {
    match h
    case 161 => [E("al", 88), E("e, ", 245)] case 162 => [E("tio", 141), E("be", 92)]
    case 163 => [E("an", 26), E("ver", 231)] case 165 => [E("that", 48), E("tha", 203), E("o", 6)]
    case 166 => [E("was", 50)] case 167 => [E("ar", 79)] case 168 => [E("as", 46)]
    case 169 => [E("at", 39), E("the", 1), E("they", 128), E("there", 210), E("their", 100)]
    case 170 => [E("ce", 136)] case 171 => [E("were", 93)]
    case 173 => [E("ch", 153), E("l ", 180), E("p", 60)] case _ => []
  }

  function Slots11(h: nat): seq<Entry> {
    match h
    case 176 => [E("one", 174)] case 178 => [E("he ", 19), E("de", 106)] case 179 => [E("ter", 184)]
    case 180 => [E("co", 117)] case 182 => [E("by", 127), E("di", 129), E("ea", 120)]
    case 184 => [E("ec", 215)] case 185 => [E("ed", 66)] case 186 => [E("ee", 235)]
    case 189 => [E("r", 12), E("n ", 41)] case _ => []
  }

  function Slots12(h: nat): seq<Entry> {
    match h
    case 193 => [E("el", 178)] case 195 => [E("in ", 105), E("en", 51)] case 197 => [E("o ", 96), E("s", 10)]
    case 199 => [E("er", 27)] case 200 => [E("is ", 116), E("es", 54)] case 202 => [E("ge", 249)]
    case 203 => [E(".com", 253)] case 204 => [E("fo", 220), E("our", 216)]
    case 205 => [E("ch ", 193), E("t", 3)] case 206 => [E("ha", 98)] case _ => []
  }

  function Slots13(h: nat): seq<Entry> {
    match h
    case 208 => [E("men", 252)] case 210 => [E("he", 16)] case 213 => [E("u", 38)] case 214 => [E("hi", 102)]
    case 216 => [E("not", 132), E("ic", 131)] case 217 => [E("ed ", 64), E("id", 237)]
    case 220 => [E("ho", 187)] case 221 => [E("r ", 75), E("v", 109)] case _ => []
  }

  function Slots14(h: nat): seq<Entry> {
    match h
    case 225 => [E("t t", 175), E("il", 240)] case 226 => [E("im", 226)]
    case 227 => [E("en ", 207), E("in", 15)] case 228 => [E("io", 144)] case 229 => [E("s ", 23), E("w", 65)]
    case 231 => [E("er ", 124)] case 232 => [E("es ", 126), E("is", 37)] case 233 => [E("it", 47)]
    case 235 => [E("iv", 186)] case 237 => [E("t ", 35), E("http://", 67), E("x", 250)]
    case 238 => [E("la", 137)] case 239 => [E("<", 225)] case _ => []
  }

  function Slots15(h: nat): seq<Entry> {
    match h
    case 240 => [E(", a", 148)] case _ => []
  }

  lemma SlotIsConfirmed(h: nat)
    requires h < SLOTS
    ensures forall i :: 0 <= i < |Slot(h)| ==> Confirmed(Slot(h)[i])
  {
    hide Confirmed;
    match h / 16
    case 0 => Confirmed0(h);
    case 1 => Confirmed1(h);
    case 2 => Confirmed2(h);
    case 3 => Confirmed3(h);
    case 4 => Confirmed4(h);
    case 5 => Confirmed5(h);
    case 6 => Confirmed6(h);
    case 7 => Confirmed7(h);
    case 8 => Confirmed8(h);
    case 9 => Confirmed9(h);
    case 10 => Confirmed10(h);
    case 11 => Confirmed11(h);
    case 12 => Confirmed12(h);
    case 13 => Confirmed13(h);
    case 14 => Confirmed14(h);
    case _ => Confirmed15(h);
  }

  lemma Confirmed0(h: nat)
    requires h / 16 == 0
    ensures forall i :: 0 <= i < |Slots0(h)| ==> Confirmed(Slots0(h)[i])
  {
  }

  lemma Confirmed1(h: nat)
    requires h / 16 == 1
    ensures forall i :: 0 <= i < |Slots1(h)| ==> Confirmed(Slots1(h)[i])
  {
  }

  lemma Confirmed2(h: nat)
    requires h / 16 == 2
    ensures forall i :: 0 <= i < |Slots2(h)| ==> Confirmed(Slots2(h)[i])
  {
  }

  lemma Confirmed3(h: nat)
    requires h / 16 == 3
    ensures forall i :: 0 <= i < |Slots3(h)| ==> Confirmed(Slots3(h)[i])
  {
  }

  lemma Confirmed4(h: nat)
    requires h / 16 == 4
    ensures forall i :: 0 <= i < |Slots4(h)| ==> Confirmed(Slots4(h)[i])
  {
  }

  lemma Confirmed5(h: nat)
    requires h / 16 == 5
    ensures forall i :: 0 <= i < |Slots5(h)| ==> Confirmed(Slots5(h)[i])
  {
  }

  lemma Confirmed6(h: nat)
    requires h / 16 == 6
    ensures forall i :: 0 <= i < |Slots6(h)| ==> Confirmed(Slots6(h)[i])
  {
  }

  lemma Confirmed7(h: nat)
    requires h / 16 == 7
    ensures forall i :: 0 <= i < |Slots7(h)| ==> Confirmed(Slots7(h)[i])
  {
  }

  lemma Confirmed8(h: nat)
    requires h / 16 == 8
    ensures forall i :: 0 <= i < |Slots8(h)| ==> Confirmed(Slots8(h)[i])
  {
  }

  lemma Confirmed9(h: nat)
    requires h / 16 == 9
    ensures forall i :: 0 <= i < |Slots9(h)| ==> Confirmed(Slots9(h)[i])
  {
  }

  lemma Confirmed10(h: nat)
    requires h / 16 == 10
    ensures forall i :: 0 <= i < |Slots10(h)| ==> Confirmed(Slots10(h)[i])
  {
  }

  lemma Confirmed11(h: nat)
    requires h / 16 == 11
    ensures forall i :: 0 <= i < |Slots11(h)| ==> Confirmed(Slots11(h)[i])
  {
  }

  lemma Confirmed12(h: nat)
    requires h / 16 == 12
    ensures forall i :: 0 <= i < |Slots12(h)| ==> Confirmed(Slots12(h)[i])
  {
  }

  lemma Confirmed13(h: nat)
    requires h / 16 == 13
    ensures forall i :: 0 <= i < |Slots13(h)| ==> Confirmed(Slots13(h)[i])
  {
  }

  lemma Confirmed14(h: nat)
    requires h / 16 == 14
    ensures forall i :: 0 <= i < |Slots14(h)| ==> Confirmed(Slots14(h)[i])
  {
  }

  lemma Confirmed15(h: nat)
    requires h / 16 == 15
    ensures forall i :: 0 <= i < |Slots15(h)| ==> Confirmed(Slots15(h)[i])
  {
  }

  // ---------------------------------------------------------------- the compressor with its tables

  /** Decompressing undoes compressing for every text, whatever its bytes. */
  lemma TextRoundTrip(text: seq<byte>)
    ensures Agrees(Tables()) && Shaped(Tables())
    ensures Expand(Tables(), Compressed(Tables(), text)) == Some(text)
    ensures |Compressed(Tables(), text)| <= 2 * |text|
  {
    TablesAgree();
    hide *;
    AgreesIs(Tables());
    RoundTrip(Tables(), text);
  }

  /** The string form does fail: one byte outside the codebook takes two. */
  lemma OneByteDoesNotFit()
    ensures Agrees(Tables()) && |Compressed(Tables(), [1])| == 2
  {
    TablesAgree();
    var cb := Tables();
    assert Hash([1], 1) == 8;
    assert Slot(8) == [E("ll", 152), E("s t", 191)];
    SlotIsConfirmed(8);
    RawAgrees(Slot(8));
    assert cb.slots[8] == Raw(Slot(8));
    NoSingleByte(Slot(8), [1]);
    hide Raw, Slot, SlotAgrees, Tables, Hash, Scan, Agrees;
    assert Lookup(cb, [1]).None?;
  }

  lemma {:induction false} NoSingleByte(entries: seq<Entry>, input: seq<byte>)
    requires forall i :: 0 <= i < |entries| ==> Confirmed(entries[i])
    requires forall i :: 0 <= i < |entries| ==> |entries[i].text| > 1
    requires |input| >= 1
    ensures |Texts()| == 254 && SlotAgrees(Raw(entries), Texts())
    ensures Scan(Raw(entries), Texts(), input, 1).None?
  {
    WordsLength();
    RawAgrees(entries);
    hide Ascii, Word, Texts, Confirmed, EntryAgrees;
    if entries != [] {
      NoSingleByte(entries[1..], input);
      FirstAgrees(entries[0], Raw(entries[1..]));
    }
  }
}
