/** Where each fragment of the codebook stands in the hash table. */
module SmazPlaces {
  import opened Bytes
  import opened Smaz
  import opened SmazTables

  // ---------------------------------------------------------------- where the fragments stand

  predicate Plain(s: string) {
    1 <= |s| <= LONGEST && forall i :: 0 <= i < |s| ==> s[i] as nat < 128
  }

  /** The hash of a text of characters below 128: 8 a, 8 a + b or 8 a + b with the third character mixed in. */
  function HashOfText(s: string): nat
    requires Plain(s)
  {
    if |s| == 1 then 8 * s[0] as nat
    else if |s| == 2 then 8 * s[0] as nat + s[1] as nat
    else XorWord(8 * s[0] as nat + s[1] as nat, s[2] as nat)
  }

  /** Texts of different lengths, or with a different character among the first four. */
  predicate Differ(a: string, b: string) {
    |a| != |b| || (|a| >= 1 && a[0] != b[0]) || (|a| >= 2 && a[1] != b[1]) || (|a| >= 3 && a[2] != b[2])
    || (|a| >= 4 && a[3] != b[3])
  }

  /** Entry i is the first with this text, and carries that code. */
  predicate FirstAt(slot: seq<Entry>, i: nat, text: string, c: nat) {
    c < 254 && i < |slot| && slot[i] == E(text, c as byte) && forall k :: 0 <= k < i ==> Differ(slot[k].text, text)
  }

  /** Code c stands in the slot that its text hashes to. */
  ghost predicate Placed(c: nat) {
    Plain(Word(c)) && exists i :: FirstAt(Slot(HashOfText(Word(c)) % SLOTS), i, Word(c), c)
  }

  lemma At(c: nat, text: string, h: nat, i: nat, slot: seq<Entry>)
    requires Word(c) == text && Slot(h) == slot
    requires Plain(text) && HashOfText(text) % SLOTS == h && FirstAt(slot, i, text, c)
    ensures Placed(c)
  {
    hide Word, Slot, HashOfText, Plain, FirstAt;
  }

  lemma ShortHash(text: string)
    requires Plain(text) && |text| < 3
    ensures HashOfText(text) == 8 * text[0] as nat + (if |text| == 1 then 0 else text[1] as nat)
  {
  }

  lemma LongHash(text: string, a: nat, x: nat)
    requires Plain(text) && |text| >= 3
    requires a == 8 * text[0] as nat + text[1] as nat && XorWord(a, text[2] as nat) == x
    ensures HashOfText(text) == x
  {
    hide XorWord;
  }

  lemma WordIn0(c: nat)
    requires c / 16 == 0 && c < 254
    ensures Word(c) == Words0(c)
  {
  }

  lemma SlotIn0(h: nat)
    requires h / 16 == 0 && h < SLOTS
    ensures Slot(h) == Slots0(h)
  {
  }

  lemma WordIn1(c: nat)
    requires c / 16 == 1 && c < 254
    ensures Word(c) == Words1(c)
  {
  }

  lemma SlotIn1(h: nat)
    requires h / 16 == 1 && h < SLOTS
    ensures Slot(h) == Slots1(h)
  {
  }

  lemma WordIn2(c: nat)
    requires c / 16 == 2 && c < 254
    ensures Word(c) == Words2(c)
  {
  }

  lemma SlotIn2(h: nat)
    requires h / 16 == 2 && h < SLOTS
    ensures Slot(h) == Slots2(h)
  {
  }

  lemma WordIn3(c: nat)
    requires c / 16 == 3 && c < 254
    ensures Word(c) == Words3(c)
  {
  }

  lemma SlotIn3(h: nat)
    requires h / 16 == 3 && h < SLOTS
    ensures Slot(h) == Slots3(h)
  {
  }

  lemma WordIn4(c: nat)
    requires c / 16 == 4 && c < 254
    ensures Word(c) == Words4(c)
  {
  }

  lemma SlotIn4(h: nat)
    requires h / 16 == 4 && h < SLOTS
    ensures Slot(h) == Slots4(h)
  {
  }

  lemma WordIn5(c: nat)
    requires c / 16 == 5 && c < 254
    ensures Word(c) == Words5(c)
  {
  }

  lemma SlotIn5(h: nat)
    requires h / 16 == 5 && h < SLOTS
    ensures Slot(h) == Slots5(h)
  {
  }

  lemma WordIn6(c: nat)
    requires c / 16 == 6 && c < 254
    ensures Word(c) == Words6(c)
  {
  }

  lemma SlotIn6(h: nat)
    requires h / 16 == 6 && h < SLOTS
    ensures Slot(h) == Slots6(h)
  {
  }

  lemma WordIn7(c: nat)
    requires c / 16 == 7 && c < 254
    ensures Word(c) == Words7(c)
  {
  }

  lemma SlotIn7(h: nat)
    requires h / 16 == 7 && h < SLOTS
    ensures Slot(h) == Slots7(h)
  {
  }

  lemma WordIn8(c: nat)
    requires c / 16 == 8 && c < 254
    ensures Word(c) == Words8(c)
  {
  }

  lemma SlotIn8(h: nat)
    requires h / 16 == 8 && h < SLOTS
    ensures Slot(h) == Slots8(h)
  {
  }

  lemma WordIn9(c: nat)
    requires c / 16 == 9 && c < 254
    ensures Word(c) == Words9(c)
  {
  }

  lemma SlotIn9(h: nat)
    requires h / 16 == 9 && h < SLOTS
    ensures Slot(h) == Slots9(h)
  {
  }

  lemma WordIn10(c: nat)
    requires c / 16 == 10 && c < 254
    ensures Word(c) == Words10(c)
  {
  }

  lemma SlotIn10(h: nat)
    requires h / 16 == 10 && h < SLOTS
    ensures Slot(h) == Slots10(h)
  {
  }

  lemma WordIn11(c: nat)
    requires c / 16 == 11 && c < 254
    ensures Word(c) == Words11(c)
  {
  }

  lemma SlotIn11(h: nat)
    requires h / 16 == 11 && h < SLOTS
    ensures Slot(h) == Slots11(h)
  {
  }

  lemma WordIn12(c: nat)
    requires c / 16 == 12 && c < 254
    ensures Word(c) == Words12(c)
  {
  }

  lemma SlotIn12(h: nat)
    requires h / 16 == 12 && h < SLOTS
    ensures Slot(h) == Slots12(h)
  {
  }

  lemma WordIn13(c: nat)
    requires c / 16 == 13 && c < 254
    ensures Word(c) == Words13(c)
  {
  }

  lemma SlotIn13(h: nat)
    requires h / 16 == 13 && h < SLOTS
    ensures Slot(h) == Slots13(h)
  {
  }

  lemma WordIn14(c: nat)
    requires c / 16 == 14 && c < 254
    ensures Word(c) == Words14(c)
  {
  }

  lemma SlotIn14(h: nat)
    requires h / 16 == 14 && h < SLOTS
    ensures Slot(h) == Slots14(h)
  {
  }

  lemma WordIn15(c: nat)
    requires c / 16 == 15 && c < 254
    ensures Word(c) == Words15(c)
  {
  }

  lemma SlotIn15(h: nat)
    requires h / 16 == 15 && h < SLOTS
    ensures Slot(h) == Slots15(h)
  {
  }

  lemma Xors0()
    ensures XorWord(1032, 101) == 1133 && XorWord(886, 100) == 786 && XorWord(372, 104) == 284
      && XorWord(933, 32) == 901 && XorWord(367, 102) == 265
  {
  }

  lemma Xors1()
    ensures XorWord(990, 32) == 1022 && XorWord(288, 32) == 256 && XorWord(1056, 105) == 1097
      && XorWord(1032, 97) == 1129 && XorWord(1049, 115) == 1130 && XorWord(353, 110) == 271
  {
  }

  lemma Xors2()
    ensures XorWord(980, 32) == 1012 && XorWord(908, 32) == 940 && XorWord(948, 116) == 960
      && XorWord(927, 114) == 1005 && XorWord(950, 103) == 977 && XorWord(776, 101) == 877
  {
  }

  lemma Xors3()
    ensures XorWord(937, 115) == 986 && XorWord(361, 110) == 263 && XorWord(372, 111) == 283
      && XorWord(1057, 116) == 1109 && XorWord(1039, 32) == 1071 && XorWord(1053, 114) == 1135
  {
  }

  lemma Xors4()
    ensures XorWord(918, 116) == 994 && XorWord(983, 32) == 1015 && XorWord(1032, 101) == 1133
      && XorWord(930, 111) == 973 && XorWord(950, 32) == 918 && XorWord(951, 110) == 985
  {
  }

  lemma Xors5()
    ensures XorWord(884, 108) == 792 && XorWord(1013, 32) == 981 && XorWord(955, 32) == 923
      && XorWord(848, 116) == 804 && XorWord(890, 101) == 799 && XorWord(933, 114) == 983
  {
  }

  lemma Xors6()
    ensures XorWord(922, 32) == 954 && XorWord(923, 32) == 955 && XorWord(1032, 101) == 1133
      && XorWord(991, 116) == 939 && XorWord(964, 32) == 996 && XorWord(832, 116) == 820
  {
  }

  lemma Xors7()
    ensures XorWord(892, 32) == 860 && XorWord(891, 32) == 859 && XorWord(1033, 111) == 1126
      && XorWord(998, 32) == 966 && XorWord(912, 116) == 996 && XorWord(353, 32) == 321
  {
  }

  lemma Xors8()
    ensures XorWord(384, 97) == 481 && XorWord(952, 111) == 983 && XorWord(929, 100) == 965
      && XorWord(1032, 105) == 1121 && XorWord(840, 116) == 828
  {
  }

  lemma Xors9()
    ensures XorWord(821, 10) == 831 && XorWord(375, 104) == 287 && XorWord(922, 101) == 1023
      && XorWord(355, 111) == 268 && XorWord(840, 111) == 807 && XorWord(93, 10) == 87
  {
  }

  lemma Xors10()
    ensures XorWord(114, 13) == 127 && XorWord(354, 101) == 263 && XorWord(952, 97) == 985
      && XorWord(998, 101) == 899 && XorWord(960, 116) == 948 && XorWord(1002, 32) == 970
  {
  }

  lemma Xors11()
    ensures XorWord(901, 116) == 1009 && XorWord(840, 115) == 827 && XorWord(1029, 114) == 1143
      && XorWord(375, 97) == 278 && XorWord(840, 97) == 809 && XorWord(929, 116) == 981
  {
  }

  lemma Xors12()
    ensures XorWord(952, 116) == 972 && XorWord(896, 32) == 928 && XorWord(929, 118) == 983
      && XorWord(985, 32) == 1017 && XorWord(360, 97) == 265 && XorWord(367, 110) == 257
  {
  }

  lemma Xors13()
    ensures XorWord(1032, 97) == 1129 && XorWord(892, 105) == 789 && XorWord(918, 32) == 950
      && XorWord(370, 101) == 279 && XorWord(1032, 101) == 1133 && XorWord(891, 115) == 776
  {
  }

  lemma Xors14()
    ensures XorWord(358, 111) == 265 && XorWord(1005, 114) == 927 && XorWord(1056, 111) == 1103
      && XorWord(956, 115) == 975 && XorWord(1032, 32) == 1064 && XorWord(892, 101) == 793
  {
  }

  lemma Xors15()
    ensures XorWord(1045, 114) == 1127 && XorWord(375, 101) == 274 && XorWord(355, 108) == 271
      && XorWord(375, 105) == 286 && XorWord(905, 118) == 1023 && XorWord(852, 32) == 884
  {
  }

  lemma Xors16()
    ensures XorWord(361, 116) == 285 && XorWord(1056, 105) == 1097 && XorWord(365, 97) == 268
      && XorWord(840, 99) == 811 && XorWord(973, 110) == 931 && XorWord(467, 111) == 444
  {
  }

  lemma Placed0(c: nat)
    requires c / 4 == 0 && c < 254
    ensures Placed(c)
  {
    Xors0();
    hide Placed, Word, Slot, XorWord, HashOfText;
    WordIn0(c);
    match c
    case 0 => ShortHash(" "); SlotIn0(15); At(0, " ", 15, 0, Slots0(15));
    case 1 => LongHash("the", 1032, 1133); SlotIn10(169); At(1, "the", 169, 1, Slots10(169));
    case 2 => ShortHash("e"); SlotIn5(85); At(2, "e", 85, 2, Slots5(85));
    case _ => ShortHash("t"); SlotIn12(205); At(3, "t", 205, 1, Slots12(205));
  }

  lemma Placed1(c: nat)
    requires c / 4 == 1 && c < 254
    ensures Placed(c)
  {
    Xors0();
    hide Placed, Word, Slot, XorWord, HashOfText;
    WordIn0(c);
    match c
    case 4 => ShortHash("a"); SlotIn3(53); At(4, "a", 53, 2, Slots3(53));
    case 5 => ShortHash("of"); SlotIn1(26); At(5, "of", 26, 0, Slots1(26));
    case 6 => ShortHash("o"); SlotIn10(165); At(6, "o", 165, 2, Slots10(165));
    case _ => LongHash("and", 886, 786); SlotIn3(63); At(7, "and", 63, 0, Slots3(63));
  }

  lemma Placed2(c: nat)
    requires c / 4 == 2 && c < 254
    ensures Placed(c)
  {
    hide Placed, Word, Slot, XorWord, HashOfText;
    WordIn0(c);
    match c
    case 8 => ShortHash("i"); SlotIn7(117); At(8, "i", 117, 1, Slots7(117));
    case 9 => ShortHash("n"); SlotIn9(157); At(9, "n", 157, 1, Slots9(157));
    case 10 => ShortHash("s"); SlotIn12(197); At(10, "s", 197, 1, Slots12(197));
    case _ => ShortHash("e "); SlotIn7(117); At(11, "e ", 117, 2, Slots7(117));
  }

  lemma Placed3(c: nat)
    requires c / 4 == 3 && c < 254
    ensures Placed(c)
  {
    Xors0();
    hide Placed, Word, Slot, XorWord, HashOfText;
    WordIn0(c);
    match c
    case 12 => ShortHash("r"); SlotIn11(189); At(12, "r", 189, 0, Slots11(189));
    case 13 => LongHash(" th", 372, 284); SlotIn2(43); At(13, " th", 43, 0, Slots2(43));
    case 14 => ShortHash(" t"); SlotIn8(131); At(14, " t", 131, 0, Slots8(131));
    case _ => ShortHash("in"); SlotIn14(227); At(15, "in", 227, 1, Slots14(227));
  }

  lemma Placed4(c: nat)
    requires c / 4 == 4 && c < 254
    ensures Placed(c)
  {
    Xors0();
    hide Placed, Word, Slot, XorWord, HashOfText;
    WordIn1(c);
    match c
    case 16 => ShortHash("he"); SlotIn13(210); At(16, "he", 210, 0, Slots13(210));
    case 17 => ShortHash("th"); SlotIn4(68); At(17, "th", 68, 0, Slots4(68));
    case 18 => ShortHash("h"); SlotIn6(109); At(18, "h", 109, 1, Slots6(109));
    case _ => LongHash("he ", 933, 901); SlotIn11(178); At(19, "he ", 178, 0, Slots11(178));
  }

  lemma Placed5(c: nat)
    requires c / 4 == 5 && c < 254
    ensures Placed(c)
  {
    hide Placed, Word, Slot, XorWord, HashOfText;
    WordIn1(c);
    match c
    case 20 => ShortHash("to"); SlotIn4(75); At(20, "to", 75, 0, Slots4(75));
    case 21 => ShortHash("\r\n"); SlotIn7(114); At(21, "\r\n", 114, 0, Slots7(114));
    case 22 => ShortHash("l"); SlotIn8(141); At(22, "l", 141, 0, Slots8(141));
    case _ => ShortHash("s "); SlotIn14(229); At(23, "s ", 229, 0, Slots14(229));
  }

  lemma Placed6(c: nat)
    requires c / 4 == 6 && c < 254
    ensures Placed(c)
  {
    hide Placed, Word, Slot, XorWord, HashOfText;
    WordIn1(c);
    match c
    case 24 => ShortHash("d"); SlotIn4(77); At(24, "d", 77, 0, Slots4(77));
    case 25 => ShortHash(" a"); SlotIn7(112); At(25, " a", 112, 0, Slots7(112));
    case 26 => ShortHash("an"); SlotIn10(163); At(26, "an", 163, 0, Slots10(163));
    case _ => ShortHash("er"); SlotIn12(199); At(27, "er", 199, 0, Slots12(199));
  }

  lemma Placed7(c: nat)
    requires c / 4 == 7 && c < 254
    ensures Placed(c)
  {
    hide Placed, Word, Slot, XorWord, HashOfText;
    WordIn1(c);
    match c
    case 28 => ShortHash("c"); SlotIn4(69); At(28, "c", 69, 1, Slots4(69));
    case 29 => ShortHash(" o"); SlotIn7(126); At(29, " o", 126, 0, Slots7(126));
    case 30 => ShortHash("d "); SlotIn6(109); At(30, "d ", 109, 0, Slots6(109));
    case _ => ShortHash("on"); SlotIn2(34); At(31, "on", 34, 0, Slots2(34));
  }

  lemma Placed8(c: nat)
    requires c / 4 == 8 && c < 254
    ensures Placed(c)
  {
    Xors0();
    Xors1();
    hide Placed, Word, Slot, XorWord, HashOfText;
    WordIn2(c);
    match c
    case 32 => LongHash(" of", 367, 265); SlotIn1(24); At(32, " of", 24, 1, Slots1(24));
    case 33 => ShortHash("re"); SlotIn3(49); At(33, "re", 49, 0, Slots3(49));
    case 34 => LongHash("of ", 990, 1022); SlotIn3(58); At(34, "of ", 58, 0, Slots3(58));
    case _ => ShortHash("t "); SlotIn14(237); At(35, "t ", 237, 0, Slots14(237));
  }

  lemma Placed9(c: nat)
    requires c / 4 == 9 && c < 254
    ensures Placed(c)
  {
    hide Placed, Word, Slot, XorWord, HashOfText;
    WordIn2(c);
    match c
    case 36 => ShortHash(", "); SlotIn8(143); At(36, ", ", 143, 0, Slots8(143));
    case 37 => ShortHash("is"); SlotIn14(232); At(37, "is", 232, 1, Slots14(232));
    case 38 => ShortHash("u"); SlotIn13(213); At(38, "u", 213, 0, Slots13(213));
    case _ => ShortHash("at"); SlotIn10(169); At(39, "at", 169, 0, Slots10(169));
  }

  lemma Placed10(c: nat)
    requires c / 4 == 10 && c < 254
    ensures Placed(c)
  {
    Xors1();
    hide Placed, Word, Slot, XorWord, HashOfText;
    WordIn2(c);
    match c
    case 40 => LongHash("   ", 288, 256); SlotIn0(15); At(40, "   ", 15, 1, Slots0(15));
    case 41 => ShortHash("n "); SlotIn11(189); At(41, "n ", 189, 1, Slots11(189));
    case 42 => ShortHash("or"); SlotIn2(38); At(42, "or", 38, 1, Slots2(38));
    case _ => LongHash("which", 1056, 1097); SlotIn8(133); At(43, "which", 133, 1, Slots8(133));
  }

  lemma Placed11(c: nat)
    requires c / 4 == 11 && c < 254
    ensures Placed(c)
  {
    hide Placed, Word, Slot, XorWord, HashOfText;
    WordIn2(c);
    match c
    case 44 => ShortHash("f"); SlotIn5(93); At(44, "f", 93, 0, Slots5(93));
    case 45 => ShortHash("m"); SlotIn9(149); At(45, "m", 149, 0, Slots9(149));
    case 46 => ShortHash("as"); SlotIn10(168); At(46, "as", 168, 0, Slots10(168));
    case _ => ShortHash("it"); SlotIn14(233); At(47, "it", 233, 0, Slots14(233));
  }

  lemma Placed12(c: nat)
    requires c / 4 == 12 && c < 254
    ensures Placed(c)
  {
    Xors1();
    hide Placed, Word, Slot, XorWord, HashOfText;
    WordIn3(c);
    match c
    case 48 => LongHash("that", 1032, 1129); SlotIn10(165); At(48, "that", 165, 0, Slots10(165));
    case 49 => ShortHash("\n"); SlotIn5(80); At(49, "\n", 80, 0, Slots5(80));
    case 50 => LongHash("was", 1049, 1130); SlotIn10(166); At(50, "was", 166, 0, Slots10(166));
    case _ => ShortHash("en"); SlotIn12(195); At(51, "en", 195, 1, Slots12(195));
  }

  lemma Placed13(c: nat)
    requires c / 4 == 13 && c < 254
    ensures Placed(c)
  {
    Xors1();
    hide Placed, Word, Slot, XorWord, HashOfText;
    WordIn3(c);
    match c
    case 52 => ShortHash("  "); SlotIn2(47); At(52, "  ", 47, 0, Slots2(47));
    case 53 => ShortHash(" w"); SlotIn8(134); At(53, " w", 134, 0, Slots8(134));
    case 54 => ShortHash("es"); SlotIn12(200); At(54, "es", 200, 1, Slots12(200));
    case _ => LongHash(" an", 353, 271); SlotIn1(30); At(55, " an", 30, 2, Slots1(30));
  }

  lemma Placed14(c: nat)
    requires c / 4 == 14 && c < 254
    ensures Placed(c)
  {
    hide Placed, Word, Slot, XorWord, HashOfText;
    WordIn3(c);
    match c
    case 56 => ShortHash(" i"); SlotIn7(120); At(56, " i", 120, 0, Slots7(120));
    case 57 => ShortHash("\r"); SlotIn6(104); At(57, "\r", 104, 0, Slots6(104));
    case 58 => ShortHash("f "); SlotIn7(125); At(58, "f ", 125, 0, Slots7(125));
    case _ => ShortHash("g"); SlotIn6(101); At(59, "g", 101, 0, Slots6(101));
  }

  lemma Placed15(c: nat)
    requires c / 4 == 15 && c < 254
    ensures Placed(c)
  {
    Xors2();
    hide Placed, Word, Slot, XorWord, HashOfText;
    WordIn3(c);
    match c
    case 60 => ShortHash("p"); SlotIn10(173); At(60, "p", 173, 2, Slots10(173));
    case 61 => ShortHash("nd"); SlotIn1(16); At(61, "nd", 16, 0, Slots1(16));
    case 62 => ShortHash(" s"); SlotIn8(130); At(62, " s", 130, 0, Slots8(130));
    case _ => LongHash("nd ", 980, 1012); SlotIn3(48); At(63, "nd ", 48, 0, Slots3(48));
  }

  lemma Placed16(c: nat)
    requires c / 4 == 16 && c < 254
    ensures Placed(c)
  {
    Xors2();
    hide Placed, Word, Slot, XorWord, HashOfText;
    WordIn4(c);
    match c
    case 64 => LongHash("ed ", 908, 940); SlotIn13(217); At(64, "ed ", 217, 0, Slots13(217));
    case 65 => ShortHash("w"); SlotIn14(229); At(65, "w", 229, 1, Slots14(229));
    case 66 => ShortHash("ed"); SlotIn11(185); At(66, "ed", 185, 0, Slots11(185));
    case _ => LongHash("http://", 948, 960); SlotIn14(237); At(67, "http://", 237, 1, Slots14(237));
  }

  lemma Placed17(c: nat)
    requires c / 4 == 17 && c < 254
    ensures Placed(c)
  {
    Xors2();
    hide Placed, Word, Slot, XorWord, HashOfText;
    WordIn4(c);
    match c
    case 68 => LongHash("for", 927, 1005); SlotIn2(41); At(68, "for", 41, 0, Slots2(41));
    case 69 => ShortHash("te"); SlotIn4(65); At(69, "te", 65, 0, Slots4(65));
    case 70 => LongHash("ing", 950, 977); SlotIn0(13); At(70, "ing", 13, 0, Slots0(13));
    case _ => ShortHash("y "); SlotIn2(36); At(71, "y ", 36, 0, Slots2(36));
  }

  lemma Placed18(c: nat)
    requires c / 4 == 18 && c < 254
    ensures Placed(c)
  {
    Xors2();
    hide Placed, Word, Slot, XorWord, HashOfText;
    WordIn4(c);
    match c
    case 72 => LongHash("The", 776, 877); SlotIn9(154); At(72, "The", 154, 0, Slots9(154));
    case 73 => ShortHash(" c"); SlotIn7(114); At(73, " c", 114, 1, Slots7(114));
    case 74 => ShortHash("ti"); SlotIn4(69); At(74, "ti", 69, 0, Slots4(69));
    case _ => ShortHash("r "); SlotIn13(221); At(75, "r ", 221, 0, Slots13(221));
  }

  lemma Placed19(c: nat)
    requires c / 4 == 19 && c < 254
    ensures Placed(c)
  {
    Xors3();
    hide Placed, Word, Slot, XorWord, HashOfText;
    WordIn4(c);
    match c
    case 76 => LongHash("his", 937, 986); SlotIn1(22); At(76, "his", 22, 0, Slots1(22));
    case 77 => ShortHash("st"); SlotIn4(72); At(77, "st", 72, 0, Slots4(72));
    case 78 => LongHash(" in", 361, 263); SlotIn1(22); At(78, " in", 22, 1, Slots1(22));
    case _ => ShortHash("ar"); SlotIn10(167); At(79, "ar", 167, 0, Slots10(167));
  }

  lemma Placed20(c: nat)
    requires c / 4 == 20 && c < 254
    ensures Placed(c)
  {
    Xors3();
    hide Placed, Word, Slot, XorWord, HashOfText;
    WordIn5(c);
    match c
    case 80 => ShortHash("nt"); SlotIn2(32); At(80, "nt", 32, 1, Slots2(32));
    case 81 => ShortHash(","); SlotIn6(111); At(81, ",", 111, 0, Slots6(111));
    case 82 => LongHash(" to", 372, 283); SlotIn2(42); At(82, " to", 42, 0, Slots2(42));
    case _ => ShortHash("y"); SlotIn0(4); At(83, "y", 4, 0, Slots0(4));
  }

  lemma Placed21(c: nat)
    requires c / 4 == 21 && c < 254
    ensures Placed(c)
  {
    Xors3();
    hide Placed, Word, Slot, XorWord, HashOfText;
    WordIn5(c);
    match c
    case 84 => ShortHash("ng"); SlotIn1(19); At(84, "ng", 19, 0, Slots1(19));
    case 85 => ShortHash(" h"); SlotIn7(119); At(85, " h", 119, 0, Slots7(119));
    case 86 => LongHash("with", 1057, 1109); SlotIn9(145); At(86, "with", 145, 0, Slots9(145));
    case _ => ShortHash("le"); SlotIn0(1); At(87, "le", 1, 1, Slots0(1));
  }

  lemma Placed22(c: nat)
    requires c / 4 == 22 && c < 254
    ensures Placed(c)
  {
    Xors3();
    hide Placed, Word, Slot, XorWord, HashOfText;
    WordIn5(c);
    match c
    case 88 => ShortHash("al"); SlotIn10(161); At(88, "al", 161, 0, Slots10(161));
    case 89 => LongHash("to ", 1039, 1071); SlotIn6(107); At(89, "to ", 107, 0, Slots6(107));
    case 90 => ShortHash("b"); SlotIn3(61); At(90, "b", 61, 1, Slots3(61));
    case _ => ShortHash("ou"); SlotIn2(41); At(91, "ou", 41, 1, Slots2(41));
  }

  lemma Placed23(c: nat)
    requires c / 4 == 23 && c < 254
    ensures Placed(c)
  {
    Xors3();
    hide Placed, Word, Slot, XorWord, HashOfText;
    WordIn5(c);
    match c
    case 92 => ShortHash("be"); SlotIn10(162); At(92, "be", 162, 1, Slots10(162));
    case 93 => LongHash("were", 1053, 1135); SlotIn10(171); At(93, "were", 171, 0, Slots10(171));
    case 94 => ShortHash(" b"); SlotIn7(113); At(94, " b", 113, 0, Slots7(113));
    case _ => ShortHash("se"); SlotIn3(57); At(95, "se", 57, 0, Slots3(57));
  }

  lemma Placed24(c: nat)
    requires c / 4 == 24 && c < 254
    ensures Placed(c)
  {
    Xors4();
    hide Placed, Word, Slot, XorWord, HashOfText;
    WordIn6(c);
    match c
    case 96 => ShortHash("o "); SlotIn12(197); At(96, "o ", 197, 0, Slots12(197));
    case 97 => LongHash("ent", 918, 994); SlotIn1(30); At(97, "ent", 30, 1, Slots1(30));
    case 98 => ShortHash("ha"); SlotIn12(206); At(98, "ha", 206, 0, Slots12(206));
    case _ => LongHash("ng ", 983, 1015); SlotIn3(51); At(99, "ng ", 51, 0, Slots3(51));
  }

  lemma Placed25(c: nat)
    requires c / 4 == 25 && c < 254
    ensures Placed(c)
  {
    Xors4();
    hide Placed, Word, Slot, XorWord, HashOfText;
    WordIn6(c);
    match c
    case 100 => LongHash("their", 1032, 1133); SlotIn10(169); At(100, "their", 169, 4, Slots10(169));
    case 101 => ShortHash("\""); SlotIn1(31); At(101, "\"", 31, 1, Slots1(31));
    case 102 => ShortHash("hi"); SlotIn13(214); At(102, "hi", 214, 0, Slots13(214));
    case _ => LongHash("from", 930, 973); SlotIn0(9); At(103, "from", 9, 0, Slots0(9));
  }

  lemma Placed26(c: nat)
    requires c / 4 == 26 && c < 254
    ensures Placed(c)
  {
    Xors4();
    hide Placed, Word, Slot, XorWord, HashOfText;
    WordIn6(c);
    match c
    case 104 => ShortHash(" f"); SlotIn7(117); At(104, " f", 117, 0, Slots7(117));
    case 105 => LongHash("in ", 950, 918); SlotIn12(195); At(105, "in ", 195, 0, Slots12(195));
    case 106 => ShortHash("de"); SlotIn11(178); At(106, "de", 178, 1, Slots11(178));
    case _ => LongHash("ion", 951, 985); SlotIn1(21); At(107, "ion", 21, 0, Slots1(21));
  }

  lemma Placed27(c: nat)
    requires c / 4 == 27 && c < 254
    ensures Placed(c)
  {
    hide Placed, Word, Slot, XorWord, HashOfText;
    WordIn6(c);
    match c
    case 108 => ShortHash("me"); SlotIn0(9); At(108, "me", 9, 1, Slots0(9));
    case 109 => ShortHash("v"); SlotIn13(221); At(109, "v", 221, 1, Slots13(221));
    case 110 => ShortHash("."); SlotIn7(127); At(110, ".", 127, 1, Slots7(127));
    case _ => ShortHash("ve"); SlotIn5(81); At(111, "ve", 81, 1, Slots5(81));
  }

  lemma Placed28(c: nat)
    requires c / 4 == 28 && c < 254
    ensures Placed(c)
  {
    Xors5();
    hide Placed, Word, Slot, XorWord, HashOfText;
    WordIn7(c);
    match c
    case 112 => LongHash("all", 884, 792); SlotIn4(69); At(112, "all", 69, 2, Slots4(69));
    case 113 => LongHash("re ", 1013, 981); SlotIn1(17); At(113, "re ", 17, 2, Slots1(17));
    case 114 => ShortHash("ri"); SlotIn3(53); At(114, "ri", 53, 3, Slots3(53));
    case _ => ShortHash("ro"); SlotIn3(59); At(115, "ro", 59, 1, Slots3(59));
  }

  lemma Placed29(c: nat)
    requires c / 4 == 29 && c < 254
    ensures Placed(c)
  {
    Xors5();
    hide Placed, Word, Slot, XorWord, HashOfText;
    WordIn7(c);
    match c
    case 116 => LongHash("is ", 955, 923); SlotIn12(200); At(116, "is ", 200, 0, Slots12(200));
    case 117 => ShortHash("co"); SlotIn11(180); At(117, "co", 180, 0, Slots11(180));
    case 118 => LongHash("f t", 848, 804); SlotIn5(81); At(118, "f t", 81, 0, Slots5(81));
    case _ => LongHash("are", 890, 799); SlotIn4(76); At(119, "are", 76, 0, Slots4(76));
  }

  lemma Placed30(c: nat)
    requires c / 4 == 30 && c < 254
    ensures Placed(c)
  {
    Xors5();
    hide Placed, Word, Slot, XorWord, HashOfText;
    WordIn7(c);
    match c
    case 120 => ShortHash("ea"); SlotIn11(182); At(120, "ea", 182, 2, Slots11(182));
    case 121 => ShortHash(". "); SlotIn9(159); At(121, ". ", 159, 0, Slots9(159));
    case 122 => LongHash("her", 933, 983); SlotIn1(19); At(122, "her", 19, 1, Slots1(19));
    case _ => ShortHash(" m"); SlotIn7(124); At(123, " m", 124, 0, Slots7(124));
  }

  lemma Placed31(c: nat)
    requires c / 4 == 31 && c < 254
    ensures Placed(c)
  {
    Xors6();
    hide Placed, Word, Slot, XorWord, HashOfText;
    WordIn7(c);
    match c
    case 124 => LongHash("er ", 922, 954); SlotIn14(231); At(124, "er ", 231, 0, Slots14(231));
    case 125 => ShortHash(" p"); SlotIn7(127); At(125, " p", 127, 0, Slots7(127));
    case 126 => LongHash("es ", 923, 955); SlotIn14(232); At(126, "es ", 232, 0, Slots14(232));
    case _ => ShortHash("by"); SlotIn11(182); At(127, "by", 182, 0, Slots11(182));
  }

  lemma Placed32(c: nat)
    requires c / 4 == 32 && c < 254
    ensures Placed(c)
  {
    Xors6();
    hide Placed, Word, Slot, XorWord, HashOfText;
    WordIn8(c);
    match c
    case 128 => LongHash("they", 1032, 1133); SlotIn10(169); At(128, "they", 169, 2, Slots10(169));
    case 129 => ShortHash("di"); SlotIn11(182); At(129, "di", 182, 1, Slots11(182));
    case 130 => ShortHash("ra"); SlotIn2(45); At(130, "ra", 45, 1, Slots2(45));
    case _ => ShortHash("ic"); SlotIn13(216); At(131, "ic", 216, 1, Slots13(216));
  }

  lemma Placed33(c: nat)
    requires c / 4 == 33 && c < 254
    ensures Placed(c)
  {
    Xors6();
    Xors7();
    hide Placed, Word, Slot, XorWord, HashOfText;
    WordIn8(c);
    match c
    case 132 => LongHash("not", 991, 939); SlotIn13(216); At(132, "not", 216, 0, Slots13(216));
    case 133 => LongHash("s, ", 964, 996); SlotIn2(32); At(133, "s, ", 32, 2, Slots2(32));
    case 134 => LongHash("d t", 832, 820); SlotIn6(97); At(134, "d t", 97, 0, Slots6(97));
    case _ => LongHash("at ", 892, 860); SlotIn8(137); At(135, "at ", 137, 0, Slots8(137));
  }

  lemma Placed34(c: nat)
    requires c / 4 == 34 && c < 254
    ensures Placed(c)
  {
    hide Placed, Word, Slot, XorWord, HashOfText;
    WordIn8(c);
    match c
    case 136 => ShortHash("ce"); SlotIn10(170); At(136, "ce", 170, 0, Slots10(170));
    case 137 => ShortHash("la"); SlotIn14(238); At(137, "la", 238, 0, Slots14(238));
    case 138 => ShortHash("h "); SlotIn8(141); At(138, "h ", 141, 1, Slots8(141));
    case _ => ShortHash("ne"); SlotIn1(17); At(139, "ne", 17, 0, Slots1(17));
  }

  lemma Placed35(c: nat)
    requires c / 4 == 35 && c < 254
    ensures Placed(c)
  {
    Xors7();
    hide Placed, Word, Slot, XorWord, HashOfText;
    WordIn8(c);
    match c
    case 140 => LongHash("as ", 891, 859); SlotIn8(136); At(140, "as ", 136, 0, Slots8(136));
    case 141 => LongHash("tio", 1033, 1126); SlotIn10(162); At(141, "tio", 162, 0, Slots10(162));
    case 142 => LongHash("on ", 998, 966); SlotIn0(2); At(142, "on ", 2, 0, Slots0(2));
    case _ => LongHash("n t", 912, 996); SlotIn2(32); At(143, "n t", 32, 0, Slots2(32));
  }

  lemma Placed36(c: nat)
    requires c / 4 == 36 && c < 254
    ensures Placed(c)
  {
    Xors7();
    hide Placed, Word, Slot, XorWord, HashOfText;
    WordIn9(c);
    match c
    case 144 => ShortHash("io"); SlotIn14(228); At(144, "io", 228, 0, Slots14(228));
    case 145 => ShortHash("we"); SlotIn5(89); At(145, "we", 89, 0, Slots5(89));
    case 146 => LongHash(" a ", 353, 321); SlotIn5(80); At(146, " a ", 80, 1, Slots5(80));
    case _ => ShortHash("om"); SlotIn2(33); At(147, "om", 33, 2, Slots2(33));
  }

  lemma Placed37(c: nat)
    requires c / 4 == 37 && c < 254
    ensures Placed(c)
  {
    Xors8();
    hide Placed, Word, Slot, XorWord, HashOfText;
    WordIn9(c);
    match c
    case 148 => LongHash(", a", 384, 481); SlotIn15(240); At(148, ", a", 240, 0, Slots15(240));
    case 149 => LongHash("s o", 952, 983); SlotIn1(19); At(149, "s o", 19, 3, Slots1(19));
    case 150 => ShortHash("ur"); SlotIn5(86); At(150, "ur", 86, 0, Slots5(86));
    case _ => ShortHash("li"); SlotIn0(5); At(151, "li", 5, 1, Slots0(5));
  }

  lemma Placed38(c: nat)
    requires c / 4 == 38 && c < 254
    ensures Placed(c)
  {
    Xors8();
    hide Placed, Word, Slot, XorWord, HashOfText;
    WordIn9(c);
    match c
    case 152 => ShortHash("ll"); SlotIn0(8); At(152, "ll", 8, 0, Slots0(8));
    case 153 => ShortHash("ch"); SlotIn10(173); At(153, "ch", 173, 0, Slots10(173));
    case 154 => LongHash("had", 929, 965); SlotIn0(1); At(154, "had", 1, 0, Slots0(1));
    case _ => LongHash("this", 1032, 1121); SlotIn9(157); At(155, "this", 157, 0, Slots9(157));
  }

  lemma Placed39(c: nat)
    requires c / 4 == 39 && c < 254
    ensures Placed(c)
  {
    Xors8();
    Xors9();
    hide Placed, Word, Slot, XorWord, HashOfText;
    WordIn9(c);
    match c
    case 156 => LongHash("e t", 840, 828); SlotIn6(105); At(156, "e t", 105, 0, Slots6(105));
    case 157 => ShortHash("g "); SlotIn8(133); At(157, "g ", 133, 0, Slots8(133));
    case 158 => LongHash("e\r\n", 821, 831); SlotIn6(108); At(158, "e\r\n", 108, 0, Slots6(108));
    case _ => LongHash(" wh", 375, 287); SlotIn2(46); At(159, " wh", 46, 0, Slots2(46));
  }

  lemma Placed40(c: nat)
    requires c / 4 == 40 && c < 254
    ensures Placed(c)
  {
    Xors9();
    hide Placed, Word, Slot, XorWord, HashOfText;
    WordIn10(c);
    match c
    case 160 => LongHash("ere", 922, 1023); SlotIn3(59); At(160, "ere", 59, 2, Slots3(59));
    case 161 => LongHash(" co", 355, 268); SlotIn1(27); At(161, " co", 27, 0, Slots1(27));
    case 162 => LongHash("e o", 840, 807); SlotIn5(84); At(162, "e o", 84, 0, Slots5(84));
    case _ => ShortHash("a "); SlotIn5(85); At(163, "a ", 85, 0, Slots5(85));
  }

  lemma Placed41(c: nat)
    requires c / 4 == 41 && c < 254
    ensures Placed(c)
  {
    Xors9();
    hide Placed, Word, Slot, XorWord, HashOfText;
    WordIn10(c);
    match c
    case 164 => ShortHash("us"); SlotIn5(87); At(164, "us", 87, 0, Slots5(87));
    case 165 => ShortHash(" d"); SlotIn7(115); At(165, " d", 115, 0, Slots7(115));
    case 166 => ShortHash("ss"); SlotIn4(71); At(166, "ss", 71, 0, Slots4(71));
    case _ => LongHash("\n\r\n", 93, 87); SlotIn5(87); At(167, "\n\r\n", 87, 1, Slots5(87));
  }

  lemma Placed42(c: nat)
    requires c / 4 == 42 && c < 254
    ensures Placed(c)
  {
    Xors10();
    hide Placed, Word, Slot, XorWord, HashOfText;
    WordIn10(c);
    match c
    case 168 => LongHash("\r\n\r", 114, 127); SlotIn7(127); At(168, "\r\n\r", 127, 2, Slots7(127));
    case 169 => ShortHash("=\""); SlotIn2(40); At(169, "=\"", 40, 0, Slots2(40));
    case 170 => LongHash(" be", 354, 263); SlotIn1(22); At(170, " be", 22, 2, Slots1(22));
    case _ => ShortHash(" e"); SlotIn7(116); At(171, " e", 116, 0, Slots7(116));
  }

  lemma Placed43(c: nat)
    requires c / 4 == 43 && c < 254
    ensures Placed(c)
  {
    Xors10();
    hide Placed, Word, Slot, XorWord, HashOfText;
    WordIn10(c);
    match c
    case 172 => LongHash("s a", 952, 985); SlotIn1(21); At(172, "s a", 21, 1, Slots1(21));
    case 173 => ShortHash("ma"); SlotIn0(5); At(173, "ma", 5, 0, Slots0(5));
    case 174 => LongHash("one", 998, 899); SlotIn11(176); At(174, "one", 176, 0, Slots11(176));
    case _ => LongHash("t t", 960, 948); SlotIn14(225); At(175, "t t", 225, 0, Slots14(225));
  }

  lemma Placed44(c: nat)
    requires c / 4 == 44 && c < 254
    ensures Placed(c)
  {
    Xors10();
    Xors11();
    hide Placed, Word, Slot, XorWord, HashOfText;
    WordIn11(c);
    match c
    case 176 => LongHash("or ", 1002, 970); SlotIn0(6); At(176, "or ", 6, 0, Slots0(6));
    case 177 => LongHash("but", 901, 1009); SlotIn2(45); At(177, "but", 45, 0, Slots2(45));
    case 178 => ShortHash("el"); SlotIn12(193); At(178, "el", 193, 0, Slots12(193));
    case _ => ShortHash("so"); SlotIn4(67); At(179, "so", 67, 0, Slots4(67));
  }

  lemma Placed45(c: nat)
    requires c / 4 == 45 && c < 254
    ensures Placed(c)
  {
    Xors11();
    hide Placed, Word, Slot, XorWord, HashOfText;
    WordIn11(c);
    match c
    case 180 => ShortHash("l "); SlotIn10(173); At(180, "l ", 173, 1, Slots10(173));
    case 181 => LongHash("e s", 840, 827); SlotIn6(104); At(181, "e s", 104, 1, Slots6(104));
    case 182 => ShortHash("s,"); SlotIn0(0); At(182, "s,", 0, 0, Slots0(0));
    case _ => ShortHash("no"); SlotIn1(27); At(183, "no", 27, 1, Slots1(27));
  }

  lemma Placed46(c: nat)
    requires c / 4 == 46 && c < 254
    ensures Placed(c)
  {
    Xors11();
    hide Placed, Word, Slot, XorWord, HashOfText;
    WordIn11(c);
    match c
    case 184 => LongHash("ter", 1029, 1143); SlotIn11(179); At(184, "ter", 179, 0, Slots11(179));
    case 185 => LongHash(" wa", 375, 278); SlotIn2(37); At(185, " wa", 37, 0, Slots2(37));
    case 186 => ShortHash("iv"); SlotIn14(235); At(186, "iv", 235, 0, Slots14(235));
    case _ => ShortHash("ho"); SlotIn13(220); At(187, "ho", 220, 0, Slots13(220));
  }

  lemma Placed47(c: nat)
    requires c / 4 == 47 && c < 254
    ensures Placed(c)
  {
    Xors11();
    Xors12();
    hide Placed, Word, Slot, XorWord, HashOfText;
    WordIn11(c);
    match c
    case 188 => LongHash("e a", 840, 809); SlotIn5(86); At(188, "e a", 86, 1, Slots5(86));
    case 189 => ShortHash(" r"); SlotIn8(129); At(189, " r", 129, 0, Slots8(129));
    case 190 => LongHash("hat", 929, 981); SlotIn1(17); At(190, "hat", 17, 1, Slots1(17));
    case _ => LongHash("s t", 952, 972); SlotIn0(8); At(191, "s t", 8, 1, Slots0(8));
  }

  lemma Placed48(c: nat)
    requires c / 4 == 48 && c < 254
    ensures Placed(c)
  {
    Xors12();
    hide Placed, Word, Slot, XorWord, HashOfText;
    WordIn12(c);
    match c
    case 192 => ShortHash("ns"); SlotIn1(31); At(192, "ns", 31, 0, Slots1(31));
    case 193 => LongHash("ch ", 896, 928); SlotIn12(205); At(193, "ch ", 205, 0, Slots12(205));
    case 194 => ShortHash("wh"); SlotIn5(92); At(194, "wh", 92, 0, Slots5(92));
    case _ => ShortHash("tr"); SlotIn4(78); At(195, "tr", 78, 0, Slots4(78));
  }

  lemma Placed49(c: nat)
    requires c / 4 == 49 && c < 254
    ensures Placed(c)
  {
    Xors12();
    hide Placed, Word, Slot, XorWord, HashOfText;
    WordIn12(c);
    match c
    case 196 => ShortHash("ut"); SlotIn5(88); At(196, "ut", 88, 0, Slots5(88));
    case 197 => ShortHash("/"); SlotIn8(135); At(197, "/", 135, 0, Slots8(135));
    case 198 => LongHash("have", 929, 983); SlotIn1(19); At(198, "have", 19, 2, Slots1(19));
    case _ => LongHash("ly ", 985, 1017); SlotIn3(53); At(199, "ly ", 53, 0, Slots3(53));
  }

  lemma Placed50(c: nat)
    requires c / 4 == 50 && c < 254
    ensures Placed(c)
  {
    Xors12();
    Xors13();
    hide Placed, Word, Slot, XorWord, HashOfText;
    WordIn12(c);
    match c
    case 200 => ShortHash("ta"); SlotIn3(61); At(200, "ta", 61, 0, Slots3(61));
    case 201 => LongHash(" ha", 360, 265); SlotIn1(24); At(201, " ha", 24, 2, Slots1(24));
    case 202 => LongHash(" on", 367, 257); SlotIn1(16); At(202, " on", 16, 1, Slots1(16));
    case _ => LongHash("tha", 1032, 1129); SlotIn10(165); At(203, "tha", 165, 1, Slots10(165));
  }

  lemma Placed51(c: nat)
    requires c / 4 == 51 && c < 254
    ensures Placed(c)
  {
    Xors13();
    hide Placed, Word, Slot, XorWord, HashOfText;
    WordIn12(c);
    match c
    case 204 => ShortHash("-"); SlotIn7(119); At(204, "-", 119, 1, Slots7(119));
    case 205 => ShortHash(" l"); SlotIn7(123); At(205, " l", 123, 0, Slots7(123));
    case 206 => LongHash("ati", 892, 789); SlotIn4(66); At(206, "ati", 66, 0, Slots4(66));
    case _ => LongHash("en ", 918, 950); SlotIn14(227); At(207, "en ", 227, 0, Slots14(227));
  }

  lemma Placed52(c: nat)
    requires c / 4 == 52 && c < 254
    ensures Placed(c)
  {
    Xors13();
    hide Placed, Word, Slot, XorWord, HashOfText;
    WordIn13(c);
    match c
    case 208 => ShortHash("pe"); SlotIn2(33); At(208, "pe", 33, 0, Slots2(33));
    case 209 => LongHash(" re", 370, 279); SlotIn2(38); At(209, " re", 38, 0, Slots2(38));
    case 210 => LongHash("there", 1032, 1133); SlotIn10(169); At(210, "there", 169, 3, Slots10(169));
    case _ => LongHash("ass", 891, 776); SlotIn3(53); At(211, "ass", 53, 1, Slots3(53));
  }

  lemma Placed53(c: nat)
    requires c / 4 == 53 && c < 254
    ensures Placed(c)
  {
    Xors14();
    hide Placed, Word, Slot, XorWord, HashOfText;
    WordIn13(c);
    match c
    case 212 => ShortHash("si"); SlotIn3(61); At(212, "si", 61, 2, Slots3(61));
    case 213 => LongHash(" fo", 358, 265); SlotIn1(24); At(213, " fo", 24, 0, Slots1(24));
    case 214 => ShortHash("wa"); SlotIn5(85); At(214, "wa", 85, 1, Slots5(85));
    case _ => ShortHash("ec"); SlotIn11(184); At(215, "ec", 184, 0, Slots11(184));
  }

  lemma Placed54(c: nat)
    requires c / 4 == 54 && c < 254
    ensures Placed(c)
  {
    Xors14();
    hide Placed, Word, Slot, XorWord, HashOfText;
    WordIn13(c);
    match c
    case 216 => LongHash("our", 1005, 927); SlotIn12(204); At(216, "our", 204, 1, Slots12(204));
    case 217 => LongHash("who", 1056, 1103); SlotIn8(139); At(217, "who", 139, 0, Slots8(139));
    case 218 => LongHash("its", 956, 975); SlotIn0(11); At(218, "its", 11, 0, Slots0(11));
    case _ => ShortHash("z"); SlotIn0(12); At(219, "z", 12, 0, Slots0(12));
  }

  lemma Placed55(c: nat)
    requires c / 4 == 55 && c < 254
    ensures Placed(c)
  {
    hide Placed, Word, Slot, XorWord, HashOfText;
    WordIn13(c);
    match c
    case 220 => ShortHash("fo"); SlotIn12(204); At(220, "fo", 204, 0, Slots12(204));
    case 221 => ShortHash("rs"); SlotIn3(63); At(221, "rs", 63, 1, Slots3(63));
    case 222 => ShortHash(">"); SlotIn0(14); At(222, ">", 14, 0, Slots0(14));
    case _ => ShortHash("ot"); SlotIn2(40); At(223, "ot", 40, 1, Slots2(40));
  }

  lemma Placed56(c: nat)
    requires c / 4 == 56 && c < 254
    ensures Placed(c)
  {
    Xors14();
    hide Placed, Word, Slot, XorWord, HashOfText;
    WordIn14(c);
    match c
    case 224 => ShortHash("un"); SlotIn5(82); At(224, "un", 82, 0, Slots5(82));
    case 225 => ShortHash("<"); SlotIn14(239); At(225, "<", 239, 0, Slots14(239));
    case 226 => ShortHash("im"); SlotIn14(226); At(226, "im", 226, 0, Slots14(226));
    case _ => LongHash("th ", 1032, 1064); SlotIn6(100); At(227, "th ", 100, 0, Slots6(100));
  }

  lemma Placed57(c: nat)
    requires c / 4 == 57 && c < 254
    ensures Placed(c)
  {
    Xors14();
    Xors15();
    hide Placed, Word, Slot, XorWord, HashOfText;
    WordIn14(c);
    match c
    case 228 => ShortHash("nc"); SlotIn0(15); At(228, "nc", 15, 2, Slots0(15));
    case 229 => LongHash("ate", 892, 793); SlotIn4(70); At(229, "ate", 70, 0, Slots4(70));
    case 230 => ShortHash("><"); SlotIn4(74); At(230, "><", 74, 0, Slots4(74));
    case _ => LongHash("ver", 1045, 1127); SlotIn10(163); At(231, "ver", 163, 1, Slots10(163));
  }

  lemma Placed58(c: nat)
    requires c / 4 == 58 && c < 254
    ensures Placed(c)
  {
    Xors15();
    hide Placed, Word, Slot, XorWord, HashOfText;
    WordIn14(c);
    match c
    case 232 => ShortHash("ad"); SlotIn9(153); At(232, "ad", 153, 0, Slots9(153));
    case 233 => LongHash(" we", 375, 274); SlotIn2(33); At(233, " we", 33, 1, Slots2(33));
    case 234 => ShortHash("ly"); SlotIn1(21); At(234, "ly", 21, 2, Slots1(21));
    case _ => ShortHash("ee"); SlotIn11(186); At(235, "ee", 186, 0, Slots11(186));
  }

  lemma Placed59(c: nat)
    requires c / 4 == 59 && c < 254
    ensures Placed(c)
  {
    Xors15();
    hide Placed, Word, Slot, XorWord, HashOfText;
    WordIn14(c);
    match c
    case 236 => ShortHash(" n"); SlotIn7(125); At(236, " n", 125, 1, Slots7(125));
    case 237 => ShortHash("id"); SlotIn13(217); At(237, "id", 217, 1, Slots13(217));
    case 238 => LongHash(" cl", 355, 271); SlotIn1(30); At(238, " cl", 30, 0, Slots1(30));
    case _ => ShortHash("ac"); SlotIn9(152); At(239, "ac", 152, 0, Slots9(152));
  }

  lemma Placed60(c: nat)
    requires c / 4 == 60 && c < 254
    ensures Placed(c)
  {
    Xors15();
    hide Placed, Word, Slot, XorWord, HashOfText;
    WordIn15(c);
    match c
    case 240 => ShortHash("il"); SlotIn14(225); At(240, "il", 225, 1, Slots14(225));
    case 241 => ShortHash("</"); SlotIn2(45); At(241, "</", 45, 3, Slots2(45));
    case 242 => ShortHash("rt"); SlotIn4(64); At(242, "rt", 64, 0, Slots4(64));
    case _ => LongHash(" wi", 375, 286); SlotIn2(45); At(243, " wi", 45, 2, Slots2(45));
  }

  lemma Placed61(c: nat)
    requires c / 4 == 61 && c < 254
    ensures Placed(c)
  {
    Xors15();
    Xors16();
    hide Placed, Word, Slot, XorWord, HashOfText;
    WordIn15(c);
    match c
    case 244 => LongHash("div", 905, 1023); SlotIn3(59); At(244, "div", 59, 0, Slots3(59));
    case 245 => LongHash("e, ", 852, 884); SlotIn10(161); At(245, "e, ", 161, 1, Slots10(161));
    case 246 => LongHash(" it", 361, 285); SlotIn2(44); At(246, " it", 44, 0, Slots2(44));
    case _ => LongHash("whi", 1056, 1097); SlotIn8(133); At(247, "whi", 133, 2, Slots8(133));
  }

  lemma Placed62(c: nat)
    requires c / 4 == 62 && c < 254
    ensures Placed(c)
  {
    Xors16();
    hide Placed, Word, Slot, XorWord, HashOfText;
    WordIn15(c);
    match c
    case 248 => LongHash(" ma", 365, 268); SlotIn1(27); At(248, " ma", 27, 2, Slots1(27));
    case 249 => ShortHash("ge"); SlotIn12(202); At(249, "ge", 202, 0, Slots12(202));
    case 250 => ShortHash("x"); SlotIn14(237); At(250, "x", 237, 2, Slots14(237));
    case _ => LongHash("e c", 840, 811); SlotIn5(88); At(251, "e c", 88, 1, Slots5(88));
  }

  lemma Placed63(c: nat)
    requires c / 4 == 63 && c < 254
    ensures Placed(c)
  {
    Xors16();
    hide Placed, Word, Slot, XorWord, HashOfText;
    WordIn15(c);
    match c
    case 252 => LongHash("men", 973, 931); SlotIn13(208); At(252, "men", 208, 0, Slots13(208));
    case _ => LongHash(".com", 467, 444); SlotIn12(203); At(253, ".com", 203, 0, Slots12(203));
  }

  lemma EveryFragmentIsPlaced(c: nat)
    requires c < 254
    ensures Placed(c)
  {
    hide Placed;
    match c / 4
    case 0 => Placed0(c);
    case 1 => Placed1(c);
    case 2 => Placed2(c);
    case 3 => Placed3(c);
    case 4 => Placed4(c);
    case 5 => Placed5(c);
    case 6 => Placed6(c);
    case 7 => Placed7(c);
    case 8 => Placed8(c);
    case 9 => Placed9(c);
    case 10 => Placed10(c);
    case 11 => Placed11(c);
    case 12 => Placed12(c);
    case 13 => Placed13(c);
    case 14 => Placed14(c);
    case 15 => Placed15(c);
    case 16 => Placed16(c);
    case 17 => Placed17(c);
    case 18 => Placed18(c);
    case 19 => Placed19(c);
    case 20 => Placed20(c);
    case 21 => Placed21(c);
    case 22 => Placed22(c);
    case 23 => Placed23(c);
    case 24 => Placed24(c);
    case 25 => Placed25(c);
    case 26 => Placed26(c);
    case 27 => Placed27(c);
    case 28 => Placed28(c);
    case 29 => Placed29(c);
    case 30 => Placed30(c);
    case 31 => Placed31(c);
    case 32 => Placed32(c);
    case 33 => Placed33(c);
    case 34 => Placed34(c);
    case 35 => Placed35(c);
    case 36 => Placed36(c);
    case 37 => Placed37(c);
    case 38 => Placed38(c);
    case 39 => Placed39(c);
    case 40 => Placed40(c);
    case 41 => Placed41(c);
    case 42 => Placed42(c);
    case 43 => Placed43(c);
    case 44 => Placed44(c);
    case 45 => Placed45(c);
    case 46 => Placed46(c);
    case 47 => Placed47(c);
    case 48 => Placed48(c);
    case 49 => Placed49(c);
    case 50 => Placed50(c);
    case 51 => Placed51(c);
    case 52 => Placed52(c);
    case 53 => Placed53(c);
    case 54 => Placed54(c);
    case 55 => Placed55(c);
    case 56 => Placed56(c);
    case 57 => Placed57(c);
    case 58 => Placed58(c);
    case 59 => Placed59(c);
    case 60 => Placed60(c);
    case 61 => Placed61(c);
    case 62 => Placed62(c);
    case _ => Placed63(c);
  }
}
