/** The one-block example of FIPS 180-4: the hash of abc. */
module ShaExample {
  import opened Words
  import opened Fips180

  const ABC: seq<Byte> := [0x61, 0x62, 0x63]

  function Block(): (b: seq<Byte>)
    ensures |b| == BLOCK
  {
    ABC + Padding(3)
  }

  function Variables(a: bv32, b: bv32, c: bv32, d: bv32, e: bv32): Digest {
    Digest(Word(a), Word(b), Word(c), Word(d), Word(e))
  }

  /** Word t of the schedule. */
  function W(t: nat): Word {
    Schedule(Block(), t)
  }

  /** Eight words of the schedule, from t on. */
  predicate WordsAt(t: nat, a: bv32, b: bv32, c: bv32, d: bv32, e: bv32, f: bv32, g: bv32, h: bv32) {
    && W(t) == Word(a) && W(t + 1) == Word(b) && W(t + 2) == Word(c) && W(t + 3) == Word(d)
    && W(t + 4) == Word(e) && W(t + 5) == Word(f) && W(t + 6) == Word(g) && W(t + 7) == Word(h)
  }

  /** The working variables after t rounds. */
  function V(t: nat): Digest {
    Rounds(INITIAL, Block(), t)
  }

  lemma BlockIs()
    ensures var b := Block();
      && b[0] == 0x61 && b[1] == 0x62 && b[2] == 0x63 && b[3] == 0x80 && b[63] == 0x18
      && forall k :: 4 <= k < 63 ==> b[k] == 0
  {
    var p := Padding(3);
    assert p == [0x80] + Zeros(52) + BigEndian64(24);
    LengthBytes();
  }

  lemma LengthBytes()
    ensures BigEndian64(24) == [0, 0, 0, 0, 0, 0, 0, 0x18]
  {
    hide ByteOf;
    TwoBytes();
  }

  lemma TwoBytes()
    ensures ByteOf(0) == 0 && ByteOf(24) == 0x18
  {
  }

  lemma EarlyWord(t: nat)
    requires t < 16
    ensures W(t) == BigEndian(Block()[4 * t], Block()[4 * t + 1], Block()[4 * t + 2], Block()[4 * t + 3])
  {
    hide Block, BigEndian;
  }

  lemma LateWord(t: nat)
    requires t >= 16
    ensures W(t) == Rotl1(Xor(Xor(Xor(W(t - 3), W(t - 8)), W(t - 14)), W(t - 16)))
  {
    hide Block, Rotl1, Xor;
  }

  lemma NextRound(t: nat)
    ensures V(t + 1) == Round(t, V(t), W(t))
  {
    hide Block, Round;
  }

  // ----- The schedule -----

  lemma WordsFrom0()
    ensures WordsAt(0, 0x61626380, 0x00000000, 0x00000000, 0x00000000,
      0x00000000, 0x00000000, 0x00000000, 0x00000000)
    ensures WordsAt(8, 0x00000000, 0x00000000, 0x00000000, 0x00000000,
      0x00000000, 0x00000000, 0x00000000, 0x00000018)
  {
    hide Block, W;
    BlockIs();
    EarlyWord(0); EarlyWord(1); EarlyWord(2); EarlyWord(3);
    EarlyWord(4); EarlyWord(5); EarlyWord(6); EarlyWord(7);
    EarlyWord(8); EarlyWord(9); EarlyWord(10); EarlyWord(11);
    EarlyWord(12); EarlyWord(13); EarlyWord(14); EarlyWord(15);
  }

  lemma WordsFrom16()
    ensures WordsAt(16, 0xC2C4C700, 0x00000000, 0x00000030, 0x85898E01,
      0x00000000, 0x00000060, 0x0B131C03, 0x00000030)
  {
    hide W;
    WordsFrom0();
    LateWord(16); LateWord(17); LateWord(18); LateWord(19);
    LateWord(20); LateWord(21); LateWord(22); LateWord(23);
  }

  lemma WordsFrom24()
    ensures WordsAt(24, 0x85898EC1, 0x16263806, 0x00000000, 0x00000180,
      0x2C4C700C, 0x000000F0, 0x93AFB507, 0x5898E048)
  {
    hide W;
    WordsFrom0();
    WordsFrom16();
    LateWord(24); LateWord(25); LateWord(26); LateWord(27);
    LateWord(28); LateWord(29); LateWord(30); LateWord(31);
  }

  lemma WordsFrom32()
    ensures WordsAt(32, 0x8E9A9202, 0x00000600, 0xB131C0F0, 0x16263BC6,
      0x4EBED41E, 0x626380A1, 0x16263806, 0x000018C0)
  {
    hide W;
    WordsFrom16();
    WordsFrom24();
    LateWord(32); LateWord(33); LateWord(34); LateWord(35);
    LateWord(36); LateWord(37); LateWord(38); LateWord(39);
  }

  lemma WordsFrom40()
    ensures WordsAt(40, 0xD2E138C4, 0x00000F00, 0x3AFB5079, 0x898E04E5,
      0xE2BA3C2B, 0x000060C0, 0x053A37CD, 0x74458547)
  {
    hide W;
    WordsFrom24();
    WordsFrom32();
    LateWord(40); LateWord(41); LateWord(42); LateWord(43);
    LateWord(44); LateWord(45); LateWord(46); LateWord(47);
  }

  lemma WordsFrom48()
    ensures WordsAt(48, 0xDA9415ED, 0x26380A16, 0x626383A1, 0x4EBF54DE,
      0x3835B44B, 0x0000F600, 0x1E84C7A3, 0x98E04D98)
  {
    hide W;
    WordsFrom32();
    WordsFrom40();
    LateWord(48); LateWord(49); LateWord(50); LateWord(51);
    LateWord(52); LateWord(53); LateWord(54); LateWord(55);
  }

  lemma WordsFrom56()
    ensures WordsAt(56, 0x651D16A0, 0x62658CA1, 0x458544D6, 0x44584CB7,
      0x7BA06619, 0x6380AEA2, 0x0AE55269, 0x627B49A1)
  {
    hide W;
    WordsFrom40();
    WordsFrom48();
    LateWord(56); LateWord(57); LateWord(58); LateWord(59);
    LateWord(60); LateWord(61); LateWord(62); LateWord(63);
  }

  lemma WordsFrom64()
    ensures WordsAt(64, 0x7CD45C9D, 0x000F0000, 0xFB50753A, 0xEC6765E8,
      0xBA3C2BE2, 0x0060C000, 0x3A37CD05, 0x458546F4)
  {
    hide W;
    WordsFrom48();
    WordsFrom56();
    LateWord(64); LateWord(65); LateWord(66); LateWord(67);
    LateWord(68); LateWord(69); LateWord(70); LateWord(71);
  }

  lemma WordsFrom72()
    ensures WordsAt(72, 0xB8599DD6, 0x380A1A26, 0x01E02203, 0xE7CC3456,
      0xE6E60B69, 0x00F60A00, 0x5795EF4F, 0x822E0879)
  {
    hide W;
    WordsFrom56();
    WordsFrom64();
    LateWord(72); LateWord(73); LateWord(74); LateWord(75);
    LateWord(76); LateWord(77); LateWord(78); LateWord(79);
  }

  // ----- The rounds -----

  lemma RoundsTo8()
    ensures V(8) == Variables(0x9E8C07D4, 0x993E30C1, 0x0FF1F290, 0xB3F52677, 0xF3763846)
  {
    hide V, W;
    NoRounds();
    WordsFrom0();
    NextRound(0); NextRound(1); NextRound(2); NextRound(3);
    NextRound(4); NextRound(5); NextRound(6); NextRound(7);
  }

  lemma RoundsTo16()
    ensures V(16) == Variables(0x20BDD62F, 0x196BEE77, 0x644A3DA5, 0x1181ED99, 0x18C623F9)
  {
    hide V, W;
    RoundsTo8();
    WordsFrom0();
    NextRound(8); NextRound(9); NextRound(10); NextRound(11);
    NextRound(12); NextRound(13); NextRound(14); NextRound(15);
  }

  lemma RoundsTo24()
    ensures V(24) == Variables(0xD541F12D, 0x21283486, 0x0CE88EFF, 0x868DEC32, 0x7F67875F)
  {
    hide V, W;
    RoundsTo16();
    WordsFrom16();
    NextRound(16); NextRound(17); NextRound(18); NextRound(19);
    NextRound(20); NextRound(21); NextRound(22); NextRound(23);
  }

  lemma RoundsTo32()
    ensures V(32) == Variables(0x3B845D33, 0x1267B407, 0x717EEBD7, 0xA0DC2D4B, 0xD2AA1365)
  {
    hide V, W;
    RoundsTo24();
    WordsFrom24();
    NextRound(24); NextRound(25); NextRound(26); NextRound(27);
    NextRound(28); NextRound(29); NextRound(30); NextRound(31);
  }

  lemma RoundsTo40()
    ensures V(40) == Variables(0x32DE1CBA, 0x4C986405, 0xF718E5CF, 0x03D447F6, 0xF72EEC32)
  {
    hide V, W;
    RoundsTo32();
    WordsFrom32();
    NextRound(32); NextRound(33); NextRound(34); NextRound(35);
    NextRound(36); NextRound(37); NextRound(38); NextRound(39);
  }

  lemma RoundsTo48()
    ensures V(48) == Variables(0xBEAD02CA, 0xA01B846C, 0x8714787C, 0x503CA382, 0xFB86C6AB)
  {
    hide V, W;
    RoundsTo40();
    WordsFrom40();
    NextRound(40); NextRound(41); NextRound(42); NextRound(43);
    NextRound(44); NextRound(45); NextRound(46); NextRound(47);
  }

  lemma RoundsTo56()
    ensures V(56) == Variables(0x5E6456AF, 0x7B71F76D, 0x09FA7C76, 0x792410DB, 0x8E11EB59)
  {
    hide V, W;
    RoundsTo48();
    WordsFrom48();
    NextRound(48); NextRound(49); NextRound(50); NextRound(51);
    NextRound(52); NextRound(53); NextRound(54); NextRound(55);
  }

  lemma RoundsTo64()
    ensures V(64) == Variables(0x6B61C9E1, 0xB66C020B, 0x9523272C, 0xF5D5B051, 0x8FD4B796)
  {
    hide V, W;
    RoundsTo56();
    WordsFrom56();
    NextRound(56); NextRound(57); NextRound(58); NextRound(59);
    NextRound(60); NextRound(61); NextRound(62); NextRound(63);
  }

  lemma RoundsTo72()
    ensures V(72) == Variables(0x39859DE7, 0xC199F8C7, 0x8FC96230, 0x125C24F0, 0xDE37534A)
  {
    hide V, W;
    RoundsTo64();
    WordsFrom64();
    NextRound(64); NextRound(65); NextRound(66); NextRound(67);
    NextRound(68); NextRound(69); NextRound(70); NextRound(71);
  }

  lemma RoundsTo80()
    ensures V(80) == Variables(0x42541B35, 0x5738D5E1, 0x21834873, 0x681E6DF6, 0xD8FDF6AD)
  {
    hide V, W;
    RoundsTo72();
    WordsFrom72();
    NextRound(72); NextRound(73); NextRound(74); NextRound(75);
    NextRound(76); NextRound(77); NextRound(78); NextRound(79);
  }

  lemma NoRounds()
    ensures V(0) == INITIAL
  {
  }

  lemma BytesOfDigest(d: Digest)
    ensures DigestBytes(d) == WordBytes(d.h0) + WordBytes(d.h1) + WordBytes(d.h2) + WordBytes(d.h3) + WordBytes(d.h4)
  {
    hide WordBytes;
    var ws := [d.h0, d.h1, d.h2, d.h3, d.h4];
    assert BytesOf(ws[..0]) == [];
    LastWord(ws, 0);
    LastWord(ws, 1);
    LastWord(ws, 2);
    LastWord(ws, 3);
    LastWord(ws, 4);
    assert ws[..5] == ws && [] + WordBytes(d.h0) == WordBytes(d.h0);
  }

  lemma LastWord(ws: seq<Word>, n: nat)
    requires n < |ws|
    ensures BytesOf(ws[..n + 1]) == BytesOf(ws[..n]) + WordBytes(ws[n])
  {
    assert ws[..n + 1][..n] == ws[..n];
  }

  /** The hash of abc, as bytes. */
  lemma HashOfAbc()
    ensures Sha1(ABC) == [0xA9, 0x99, 0x3E, 0x36, 0x47, 0x06, 0x81, 0x6A, 0xBA, 0x3E,
      0x25, 0x71, 0x78, 0x50, 0xC2, 0x6C, 0x9C, 0xD0, 0xD8, 0x9D]
  {
    hide Compress, HashBlocks, DigestBytes, Padding;
    var d := Compress(INITIAL, Block());
    CompressAbc();
    HashOneBlock(INITIAL, Block());
    BytesOfDigest(d);
  }

  lemma CompressAbc()
    ensures Compress(INITIAL, Block()) == Variables(0xA9993E36, 0x4706816A, 0xBA3E2571, 0x7850C26C, 0x9CD0D89D)
  {
    hide V, Block;
    RoundsTo80();
    CompressIs();
  }

  lemma CompressIs()
    ensures var v := V(80);
      Compress(INITIAL, Block())
      == Digest(Plus(INITIAL.h0, v.h0), Plus(INITIAL.h1, v.h1), Plus(INITIAL.h2, v.h2), Plus(INITIAL.h3, v.h3),
                Plus(INITIAL.h4, v.h4))
  {
    hide Rounds, Block, Plus;
  }
}
