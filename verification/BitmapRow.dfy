/** Uncompressed bitmap rows: what a stored row means, whatever wrote it. */
module BitmapFields {
  import opened Common
  import opened BitmapPackets

  /** 1, 4 or 8 bits to a pixel. */
  predicate Indexed(bits: nat) {
    bits == 1 || bits == 4 || bits == 8
  }

  /** Bit k of a byte, counted from the top. */
  function Bit(b: Byte, k: nat): nat
    requires k < 8
  {
    match k
    case 0 => b / 2 / 2 / 2 / 2 / 2 / 2 / 2 % 2 case 1 => b / 2 / 2 / 2 / 2 / 2 / 2 % 2
    case 2 => b / 2 / 2 / 2 / 2 / 2 % 2 case 3 => b / 2 / 2 / 2 / 2 % 2
    case 4 => b / 2 / 2 / 2 % 2 case 5 => b / 2 / 2 % 2 case 6 => b / 2 % 2 case 7 => b % 2
  }

  function Low(v: Byte, bits: nat): Byte
    requires Indexed(bits)
  {
    if bits == 1 then v % 2 else if bits == 4 then v % 16 else v
  }

  /** How many pixels a stretch of n bytes has room for. */
  function Room(n: nat, bits: nat): nat
    requires Indexed(bits)
  {
    if bits == 1 then 8 * n else if bits == 4 then 2 * n else n
  }

  /** The pixel at place k of the stored bytes: pixels fill each byte from the top. */
  function Field(bytes: seq<Byte>, k: nat, bits: nat): Byte
    requires Indexed(bits) && k < Room(|bytes|, bits)
  {
    if bits == 1 then Bit(bytes[k / 8], k % 8)
    else if bits == 4 then (if k % 2 == 0 then bytes[k / 2] / 16 else bytes[k / 2] % 16)
    else bytes[k]
  }

  /** The bytes hold the row from their first place on, and zeros after it. */
  ghost predicate Holds(bytes: seq<Byte>, row: seq<Byte>, bits: nat)
    requires Indexed(bits)
  {
    forall k :: 0 <= k < Room(|bytes|, bits) ==>
      Field(bytes, k, bits) == (if k < |row| then Low(row[k], bits) else 0)
  }

  lemma HalfIs(x: nat, h: nat, b: nat)
    requires x == 2 * h + b && b <= 1
    ensures x / 2 == h && x % 2 == b
  {
  }

  lemma Halved(x: nat)
    ensures x == 2 * (x / 2) + x % 2 && x % 2 <= 1
  {
  }

  lemma BitsByHalves(b: Byte, h1: nat, h2: nat, h3: nat, h4: nat, h5: nat, h6: nat, h7: nat)
    requires h1 == b / 2 && h2 == h1 / 2 && h3 == h2 / 2 && h4 == h3 / 2 && h5 == h4 / 2 && h6 == h5 / 2 && h7 == h6 / 2
    ensures Bit(b, 7) == b % 2 && Bit(b, 6) == h1 % 2 && Bit(b, 5) == h2 % 2 && Bit(b, 4) == h3 % 2
    ensures Bit(b, 3) == h4 % 2 && Bit(b, 2) == h5 % 2 && Bit(b, 1) == h6 % 2 && Bit(b, 0) == h7 % 2
  {
  }

  lemma BitsMakeByte(b: Byte)
    ensures b == 128 * Bit(b, 0) + 64 * Bit(b, 1) + 32 * Bit(b, 2) + 16 * Bit(b, 3)
               + 8 * Bit(b, 4) + 4 * Bit(b, 5) + 2 * Bit(b, 6) + Bit(b, 7)
  {
    hide Bit;
    var h1 := b / 2;
    var h2 := h1 / 2;
    var h3 := h2 / 2;
    var h4 := h3 / 2;
    var h5 := h4 / 2;
    var h6 := h5 / 2;
    var h7 := h6 / 2;
    BitsByHalves(b, h1, h2, h3, h4, h5, h6, h7);
    Halved(b);
    Halved(h1);
    Halved(h2);
    Halved(h3);
    Halved(h4);
    Halved(h5);
    Halved(h6);
    Halved(h7);
    assert h7 / 2 == 0;
  }

  /** So the bytes are settled by the row and their number. */
  lemma HoldsIsUnique(x: seq<Byte>, y: seq<Byte>, row: seq<Byte>, bits: nat)
    requires Indexed(bits) && |x| == |y| && Holds(x, row, bits) && Holds(y, row, bits)
    ensures x == y
  {
    forall j | 0 <= j < |x|
      ensures x[j] == y[j]
    {
      if bits == 1 {
        forall i | 0 <= i < 8
          ensures Bit(x[j], i) == Bit(y[j], i)
        {
          assert Field(x, 8 * j + i, 1) == Field(y, 8 * j + i, 1);
          assert (8 * j + i) / 8 == j && (8 * j + i) % 8 == i;
        }
        BitsMakeByte(x[j]);
        BitsMakeByte(y[j]);
      } else if bits == 4 {
        assert Field(x, 2 * j, 4) == Field(y, 2 * j, 4);
        assert Field(x, 2 * j + 1, 4) == Field(y, 2 * j + 1, 4);
      } else {
        assert Field(x, j, 8) == Field(y, j, 8);
      }
    }
  }

  /** The bytes the reader takes for a row. */
  function Pitch(width: nat, bpp: nat): nat {
    (width * bpp + 31) / 8 / 4 * 4
  }

  /** n bytes, and as many more as make it a multiple of 4. */
  function Padded4(n: nat): nat {
    (n + 3) / 4 * 4
  }

  /** The writer's padding and the reader's formula come to the same. */
  lemma PitchIsPadded(width: nat, bpp: nat)
    ensures Pitch(width, bpp) == Padded4((width * bpp + 7) / 8)
  {
    var n := width * bpp;
    assert n == 32 * (n / 32) + n % 32;
  }
}

/** True-colour pixels: channel widths, and where a word holds them. */
module BitmapChannels {
  import opened Common
  import opened Arithmetic
  import opened BitmapPackets

  datatype Argb = Argb(a: Byte, r: Byte, g: Byte, b: Byte)

  /** v << n. */
  function Shl(v: nat, n: nat): (r: nat)
    ensures r >= v
  {
    if n == 0 then v else 2 * Shl(v, n - 1)
  }

  /** v >> n. */
  function Shr(v: nat, n: nat): nat
    decreases n
  {
    if n == 0 then v else Shr(v / 2, n - 1)
  }

  /** The largest value of a channel of the given bits. */
  function Top(bits: nat): nat {
    Shl(1, bits) - 1
  }

  function Down(v: nat, top: nat): nat {
    Product(v, top);
    (v * top + 128) / 255
  }

  function Up(x: nat, top: nat): nat
    requires top > 0
  {
    (x * 255 + (top + 1) / 2) / top
  }

  lemma Product(a: nat, b: nat)
    ensures a * b >= 0
  {
  }

  /** A channel brought down to the given bits, as the writer does it. */
  function Narrow(v: Byte, bits: nat): nat {
    Down(v, Top(bits))
  }

  /** A stored channel brought back up and kept in a byte, as the reader does it. */
  function Widen(x: nat, bits: nat): Byte
    requires bits >= 1
  {
    assert Shl(1, bits) == 2 * Shl(1, bits - 1);
    Up(x, Top(bits)) % 256
  }

  /** The scales a channel can have. */
  lemma Tops(bits: nat)
    requires 1 <= bits <= 8
    ensures bits == 1 ==> Top(bits) == 1
    ensures 2 <= bits < 8 ==> 3 <= Top(bits) <= 127
    ensures bits == 8 ==> Top(bits) == 255
    ensures Top(bits) % 2 == 1
  {
    assert Shl(1, 2) == 4 && Shl(1, 3) == 8 && Shl(1, 4) == 16;
    assert Shl(1, 5) == 32 && Shl(1, 6) == 64 && Shl(1, 7) == 128;
  }

  lemma SmallerFactor(m: nat, a: nat, b: nat)
    requires m * a < m * b
    ensures a < b
  {
    assert m * (b - a) > 0;
  }

  /** Up and down again, rounding both times. */
  lemma UpAndDown(x: nat, m: nat)
    requires 3 <= m <= 127 && m % 2 == 1 && x <= m
    ensures Up(x, m) < 256 && Down(Up(x, m), m) == x
  {
    var y, w := x * 255 + (m + 1) / 2, Up(x, m);
    var r := Remainder(y, m);
    SmallerFactor(m, w, 256);
    Commutes(w, m);
    Division(w * m + 128, 255, x, (m + 1) / 2 - r + 128);
  }

  lemma Remainder(y: nat, m: nat) returns (r: nat)
    requires m > 0
    ensures y == m * (y / m) + r && r < m
  {
    r := y % m;
  }

  lemma Commutes(a: nat, b: nat)
    ensures a * b == b * a
  {
  }

  /** At the full 8 bits nothing is lost. */
  lemma FullScale(v: Byte)
    ensures Down(v, 255) == v && Up(v, 255) == v
  {
  }

  lemma FullWidthIsExact(v: Byte)
    ensures Narrow(v, 8) == v && Widen(v, 8) == v
  {
    Tops(8);
    FullScale(v);
  }

  lemma OneBit(x: nat)
    requires x <= 1
    ensures Down(Up(x, 1) % 256, 1) == 0
  {
  }

  /** A channel that has been stored once is stored without loss again, except that the reader
      brings the 1 of a single bit up to 256, which a byte does not hold. */
  lemma RequantisedExactly(x: nat, bits: nat)
    requires 1 <= bits <= 8 && x <= Top(bits)
    ensures Narrow(Widen(x, bits), bits) == x <==> bits >= 2 || x == 0
  {
    hide Down, Up, Top;
    Tops(bits);
    if bits == 8 {
      FullWidthIsExact(x);
    } else if bits >= 2 {
      UpAndDown(x, Top(bits));
    } else {
      OneBit(x);
    }
  }

  /** Channel widths in bits. */
  datatype Widths = Widths(a: nat, r: nat, g: nat, b: nat) {
    function Total(): nat { a + r + g + b }
  }

  predicate Fits(w: Widths) {
    w.a <= 8 && 1 <= w.r <= 8 && 1 <= w.g <= 8 && 1 <= w.b <= 8
  }

  /** The writer fills a 32-bit word from the top. */
  function Word(p: Argb, w: Widths): nat
    requires Fits(w)
  {
    Shl(Narrow(p.a, w.a), 32 - w.a) + Shl(Narrow(p.r, w.r), 32 - w.a - w.r)
    + Shl(Narrow(p.g, w.g), 32 - w.a - w.r - w.g) + Shl(Narrow(p.b, w.b), 32 - w.Total())
  }

  /** A field of the given bits, offset places up. */
  function MaskField(word: nat, offset: nat, bits: nat): nat {
    Shr(word, offset) % (Top(bits) + 1)
  }

  /** The fields as the header's masks place them, from the bottom of the word. */
  predicate FieldsHold(word: nat, p: Argb, w: Widths)
    requires Fits(w)
  {
    MaskField(word, 0, w.b) == Narrow(p.b, w.b) && MaskField(word, w.b, w.g) == Narrow(p.g, w.g) &&
    MaskField(word, w.b + w.g, w.r) == Narrow(p.r, w.r) &&
    (w.a > 0 ==> MaskField(word, w.b + w.g + w.r, w.a) == Narrow(p.a, w.a))
  }

  lemma {:induction false} ShlAdds(v: nat, n: nat, m: nat)
    ensures Shl(v, n + m) == Shl(Shl(v, n), m)
  {
    if m > 0 { ShlAdds(v, n, m - 1); }
  }

  lemma {:induction false} ShrAdds(v: nat, n: nat, m: nat)
    ensures Shr(v, n + m) == Shr(Shr(v, n), m)
    decreases n
  {
    if n > 0 { ShrAdds(v / 2, n - 1, m); }
  }

  lemma FourPlaces(v: nat)
    ensures Shl(v, 4) == 16 * v && Shr(v, 4) == v / 16
  {
    assert Shl(v, 1) == 2 * v;
    assert Shl(v, 2) == 4 * v;
    assert Shl(v, 3) == 8 * v;
    assert Shr(v, 4) == Shr(v / 2, 3) == Shr(v / 2 / 2, 2) == Shr(v / 2 / 2 / 2, 1) == v / 2 / 2 / 2 / 2;
  }

  lemma OneByte(v: nat)
    ensures Shl(v, 8) == 256 * v && Shr(v, 8) == v / 256
  {
    FourPlaces(v);
    FourPlaces(16 * v);
    FourPlaces(v / 16);
    ShlAdds(v, 4, 4);
    ShrAdds(v, 4, 4);
  }

  lemma TwoBytes(v: nat)
    ensures Shl(v, 16) == 0x1_0000 * v && Shr(v, 16) == v / 0x1_0000
  {
    OneByte(v);
    OneByte(256 * v);
    OneByte(v / 256);
    ShlAdds(v, 8, 8);
    ShrAdds(v, 8, 8);
  }

  lemma ThreeBytes(v: nat)
    ensures Shl(v, 24) == 0x100_0000 * v && Shr(v, 24) == v / 0x100_0000
  {
    OneByte(v);
    TwoBytes(256 * v);
    TwoBytes(v / 256);
    ShlAdds(v, 8, 16);
    ShrAdds(v, 8, 16);
  }

  /** A word of four full bytes. */
  lemma FullWord(p: Argb)
    ensures Word(p, Widths(8, 8, 8, 8)) == 0x100_0000 * p.a + 0x1_0000 * p.r + 0x100 * p.g + p.b
  {
    hide Narrow;
    FullWidthIsExact(p.a);
    FullWidthIsExact(p.r);
    FullWidthIsExact(p.g);
    FullWidthIsExact(p.b);
    ThreeBytes(p.a);
    TwoBytes(p.r);
    OneByte(p.g);
  }

  lemma FullFields(word: nat, a: Byte, r: Byte, g: Byte, b: Byte)
    requires word == 0x100_0000 * a + 0x1_0000 * r + 0x100 * g + b
    ensures MaskField(word, 24, 8) == a && MaskField(word, 16, 8) == r
    ensures MaskField(word, 8, 8) == g && MaskField(word, 0, 8) == b
  {
    hide Shr, Top;
    Tops(8);
    ThreeBytes(word);
    TwoBytes(word);
    OneByte(word);
    NoPlaces(word);
    LowByte(word, 0x1_0000 * a + 0x100 * r + g, b);
    LowByte(0x1_0000 * a + 0x100 * r + g, 0x100 * a + r, g);
    LowByte(0x100 * a + r, a, r);
    Division(word, 0x1_0000, 0x100 * a + r, 0x100 * g + b);
    Division(word, 0x100_0000, a, 0x1_0000 * r + 0x100 * g + b);
  }

  lemma LowByte(word: nat, high: nat, low: Byte)
    requires word == 0x100 * high + low
    ensures word / 0x100 == high && word % 0x100 == low
  {
    Division(word, 0x100, high, low);
  }

  lemma NoPlaces(word: nat)
    ensures Shr(word, 0) == word
  {
  }

  lemma FullFieldsHold(p: Argb)
    ensures FieldsHold(Word(p, Widths(8, 8, 8, 8)), p, Widths(8, 8, 8, 8))
  {
    hide Narrow, Word, MaskField;
    FullWord(p);
    FullFields(Word(p, Widths(8, 8, 8, 8)), p.a, p.r, p.g, p.b);
    FullWidthIsExact(p.a);
    FullWidthIsExact(p.r);
    FullWidthIsExact(p.g);
    FullWidthIsExact(p.b);
  }

  lemma ShlIsEven(v: nat, n: nat) returns (half: nat)
    requires n > 0
    ensures Shl(v, n) == 2 * half
  {
    half := Shl(v, n - 1);
  }

  lemma WordIsEven(p: Argb, w: Widths)
    requires Fits(w) && w.Total() < 32
    ensures Word(p, w) % 2 == 0
  {
    hide Narrow, Shl;
    var a := ShlIsEven(Narrow(p.a, w.a), 32 - w.a);
    var r := ShlIsEven(Narrow(p.r, w.r), 32 - w.a - w.r);
    var g := ShlIsEven(Narrow(p.g, w.g), 32 - w.a - w.r - w.g);
    var b := ShlIsEven(Narrow(p.b, w.b), 32 - w.Total());
    assert Word(p, w) == 2 * (a + r + g + b);
  }

  lemma EvenField(word: nat, bits: nat)
    requires word % 2 == 0 && 1 <= bits <= 8
    ensures MaskField(word, 0, bits) % 2 == 0
  {
    hide Top;
    Tops(bits);
    EvenRemainder(word, (Top(bits) + 1) / 2);
  }

  lemma EvenRemainder(word: nat, h: nat)
    requires word % 2 == 0 && h > 0
    ensures word % (2 * h) % 2 == 0
  {
    var q := word / (2 * h);
    assert word == (2 * h) * q + word % (2 * h);
    assert (2 * h) * q == 2 * (h * q);
  }

  lemma FullChannelIsOdd(bits: nat)
    requires 1 <= bits <= 8
    ensures Narrow(255, bits) % 2 == 1
  {
    Tops(bits);
    Division(255 * Top(bits) + 128, 255, Top(bits), 128);
  }

  /** White, when the widths leave room at the bottom of the word. */
  lemma WhiteIsLost(w: Widths)
    requires Fits(w) && w.Total() < 32
    ensures !FieldsHold(Word(Argb(255, 255, 255, 255), w), Argb(255, 255, 255, 255), w)
  {
    hide Word, MaskField, Narrow;
    var p := Argb(255, 255, 255, 255);
    WordIsEven(p, w);
    EvenField(Word(p, w), w.b);
    FullChannelIsOdd(w.b);
  }

  /** The header's masks find every channel of every pixel exactly when the widths fill the word. */
  lemma FieldsHoldExactly(w: Widths)
    requires Fits(w)
    ensures (forall p :: FieldsHold(Word(p, w), p, w)) <==> w.Total() == 32
  {
    hide FieldsHold, Word;
    if w.Total() == 32 {
      forall p
        ensures FieldsHold(Word(p, w), p, w)
      {
        FullFieldsHold(p);
      }
    } else {
      WhiteIsLost(w);
    }
  }

  /** At 16 bits a pixel only the low half of the word is kept, and the channels are all in the
      high half: every pixel is stored as 0. */
  lemma HalfwordIsZero(p: Argb, w: Widths)
    requires Fits(w) && w.Total() <= 16
    ensures Word(p, w) % 0x1_0000 == 0
  {
    hide Narrow, Shl;
    var a := HighHalf(Narrow(p.a, w.a), 32 - w.a);
    var r := HighHalf(Narrow(p.r, w.r), 32 - w.a - w.r);
    var g := HighHalf(Narrow(p.g, w.g), 32 - w.a - w.r - w.g);
    var b := HighHalf(Narrow(p.b, w.b), 32 - w.Total());
    Division(Word(p, w), 0x1_0000, a + r + g + b, 0);
  }

  lemma HighHalf(v: nat, n: nat) returns (high: nat)
    requires n >= 16
    ensures Shl(v, n) == 0x1_0000 * high
  {
    high := Shl(v, n - 16);
    ShlAdds(v, n - 16, 16);
    TwoBytes(high);
  }
}

/** The loops that find a channel's place in its mask. */
module BitmapMasks {
  import opened BitmapChannels

  function Offset(mask: nat): nat {
    if mask == 0 || mask % 2 == 1 then 0 else 1 + Offset(mask / 2)
  }

  function Ones(m: nat): nat {
    if m % 2 == 0 then 0 else 1 + Ones(m / 2)
  }

  /** Below the offset a mask is clear, and there it is set. */
  lemma {:induction false} LowestBit(mask: nat)
    requires mask != 0
    ensures ghost var n := Offset(mask);
      Shr(mask, n) % 2 == 1 && mask == Shl(Shr(mask, n), n)
    decreases mask
  {
    if mask % 2 == 0 { LowestBit(mask / 2); }
  }

  /** The ones counted are all that stand at the bottom, up to the first zero. */
  lemma {:induction false} OnesThenZero(m: nat)
    ensures ghost var n := Ones(m);
      m == Shl(Shr(m, n), n) + Top(n) && Shr(m, n) % 2 == 0
    decreases m
  {
    if m % 2 == 1 {
      OnesThenZero(m / 2);
      var n := Ones(m);
      assert Top(n) == 2 * Top(n - 1) + 1;
    }
  }

  /** BMP_maskoffset. */
  method MaskOffset(mask: nat) returns (count: nat)
    ensures count == Offset(mask)
    ensures mask != 0 ==> Shr(mask, count) % 2 == 1 && mask == Shl(Shr(mask, count), count)
  {
    if mask != 0 { LowestBit(mask); }
    count := 0;
    if mask != 0 {
      var m := mask;
      while m % 2 == 0
        invariant m != 0 && count + Offset(m) == Offset(mask)
        decreases m
      {
        m, count := m / 2, count + 1;
      }
    }
  }

  /** BMP_getbits. */
  method GetBits(mask: nat) returns (count: nat)
    ensures count == Ones(Shr(mask, Offset(mask)))
    ensures ghost var m := Shr(mask, Offset(mask));
      m == Shl(Shr(m, count), count) + Top(count) && Shr(m, count) % 2 == 0
  {
    OnesThenZero(Shr(mask, Offset(mask)));
    count := 0;
    if mask != 0 {
      var m := mask;
      while m % 2 == 0
        invariant m != 0 && Shr(m, Offset(m)) == Shr(mask, Offset(mask))
        decreases m
      {
        m := m / 2;
      }
      while m % 2 != 0
        invariant count + Ones(m) == Ones(Shr(mask, Offset(mask)))
        decreases m
      {
        m, count := m / 2, count + 1;
      }
    }
  }

  lemma {:induction false} OffsetOfShifted(top: nat, offset: nat)
    requires top % 2 == 1
    ensures Offset(Shl(top, offset)) == offset && Shr(Shl(top, offset), offset) == top
  {
    if offset > 0 {
      OffsetOfShifted(top, offset - 1);
      assert Shl(top, offset) / 2 == Shl(top, offset - 1);
    }
  }

  lemma {:induction false} OnesOfTop(bits: nat)
    ensures Ones(Top(bits)) == bits && (bits > 0 ==> Top(bits) % 2 == 1)
  {
    if bits > 0 {
      OnesOfTop(bits - 1);
      assert Top(bits) == 2 * Top(bits - 1) + 1;
    }
  }

  /** A mask of any number of ones at any place is read for what it is. */
  lemma MaskFound(bits: nat, offset: nat)
    requires bits > 0
    ensures ghost var mask := Shl(Top(bits), offset);
      Offset(mask) == offset && Ones(Shr(mask, Offset(mask))) == bits
  {
    OnesOfTop(bits);
    OffsetOfShifted(Top(bits), offset);
  }
}

/** The loops over uncompressed rows of palette indices. */
module BitmapIndexed {
  import opened Common
  import opened BitmapPackets
  import opened BitmapFields

  /** A bit value moved to its place: v << (7 - k). */
  function Place(v: nat, k: nat): (r: Byte)
    requires v <= 1 && k < 8
  {
    match k
    case 0 => 128 * v case 1 => 64 * v case 2 => 32 * v case 3 => 16 * v
    case 4 => 8 * v case 5 => 4 * v case 6 => 2 * v case 7 => v
  }

  predicate IsBit(v: nat) { v <= 1 }

  lemma BitsOf(x: Byte, b0: nat, b1: nat, b2: nat, b3: nat, b4: nat, b5: nat, b6: nat, b7: nat)
    requires IsBit(b0) && IsBit(b1) && IsBit(b2) && IsBit(b3) && IsBit(b4) && IsBit(b5) && IsBit(b6) && IsBit(b7)
    requires x == 128 * b0 + 64 * b1 + 32 * b2 + 16 * b3 + 8 * b4 + 4 * b5 + 2 * b6 + b7
    ensures Bit(x, 0) == b0 && Bit(x, 1) == b1 && Bit(x, 2) == b2 && Bit(x, 3) == b3
    ensures Bit(x, 4) == b4 && Bit(x, 5) == b5 && Bit(x, 6) == b6 && Bit(x, 7) == b7
  {
    hide Bit;
    var h7 := b0;
    var h6 := 2 * h7 + b1;
    var h5 := 2 * h6 + b2;
    var h4 := 2 * h5 + b3;
    var h3 := 2 * h4 + b4;
    var h2 := 2 * h3 + b5;
    var h1 := 2 * h2 + b6;
    HalfIs(x, h1, b7);
    HalfIs(h1, h2, b6);
    HalfIs(h2, h3, b5);
    HalfIs(h3, h4, b4);
    HalfIs(h4, h5, b3);
    HalfIs(h5, h6, b2);
    HalfIs(h6, h7, b1);
    HalfIs(h7, 0, b0);
    BitsByHalves(x, h1, h2, h3, h4, h5, h6, h7);
  }

  /** The places from k on are clear. */
  predicate ClearFrom(b: Byte, k: nat) {
    forall i :: k <= i < 8 ==> Bit(b, i) == 0
  }

  function If(c: bool, v: nat): nat {
    if c then v else 0
  }

  lemma PlaceIsOne(v: nat, k: nat)
    requires v <= 1 && k < 8
    ensures Place(v, k) == 128 * If(k == 0, v) + 64 * If(k == 1, v) + 32 * If(k == 2, v) + 16 * If(k == 3, v)
                         + 8 * If(k == 4, v) + 4 * If(k == 5, v) + 2 * If(k == 6, v) + If(k == 7, v)
  {
  }

  /** Or-ing a bit into a clear place is adding it there. */
  lemma BitGoesIn(b: Byte, k: nat, v: nat) returns (now: Byte)
    requires k < 8 && v <= 1 && ClearFrom(b, k)
    ensures now == b + Place(v, k)
    ensures forall i :: 0 <= i < 8 ==> Bit(now, i) == if i == k then v else Bit(b, i)
  {
    hide Bit, Place;
    BitsMakeByte(b);
    BitsAreBits(b);
    assert Bit(b, k) == 0;
    PlaceIsOne(v, k);
    var b0, b1 := Bit(b, 0) + If(k == 0, v), Bit(b, 1) + If(k == 1, v);
    var b2, b3 := Bit(b, 2) + If(k == 2, v), Bit(b, 3) + If(k == 3, v);
    var b4, b5 := Bit(b, 4) + If(k == 4, v), Bit(b, 5) + If(k == 5, v);
    var b6, b7 := Bit(b, 6) + If(k == 6, v), Bit(b, 7) + If(k == 7, v);
    now := b + Place(v, k);
    BitsOf(now, b0, b1, b2, b3, b4, b5, b6, b7);
  }

  lemma BitsAreBits(b: Byte)
    ensures forall i :: 0 <= i < 8 ==> IsBit(Bit(b, i))
  {
  }

  /** One more pixel of 1 bit. */
  lemma AddBit(bytes: seq<Byte>, row: seq<Byte>, v: Byte)
    requires |bytes| == (|row| + 7) / 8 && Holds(bytes, row, 1)
    ensures |row| % 8 == 0 ==> Holds(bytes + [Place(v % 2, 0)], row + [v], 1)
    ensures |row| % 8 != 0 ==>
      ghost var last := |bytes| - 1;
      bytes[last] + Place(v % 2, |row| % 8) < 256 &&
      Holds(bytes[last := bytes[last] + Place(v % 2, |row| % 8)], row + [v], 1)
  {
    hide Bit;
    if |row| % 8 == 0 {
      NewByte(v % 2);
      FreshBit(bytes, row, v);
    } else {
      var last, k := |bytes| - 1, |row| % 8;
      forall i | k <= i < 8
        ensures Bit(bytes[last], i) == 0
      {
        assert Field(bytes, 8 * last + i, 1) == 0;
        assert (8 * last + i) / 8 == last && (8 * last + i) % 8 == i;
      }
      var b := BitGoesIn(bytes[last], k, v % 2);
      OldBit(bytes, row, v, b);
    }
  }

  lemma NewByte(v: nat)
    requires v <= 1
    ensures forall i :: 0 <= i < 8 ==> Bit(Place(v, 0), i) == if i == 0 then v else 0
  {
    BitsOf(0, 0, 0, 0, 0, 0, 0, 0, 0);
    var now := BitGoesIn(0, 0, v);
  }

  lemma FreshBit(bytes: seq<Byte>, row: seq<Byte>, v: Byte)
    requires |row| % 8 == 0 && |bytes| == |row| / 8 && Holds(bytes, row, 1)
    requires forall i :: 0 <= i < 8 ==> Bit(Place(v % 2, 0), i) == if i == 0 then v % 2 else 0
    ensures Holds(bytes + [Place(v % 2, 0)], row + [v], 1)
  {
    hide Bit, Place;
    var now: seq<Byte> := bytes + [Place(v % 2, 0)];
    forall k | 0 <= k < 8 * |now|
      ensures Field(now, k, 1) == if k < |row| + 1 then Low((row + [v])[k], 1) else 0
    {
      if k < 8 * |bytes| { assert Field(now, k, 1) == Field(bytes, k, 1); }
    }
  }

  lemma OldBit(bytes: seq<Byte>, row: seq<Byte>, v: Byte, b: Byte)
    requires |row| % 8 != 0 && |bytes| == |row| / 8 + 1 && Holds(bytes, row, 1)
    requires forall i :: 0 <= i < 8 ==> Bit(b, i) == if i == |row| % 8 then v % 2 else Bit(bytes[|bytes| - 1], i)
    ensures Holds(bytes[|bytes| - 1 := b], row + [v], 1)
  {
    hide Bit;
    var now := bytes[|bytes| - 1 := b];
    forall k | 0 <= k < 8 * |now|
      ensures Field(now, k, 1) == if k < |row| + 1 then Low((row + [v])[k], 1) else 0
    {
      if k / 8 < |bytes| - 1 || k % 8 != |row| % 8 {
        assert k != |row|;
        assert Field(now, k, 1) == Field(bytes, k, 1);
      } else {
        assert k == |row|;
      }
    }
  }

  /** One more pixel of 4 bits. */
  lemma AddNibble(bytes: seq<Byte>, row: seq<Byte>, v: Byte)
    requires |bytes| == (|row| + 1) / 2 && Holds(bytes, row, 4)
    ensures |row| % 2 == 0 ==> Holds(bytes + [v % 16 * 16], row + [v], 4)
    ensures |row| % 2 != 0 ==>
      ghost var last := |bytes| - 1;
      bytes[last] + v % 16 < 256 && Holds(bytes[last := bytes[last] + v % 16], row + [v], 4)
  {
    if |row| % 2 == 0 {
      var now := bytes + [v % 16 * 16];
      forall k | 0 <= k < 2 * |now|
        ensures Field(now, k, 4) == if k < |row| + 1 then Low((row + [v])[k], 4) else 0
      {
        if k < 2 * |bytes| { assert Field(now, k, 4) == Field(bytes, k, 4); }
      }
    } else {
      var last := |bytes| - 1;
      assert Field(bytes, |row|, 4) == 0;
      assert bytes[last] % 16 == 0;
      var now := bytes[last := bytes[last] + v % 16];
      forall k | 0 <= k < 2 * |now|
        ensures Field(now, k, 4) == if k < |row| + 1 then Low((row + [v])[k], 4) else 0
      {
        if k != |row| { assert Field(now, k, 4) == Field(bytes, k, 4); }
      }
    }
  }

  /** One pixel of the 1-bit case. */
  method PutBit(dst: array<Byte>, putp: nat, i: nat, v: Byte, ghost row: seq<Byte>)
    requires |row| == i && putp == i / 8 < dst.Length
    requires Holds(dst[..(i + 7) / 8], row, 1)
    modifies dst
    ensures Holds(dst[..(i + 8) / 8], row + [v], 1)
  {
    hide Bit, Place, Holds;
    ghost var before := dst[..(i + 7) / 8];
    AddBit(before, row, v);
    if i % 8 == 0 { dst[putp] := 0; }
    dst[putp] := dst[putp] + Place(v % 2, i % 8);
    if i % 8 == 0 {
      assert dst[..putp + 1] == before + [dst[putp]];
    } else {
      assert dst[..putp + 1] == before[putp := dst[putp]];
    }
  }

  /** The 1-bit case of the writer's loop. */
  method WriteBits(src: array<Byte>, dst: array<Byte>) returns (putp: nat)
    requires src != dst && dst.Length >= (src.Length + 7) / 8
    modifies dst
    ensures putp == (src.Length + 7) / 8 && Holds(dst[..putp], src[..], 1)
  {
    hide Holds;
    ghost var row := src[..];
    putp := 0;
    NothingHeld(dst[..0], 1);
    for i := 0 to src.Length
      invariant src[..] == row
      invariant putp == if i == src.Length then (i + 7) / 8 else i / 8
      invariant Holds(dst[..(i + 7) / 8], row[..i], 1)
    {
      PutBit(dst, putp, i, src[i], row[..i]);
      assert row[..i] + [row[i]] == row[..i + 1];
      if i % 8 == 7 || i == src.Length - 1 { putp := putp + 1; }
    }
    assert row[..src.Length] == row;
  }

  lemma NothingHeld(none: seq<Byte>, bits: nat)
    requires none == [] && Indexed(bits)
    ensures Holds(none, [], bits)
  {
  }

  /** The 4-bit case. */
  method WriteNibbles(src: array<Byte>, dst: array<Byte>) returns (putp: nat)
    requires src != dst && dst.Length >= (src.Length + 1) / 2
    modifies dst
    ensures putp == (src.Length + 1) / 2 && Holds(dst[..putp], src[..], 4)
  {
    ghost var row := src[..];
    putp := 0;
    for i := 0 to src.Length
      invariant src[..] == row
      invariant putp == if i == src.Length then (i + 1) / 2 else i / 2
      invariant Holds(dst[..(i + 1) / 2], row[..i], 4)
    {
      hide Holds;
      ghost var before := dst[..(i + 1) / 2];
      AddNibble(before, row[..i], src[i]);
      assert row[..i] + [row[i]] == row[..i + 1];
      if i % 2 == 1 {
        dst[putp] := dst[putp] + src[i] % 16;
        assert dst[..putp + 1] == before[putp := dst[putp]];
        putp := putp + 1;
      } else {
        dst[putp] := src[i] % 16 * 16;
        assert dst[..putp + 1] == before + [dst[putp]];
        if i == src.Length - 1 { putp := putp + 1; }
      }
    }
    assert row[..src.Length] == row;
  }

  /** The 8-bit case. */
  method WriteBytes(src: array<Byte>, dst: array<Byte>) returns (putp: nat)
    requires src != dst && dst.Length >= src.Length
    modifies dst
    ensures putp == src.Length && Holds(dst[..putp], src[..], 8)
  {
    for i := 0 to src.Length
      invariant src[..] == old(src[..]) && dst[..i] == src[..i]
    {
      dst[i] := src[i];
    }
    putp := src.Length;
    assert dst[..putp] == src[..];
  }

  lemma ZeroAfter(bytes: seq<Byte>, row: seq<Byte>, bits: nat)
    requires Indexed(bits) && |row| <= Room(|bytes|, bits) && Holds(bytes, row, bits)
    ensures Holds(bytes + [0], row, bits)
  {
    var now := bytes + [0];
    BitsOf(0, 0, 0, 0, 0, 0, 0, 0, 0);
    forall k | 0 <= k < Room(|now|, bits)
      ensures Field(now, k, bits) == if k < |row| then Low(row[k], bits) else 0
    {
      if k < Room(|bytes|, bits) { assert Field(now, k, bits) == Field(bytes, k, bits); }
    }
  }

  method PadIndexed(dst: array<Byte>, from: nat, ghost row: seq<Byte>, bits: nat) returns (putp: nat)
    requires Indexed(bits) && Padded4(from) <= dst.Length
    requires |row| <= Room(from, bits) && Holds(dst[..from], row, bits)
    modifies dst
    ensures putp == Padded4(from) && Holds(dst[..putp], row, bits)
  {
    hide Holds;
    putp := from;
    while putp % 4 != 0
      invariant from <= putp <= Padded4(from)
      invariant Holds(dst[..putp], row, bits) && |row| <= Room(putp, bits)
      decreases Padded4(from) - putp
    {
      ghost var before := dst[..putp];
      ZeroAfter(before, row, bits);
      dst[putp] := 0;
      putp := putp + 1;
      assert dst[..putp] == before + [0];
    }
  }

  /** The whole row, padded to a multiple of four bytes: as many as the reader takes. */
  method WriteIndexed(src: array<Byte>, dst: array<Byte>, bits: nat) returns (putp: nat)
    requires Indexed(bits) && src != dst && dst.Length >= 3 * src.Length + 28
    modifies dst
    ensures putp == Pitch(src.Length, bits) <= dst.Length && Holds(dst[..putp], src[..], bits)
  {
    hide Holds;
    if bits == 1 {
      putp := WriteBits(src, dst);
    } else if bits == 4 {
      putp := WriteNibbles(src, dst);
    } else {
      putp := WriteBytes(src, dst);
    }
    PitchIsPadded(src.Length, bits);
    assert putp == (src.Length * bits + 7) / 8;
    ghost var row := src[..];
    putp := PadIndexed(dst, putp, row, bits);
    assert row == src[..];
  }

  /** The 1-bit case of the reader. */
  method ReadBits(line: seq<Byte>, dst: array<Byte>)
    requires dst.Length <= 8 * |line|
    modifies dst
    ensures forall k :: 0 <= k < dst.Length ==> dst[k] == Field(line, k, 1)
  {
    hide Bit;
    var getp := 0;
    for i := 0 to dst.Length
      invariant getp == i / 8
      invariant forall k :: 0 <= k < i ==> dst[k] == Field(line, k, 1)
    {
      BitIsByte(line[getp], i % 8);
      dst[i] := Bit(line[getp], i % 8);
      if i % 8 == 7 { getp := getp + 1; }
    }
  }

  /** The 4-bit case. */
  method ReadNibbles(line: seq<Byte>, dst: array<Byte>)
    requires dst.Length <= 2 * |line|
    modifies dst
    ensures forall k :: 0 <= k < dst.Length ==> dst[k] == Field(line, k, 4)
  {
    var getp := 0;
    for i := 0 to dst.Length
      invariant getp == i / 2
      invariant forall k :: 0 <= k < i ==> dst[k] == Field(line, k, 4)
    {
      if i % 2 == 1 {
        dst[i] := line[getp] % 16;
        getp := getp + 1;
      } else {
        dst[i] := line[getp] / 16;
      }
    }
  }

  /** The 8-bit case. */
  method ReadBytes(line: seq<Byte>, dst: array<Byte>)
    requires dst.Length <= |line|
    modifies dst
    ensures forall k :: 0 <= k < dst.Length ==> dst[k] == Field(line, k, 8)
  {
    for i := 0 to dst.Length
      invariant forall k :: 0 <= k < i ==> dst[k] == line[k]
    {
      dst[i] := line[i];
    }
  }

  /** The reader's loops over a line it has taken. */
  method ReadIndexed(line: seq<Byte>, dst: array<Byte>, bits: nat)
    requires Indexed(bits) && |line| == Pitch(dst.Length, bits)
    modifies dst
    ensures dst.Length <= Room(|line|, bits)
    ensures forall k :: 0 <= k < dst.Length ==> dst[k] == Field(line, k, bits)
  {
    hide Field;
    PitchIsPadded(dst.Length, bits);
    if bits == 1 {
      ReadBits(line, dst);
    } else if bits == 4 {
      ReadNibbles(line, dst);
    } else {
      ReadBytes(line, dst);
    }
  }

  lemma BitIsByte(b: Byte, k: nat)
    requires k < 8
    ensures Bit(b, k) < 256
  {
  }

  /** A row there and back: every pixel reduced to its bits, in its own place. */
  method ThereAndBack(src: array<Byte>, line: array<Byte>, dst: array<Byte>, bits: nat)
    requires Indexed(bits) && src != line && dst != line && src != dst
    requires line.Length >= 3 * src.Length + 28 && dst.Length == src.Length
    modifies line, dst
    ensures forall k :: 0 <= k < dst.Length ==> dst[k] == Low(old(src[k]), bits)
  {
    var putp := WriteIndexed(src, line, bits);
    ghost var row := src[..];
    ReadIndexed(line[..putp], dst, bits);
    forall k | 0 <= k < dst.Length
      ensures dst[k] == Low(row[k], bits)
    {
      assert dst[k] == Field(line[..putp], k, bits);
    }
  }
}

/** The loops over uncompressed rows of true-colour pixels. */
module BitmapColour {
  import opened Common
  import opened Arithmetic
  import opened BitmapPackets
  import opened BitmapFields
  import opened BitmapChannels

  const V4 := Widths(8, 8, 8, 8)

  /** htole32. */
  function LittleEndian(word: nat): (r: seq<Byte>)
    ensures |r| == 4
  {
    [word % 256, word / 0x100 % 256, word / 0x1_0000 % 256, word / 0x100_0000 % 256]
  }

  /** le32toh. */
  function FromLittleEndian(b0: Byte, b1: Byte, b2: Byte, b3: Byte): nat {
    b0 + 0x100 * b1 + 0x1_0000 * b2 + 0x100_0000 * b3
  }

  /** Bits to a pixel, the widths of its channels, and whether the header has a mask for alpha. */
  datatype Format = Format(bpp: nat, widths: Widths, alpha: bool)

  predicate Coloured(f: Format) {
    (f.bpp == 16 || f.bpp == 24 || f.bpp == 32) && Fits(f.widths) && (f.alpha ==> f.widths.a > 0)
  }

  type Layout = f: Format | Coloured(f) witness Format(24, Widths(8, 8, 8, 8), false)

  /** What a pixel takes up in a row.  At 16 bits it is the low half of the word. */
  function Stored(p: Argb, l: Layout): (r: seq<Byte>)
    ensures |r| == Size(l)
  {
    if l.bpp == 24 then [p.b, p.g, p.r]
    else if l.bpp == 32 then LittleEndian(Word(p, l.widths))
    else LittleEndian(Word(p, l.widths))[..2]
  }

  function StoredRow(row: seq<Argb>, l: Layout): seq<Byte> {
    if row == [] then [] else StoredRow(row[..|row| - 1], l) + Stored(row[|row| - 1], l)
  }

  function Zeros(n: nat): (r: seq<Byte>)
    ensures |r| == n
  {
    seq(n, _ => 0)
  }

  /** A word's channels, through the masks as the header has them. */
  function Unpacked(word: nat, l: Layout): Argb {
    var w := l.widths;
    Argb(if l.alpha then Widen(MaskField(word, w.r + w.g + w.b, w.a), w.a) else 255,
         Widen(MaskField(word, w.g + w.b, w.r), w.r), Widen(MaskField(word, w.b, w.g), w.g),
         Widen(MaskField(word, 0, w.b), w.b))
  }

  /** What the reader makes of a stored pixel. */
  function Loaded(bytes: seq<Byte>, l: Layout): Argb
    requires |bytes| == Size(l)
  {
    if l.bpp == 24 then Argb(255, bytes[2], bytes[1], bytes[0])
    else if l.bpp == 32 then Unpacked(FromLittleEndian(bytes[0], bytes[1], bytes[2], bytes[3]), l)
    else Unpacked(FromLittleEndian(bytes[0], bytes[1], 0, 0), l)
  }

  /** 24 bits have no room for alpha. */
  function KeptPixel(p: Argb, l: Layout): Argb {
    if l.bpp == 24 then p.(a := 255) else p
  }

  /** The layouts that keep a pixel: 24 bits, or 32 with four full channels. */
  predicate Keeps(l: Layout) {
    l.bpp == 24 || (l.bpp == 32 && l.widths == V4 && l.alpha)
  }

  lemma WordBytes(a: Byte, r: Byte, g: Byte, b: Byte)
    ensures ghost var word := 0x100_0000 * a + 0x1_0000 * r + 0x100 * g + b;
      LittleEndian(word) == [b, g, r, a]
  {
    var word := 0x100_0000 * a + 0x1_0000 * r + 0x100 * g + b;
    Division(word, 0x100, 0x1_0000 * a + 0x100 * r + g, b);
    Division(word, 0x1_0000, 0x100 * a + r, 0x100 * g + b);
    Division(word, 0x100_0000, a, 0x1_0000 * r + 0x100 * g + b);
    Division(0x1_0000 * a + 0x100 * r + g, 0x100, 0x100 * a + r, g);
    Division(0x100 * a + r, 0x100, a, r);
  }

  lemma WordComesBack(p: Argb)
    ensures Loaded(LittleEndian(Word(p, V4)), Format(32, V4, true)) == p
  {
    hide LittleEndian, Word, Narrow, Widen, MaskField;
    FullWord(p);
    WordBytes(p.a, p.r, p.g, p.b);
    FullFields(Word(p, V4), p.a, p.r, p.g, p.b);
    FullWidthIsExact(p.a);
    FullWidthIsExact(p.r);
    FullWidthIsExact(p.g);
    FullWidthIsExact(p.b);
  }

  lemma PixelComesBack(p: Argb, l: Layout)
    requires Keeps(l)
    ensures Loaded(Stored(p, l), l) == KeptPixel(p, l)
  {
    if l.bpp == 32 {
      hide Loaded;
      WordComesBack(p);
    }
  }

  lemma LowHalf(word: nat)
    requires word % 0x1_0000 == 0
    ensures LittleEndian(word)[..2] == [0, 0]
  {
    var q := word / 0x1_0000;
    assert word == 0x1_0000 * q;
    Division(word, 0x100, 0x100 * q, 0);
    Division(0x100 * q, 0x100, q, 0);
  }

  lemma ShrOfNothing(n: nat)
    ensures Shr(0, n) == 0
    decreases n
  {
  }

  lemma NothingWidened(bits: nat)
    requires 1 <= bits <= 8
    ensures Widen(0, bits) == if bits == 1 then 1 else 0
  {
    hide Top;
    Tops(bits);
  }

  lemma NoField(offset: nat, bits: nat)
    ensures MaskField(0, offset, bits) == 0
  {
    ShrOfNothing(offset);
  }

  /** What a channel of no bits set is read as. */
  function Least(bits: nat): Byte {
    if bits == 1 then 1 else 0
  }

  lemma EmptyWord(l: Layout)
    ensures ghost var w := l.widths;
      Unpacked(0, l) == Argb(if l.alpha then Least(w.a) else 255, Least(w.r), Least(w.g), Least(w.b))
  {
    hide Widen, MaskField;
    var w := l.widths;
    NoField(w.r + w.g + w.b, w.a);
    NoField(w.g + w.b, w.r);
    NoField(w.b, w.g);
    NoField(0, w.b);
    if l.alpha { NothingWidened(w.a); }
    NothingWidened(w.r);
    NothingWidened(w.g);
    NothingWidened(w.b);
  }

  lemma StoresNothing(p: Argb, l: Layout)
    requires l.bpp == 16 && l.widths.Total() <= 16
    ensures Stored(p, l) == [0, 0]
  {
    hide Word, LittleEndian;
    HalfwordIsZero(p, l.widths);
    LowHalf(Word(p, l.widths));
  }

  /** Whatever was written, every pixel of a 16-bit row is read back as black: a channel of a
      single bit comes to 1, and wider ones to 0. */
  lemma SixteenBitIsBlack(p: Argb, l: Layout)
    requires l.bpp == 16 && l.widths.Total() <= 16
    ensures ghost var w := l.widths;
      Loaded(Stored(p, l), l) == Argb(if l.alpha then Least(w.a) else 255, Least(w.r), Least(w.g), Least(w.b))
  {
    hide Stored, Unpacked;
    StoresNothing(p, l);
    EmptyWord(l);
  }

  function Size(l: Layout): nat {
    l.bpp / 8
  }

  /** Where pixel k stands. */
  function At(k: nat, l: Layout): nat {
    if l.bpp == 24 then 3 * k else if l.bpp == 32 then 4 * k else 2 * k
  }

  lemma {:induction false} StoredRowSize(row: seq<Argb>, l: Layout)
    ensures |StoredRow(row, l)| == At(|row|, l)
    decreases |row|
  {
    if row != [] { StoredRowSize(row[..|row| - 1], l); }
  }

  /** Pixel k of a row stands at k times its size. */
  lemma {:induction false} StoredAt(row: seq<Argb>, l: Layout, k: nat)
    requires k < |row|
    ensures |StoredRow(row, l)| == At(|row|, l)
    ensures StoredRow(row, l)[At(k, l)..At(k, l) + Size(l)] == Stored(row[k], l)
    decreases |row|
  {
    hide Stored;
    var front, last := row[..|row| - 1], row[|row| - 1];
    StoredRowSize(front, l);
    StoredRowSize(row, l);
    var bytes := StoredRow(front, l);
    if k == |row| - 1 {
      assert (bytes + Stored(last, l))[|bytes|..] == Stored(last, l);
    } else {
      StoredAt(front, l, k);
      assert (bytes + Stored(last, l))[At(k, l)..At(k, l) + Size(l)]
          == bytes[At(k, l)..At(k, l) + Size(l)];
    }
  }

  /** Sixteen bits, low byte first. */
  function Half(n: nat): (r: seq<Byte>)
    ensures |r| == 2
  {
    [n % 256, n / 0x100 % 256]
  }

  lemma HalvesJoin(word: nat)
    ensures Half(word) + Half(word / 0x1_0000) == LittleEndian(word)
    ensures LittleEndian(word)[..2] == Half(word)
  {
    assert word / 0x1_0000 / 0x100 == word / 0x100_0000;
  }

  method PutPixel(dst: array<Byte>, putp: nat, p: Argb, l: Layout) returns (end: nat)
    requires putp + 4 <= dst.Length
    modifies dst
    ensures end == putp + Size(l) && dst[..end] == old(dst[..putp]) + Stored(p, l)
  {
    if l.bpp == 24 {
      dst[putp], dst[putp + 1], dst[putp + 2] := p.b, p.g, p.r;
      end := putp + 3;
    } else {
      hide Word, LittleEndian, Half;
      var packed := Word(p, l.widths);
      HalvesJoin(packed);
      end := PutHalf(dst, putp, packed);
      if l.bpp == 32 {
        end := PutHalf(dst, end, packed / 0x1_0000);
        Assoc(old(dst[..putp]), Half(packed), Half(packed / 0x1_0000));
      }
    }
  }

  method PutHalf(dst: array<Byte>, putp: nat, half: nat) returns (end: nat)
    requires putp + 2 <= dst.Length
    modifies dst
    ensures end == putp + 2 && dst[..end] == old(dst[..putp]) + Half(half)
  {
    dst[putp], dst[putp + 1] := half % 256, half / 0x100 % 256;
    end := putp + 2;
  }

  /** The writer's loop: pixels, then padding to a multiple of four bytes. */
  method WriteColours(src: array<Argb>, dst: array<Byte>, l: Layout) returns (putp: nat)
    requires dst.Length >= 12 * src.Length + 28
    modifies dst
    ensures putp == Pitch(src.Length, l.bpp) <= dst.Length
    ensures At(src.Length, l) <= putp
    ensures dst[..putp] == StoredRow(src[..], l) + Zeros(putp - At(src.Length, l))
  {
    hide Stored, StoredRow;
    ghost var row := src[..];
    putp := 0;
    NoPixels(l);
    for i := 0 to src.Length
      invariant putp == At(i, l) && dst[..putp] == StoredRow(row[..i], l)
    {
      putp := PutPixel(dst, putp, src[i], l);
      NextPixel(row, i, l);
    }
    assert row[..src.Length] == row;
    PitchIsPadded(src.Length, l.bpp);
    assert (src.Length * l.bpp + 7) / 8 == putp;
    putp := PadColours(dst, putp, StoredRow(row, l));
  }

  method PadColours(dst: array<Byte>, from: nat, ghost stored: seq<Byte>) returns (putp: nat)
    requires Padded4(from) <= dst.Length && dst[..from] == stored
    modifies dst
    ensures putp == Padded4(from) && dst[..putp] == stored + Zeros(putp - from)
  {
    putp := from;
    while putp % 4 != 0
      invariant from <= putp <= Padded4(from)
      invariant dst[..putp] == stored + Zeros(putp - from)
      decreases Padded4(from) - putp
    {
      OneMoreZero(stored, putp - from);
      ghost var before := dst[..putp];
      dst[putp] := 0;
      putp := putp + 1;
      assert dst[..putp] == before + [0];
    }
  }

  lemma NoPixels(l: Layout)
    ensures StoredRow([], l) == []
  {
  }

  lemma OneMoreZero(s: seq<Byte>, n: nat)
    ensures s + Zeros(n) + [0] == s + Zeros(n + 1)
  {
  }

  lemma NextPixel(row: seq<Argb>, i: nat, l: Layout)
    requires i < |row|
    ensures StoredRow(row[..i + 1], l) == StoredRow(row[..i], l) + Stored(row[i], l)
  {
    assert row[..i + 1][..i] == row[..i];
  }

  /** The reader's loop over a line it has taken. */
  method ReadColours(line: seq<Byte>, dst: array<Argb>, l: Layout)
    requires |line| == Pitch(dst.Length, l.bpp)
    modifies dst
    ensures At(dst.Length, l) <= |line|
    ensures forall k :: 0 <= k < dst.Length ==>
      dst[k] == Loaded(line[At(k, l)..At(k, l) + Size(l)], l)
  {
    hide Loaded;
    PitchIsPadded(dst.Length, l.bpp);
    LineHolds(dst.Length, l);
    hide At, Size, Pitch;
    var getp := 0;
    for i := 0 to dst.Length
      invariant getp == At(i, l)
      invariant forall k :: 0 <= k < i ==>
        At(k, l) + Size(l) <= |line| && dst[k] == Loaded(line[At(k, l)..At(k, l) + Size(l)], l)
    {
      NextPlace(i, dst.Length, l);
      dst[i] := GetPixel(line, getp, l);
      getp := getp + Size(l);
    }
  }

  lemma LineHolds(n: nat, l: Layout)
    ensures At(0, l) == 0 && At(n, l) <= Pitch(n, l.bpp)
  {
    PitchIsPadded(n, l.bpp);
  }

  lemma NextPlace(k: nat, n: nat, l: Layout)
    requires k < n
    ensures At(k + 1, l) == At(k, l) + Size(l) <= At(n, l)
  {
  }

  method GetPixel(line: seq<Byte>, getp: nat, l: Layout) returns (p: Argb)
    requires getp + Size(l) <= |line|
    ensures p == Loaded(line[getp..getp + Size(l)], l)
  {
    hide Unpacked;
    if l.bpp == 24 {
      p := Argb(255, line[getp + 2], line[getp + 1], line[getp]);
    } else if l.bpp == 32 {
      p := Unpacked(FromLittleEndian(line[getp], line[getp + 1], line[getp + 2], line[getp + 3]), l);
    } else {
      p := Unpacked(FromLittleEndian(line[getp], line[getp + 1], 0, 0), l);
    }
  }

  /** A row there and back: every pixel in its own place as its layout makes it, which for the ones
      that keep it is exact at 32 bits and opaque at 24. */
  method ThereAndBack(src: array<Argb>, line: array<Byte>, dst: array<Argb>, l: Layout)
    requires src != dst && line.Length >= 12 * src.Length + 28 && dst.Length == src.Length
    modifies line, dst
    ensures forall k :: 0 <= k < dst.Length ==> dst[k] == Loaded(Stored(src[k], l), l)
    ensures Keeps(l) ==> forall k :: 0 <= k < dst.Length ==> dst[k] == KeptPixel(src[k], l)
  {
    hide Stored, StoredRow, Loaded, KeptPixel;
    var putp := WriteColours(src, line, l);
    ReadColours(line[..putp], dst, l);
    forall k | 0 <= k < dst.Length
      ensures dst[k] == Loaded(Stored(src[k], l), l)
    {
      StoredAt(src[..], l, k);
      StoredRowSize(src[..], l);
      assert line[..putp][At(k, l)..At(k, l) + Size(l)] == Stored(src[k], l);
    }
    if Keeps(l) {
      forall k | 0 <= k < dst.Length
        ensures dst[k] == KeptPixel(src[k], l)
      {
        PixelComesBack(src[k], l);
      }
    }
  }
}
