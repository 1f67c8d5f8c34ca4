/** Stored bitmap rows in plain bytes and numbers. */
module BitmapText {
  import opened Arithmetic
  import opened Common
  import opened BitmapPackets
  import opened BitmapReader
  import opened BitmapWriter
  import opened BitmapEnds
  import opened BitmapFields
  import BitmapChannels
  import BitmapColour

  // ----- Reading packed rows -----

  /** A count and a value, and the end-of-line marker. */
  lemma ReadRunBytes(n: Byte, v: Byte, rest: seq<Byte>)
    requires n > 0
    ensures ReadLine([n, v, 0, 0] + rest, n) == Some((Repeat(n, v), rest))
  {
    var s: seq<Byte> := [n, v, 0, 0] + rest;
    assert s[2..] == [0, 0] + rest && ([0, 0] + rest)[2..] == rest;
    assert ReadFront(s) == Front(Repeat(n, v), 2, [0, 0] + rest);
  }

  /** A zero, a count of 3 or more, that many values, and one more byte if the count is odd; the
      marker is dropped where it is needed to make the bytes of the row a multiple of 4. */
  lemma ReadLiteralBytes(bytes: seq<Byte>, pad: seq<Byte>, rest: seq<Byte>)
    requires 3 <= |bytes| <= 255 && |pad| == |bytes| % 2
    ensures ReadLine([0, |bytes|] + bytes + pad + rest, |bytes|)
         == Some((bytes, Drop(rest, if (2 + |bytes| + |pad|) % 4 == 0 then 0 else 2)))
  {
    hide ReadPackets, ReadLine, Drop;
    var p := Literal(bytes, pad);
    var s: seq<Byte> := [0, |bytes|] + bytes + pad + rest;
    assert s == Wire(p) + rest;
    PacketLast(p, s, rest, 0, |bytes|);
    LineFrom(s, |bytes|, bytes, rest, |Wire(p)|);
  }

  /** A marker in front of a run is read over, and with it there are four bytes. */
  lemma ReadAfterMarker(n: Byte, v: Byte, rest: seq<Byte>)
    requires n > 0
    ensures ReadLine([0, 0, n, v] + rest, n) == Some((Repeat(n, v), rest))
  {
    var s: seq<Byte> := [n, v] + rest;
    assert [0, 0, n, v] + rest == END_OF_LINE + s && s[2..] == rest;
    MarkerIsIgnored(s, n);
    assert ReadFront(s) == Front(Repeat(n, v), 2, rest);
    assert [] + Repeat(n, v) == Repeat(n, v);
  }

  // ----- Writing packed rows -----

  lemma OnePacket(row: seq<Byte>)
    requires row != [] && Pass(row, |row|).Some? && |Pixels(Pass(row, |row|).value)| == |row|
    ensures Packets(row, |row|) == Some([Pass(row, |row|).value])
  {
    var p := Pass(row, |row|).value;
    assert row[|row|..] == [] && [p] + [] == [p];
    assert Packets([], |row|) == Some([]);
  }

  lemma WireOfOne(p: Packet)
    requires ValidPacket(p)
    ensures ValidRow([p]) && RowWire([p]) == Wire(p) + [0, 0]
  {
    assert [p][1..] == [];
    assert PacketsWire([p]) == Wire(p) + [];
  }

  /** 4 to 255 bytes alike are stored as their count and one of them. */
  lemma SolidBytes(n: nat, v: Byte)
    requires 4 <= n <= 255
    ensures Packets(Repeat(n, v), n).Some? && ValidRow(Packets(Repeat(n, v), n).value)
    ensures RowWire(Packets(Repeat(n, v), n).value) == [n, v, 0, 0]
  {
    var row := Repeat(n, v);
    RunIsThere(row, n);
    assert row[n..] == [];
    assert ChoosesRun(row, n) && RunLength(row) == n;
    assert Pass(row, n) == Some(Run(n, v));
    OnePacket(row);
    WireOfOne(Run(n, v));
  }

  /** Three bytes, whatever they are, are stored as they stand, with one more to make them even. */
  lemma ThreeBytes(a: Byte, b: Byte, c: Byte)
    ensures Packets([a, b, c], 3).Some? && ValidRow(Packets([a, b, c], 3).value)
    ensures RowWire(Packets([a, b, c], 3).value) == [0, 3, a, b, c, 0, 0, 0]
  {
    var row := [a, b, c];
    var first := RunCount(row);
    RunEnds(row, first);
    if first < 3 { RunEnds(row[first..], RunCount(row[first..])); } else { assert row[first..] == []; }
    assert !ChoosesRun(row, 3);
    assert LiteralLength(row) == 3 && row[..3] == row;
    assert Pass(row, 3) == Some(Literal(row, [0]));
    OnePacket(row);
    WireOfOne(Literal(row, [0]));
    assert [0, |row|] + row + [0] + [0, 0] == [0, 3, a, b, c, 0, 0, 0];
  }

  /** The bytes begin with n alike and no more, up to 255. */
  predicate RunIs(s: seq<Byte>, n: nat) {
    && n <= |s| && n <= 255 && (s != [] ==> n >= 1)
    && (forall k :: 0 <= k < n ==> s[k] == s[0])
    && (n < 255 && n < |s| ==> s[n] != s[0])
  }

  lemma CountIsRun(s: seq<Byte>, n: nat)
    ensures RunIs(s, n) <==> RunCount(s) == n
  {
    if s != [] {
      RunEnds(s, RunCount(s));
      if RunIs(s, n) { RunIsThere(s, n); }
    }
  }

  /** A run is taken when it and the next come to 4 bytes or more; its count and value are stored. */
  lemma RunIsTaken(src: seq<Byte>, width: nat, first: nat, second: nat)
    requires |src| >= 3 && width >= 3 && RunIs(src, first) && RunIs(src[first..], second)
    ensures first + second >= 4 ==> Pass(src, width) == Some(Run(first, src[0]))
    ensures first + second < 4 ==> Pass(src, width).Some? && Pass(src, width).value.Literal?
  {
    hide RunCount;
    CountIsRun(src, first);
    CountIsRun(src[first..], second);
  }

  predicate RunAt(src: seq<Byte>, from: nat, end: nat, n: nat) {
    from <= end <= |src| && RunIs(src[from..end], n)
  }

  ghost predicate TwoRuns(src: seq<Byte>, n: nat, left: nat) {
    exists second: nat, third: nat ::
      && RunAt(src, n, |src|, second) && RunAt(src, second, left, third)
      && (second >= 5 || (second >= 3 && third >= 5))
  }

  /** Where a literal stops: before 5 alike, or before 3 where 5 are alike at that number from its
      beginning, as far as the distance from the end allows. */
  ghost predicate LiteralEnds(src: seq<Byte>, n: nat)
    requires n <= |src|
  {
    TwoRuns(src, n, |src| - n)
  }

  lemma RunWithin(s: seq<Byte>)
    ensures RunCount(s) <= |s|
  {
  }

  lemma StopIsEnd(src: seq<Byte>, n: nat)
    requires n <= |src|
    ensures StopsAt(src, n) <==> LiteralEnds(src, n)
  {
    hide RunCount, RunIs;
    var left := |src| - n;
    assert src[n..|src|] == src[n..];
    var second := RunCount(src[n..]);
    RunWithin(src[n..]);
    var third := RunCount(src[second..left]);
    CountIsRun(src[n..], second);
    CountIsRun(src[second..left], third);
    assert RunAt(src, n, |src|, second) && RunAt(src, second, left, third);
    if s: nat, t: nat :| RunAt(src, n, |src|, s) && RunAt(src, s, left, t) && (s >= 5 || (s >= 3 && t >= 5)) {
      CountIsRun(src[n..], s);
      CountIsRun(src[s..left], t);
    }
  }

  lemma {:induction false} ScanIsFirst(src: seq<Byte>, n: nat)
    requires n % 2 == 0
    ensures var r := LiteralScan(src, n);
      && r % 2 == 0 && (r >= |src| || r >= 254 || LiteralEnds(src, r))
      && forall k: nat :: n <= k < r && k % 2 == 0 ==> k < |src| && k < 254 && !LiteralEnds(src, k)
    decreases |src| - n
  {
    hide StopsAt, LiteralEnds;
    if n < |src| {
      StopIsEnd(src, n);
      if n < 254 && !StopsAt(src, n) { ScanIsFirst(src, n + 2); }
    }
  }

  /** A literal goes on by two bytes from 4 to the first place where it stops, or to 254; one that
      would leave two bytes or fewer takes them as well, up to 254. */
  lemma LiteralReaches(src: seq<Byte>, width: nat) returns (n: nat)
    requires |src| >= 3 && Pass(src, width).Some? && Pass(src, width).value.Literal?
    ensures n >= 4 && n % 2 == 0 && (n >= |src| || n >= 254 || LiteralEnds(src, n))
    ensures forall k: nat :: 4 <= k < n && k % 2 == 0 ==> k < |src| && k < 254 && !LiteralEnds(src, k)
    ensures var all := if n >= |src| - 2 then |src| else n;
      Pass(src, width).value.bytes == src[..if all > 254 then 254 else all]
  {
    hide LiteralEnds;
    ScanIsFirst(src, 4);
    n := LiteralScan(src, 4);
  }

  // ----- Rows of indices -----

  function PixelAt(row: seq<Byte>, k: nat): Byte {
    if k < |row| then row[k] else 0
  }

  /** Eight pixels to a byte, two to a byte, or one, the first in the highest place; zeros after the
      last. */
  lemma StoredBits(bytes: seq<Byte>, row: seq<Byte>, j: nat)
    requires Holds(bytes, row, 1) && j < |bytes|
    ensures bytes[j] == 128 * (PixelAt(row, 8 * j) % 2) + 64 * (PixelAt(row, 8 * j + 1) % 2)
      + 32 * (PixelAt(row, 8 * j + 2) % 2) + 16 * (PixelAt(row, 8 * j + 3) % 2)
      + 8 * (PixelAt(row, 8 * j + 4) % 2) + 4 * (PixelAt(row, 8 * j + 5) % 2)
      + 2 * (PixelAt(row, 8 * j + 6) % 2) + PixelAt(row, 8 * j + 7) % 2
  {
    hide Bit, Holds;
    BitsMakeByte(bytes[j]);
    BitIs(bytes, row, j, 0);
    BitIs(bytes, row, j, 1);
    BitIs(bytes, row, j, 2);
    BitIs(bytes, row, j, 3);
    BitIs(bytes, row, j, 4);
    BitIs(bytes, row, j, 5);
    BitIs(bytes, row, j, 6);
    BitIs(bytes, row, j, 7);
  }

  lemma BitIs(bytes: seq<Byte>, row: seq<Byte>, j: nat, i: nat)
    requires Holds(bytes, row, 1) && j < |bytes| && i < 8
    ensures Bit(bytes[j], i) == PixelAt(row, 8 * j + i) % 2
  {
    hide Bit;
    Division(8 * j + i, 8, j, i);
    assert Field(bytes, 8 * j + i, 1) == Bit(bytes[j], i);
  }

  lemma StoredNibbles(bytes: seq<Byte>, row: seq<Byte>, j: nat)
    requires Holds(bytes, row, 4) && j < |bytes|
    ensures bytes[j] == 16 * (PixelAt(row, 2 * j) % 16) + PixelAt(row, 2 * j + 1) % 16
  {
    Division(2 * j, 2, j, 0);
    Division(2 * j + 1, 2, j, 1);
    assert Field(bytes, 2 * j, 4) == bytes[j] / 16 && Field(bytes, 2 * j + 1, 4) == bytes[j] % 16;
  }

  lemma StoredIndices(bytes: seq<Byte>, row: seq<Byte>, j: nat)
    requires Holds(bytes, row, 8) && j < |bytes|
    ensures bytes[j] == PixelAt(row, j)
  {
    assert Field(bytes, j, 8) == bytes[j];
  }

  /** A row takes the least multiple of 4 bytes that has room for it. */
  lemma PitchIsLeast(width: nat, bpp: nat)
    ensures Pitch(width, bpp) % 4 == 0
    ensures width * bpp <= 8 * Pitch(width, bpp) < width * bpp + 32
  {
    var n := width * bpp;
    var q, r := (n + 31) / 32, (n + 31) % 32;
    Division((n + 31) / 8, 4, q, r / 8);
  }

  // ----- Rows of colours -----

  /** A channel is brought to the nearest step of its scale, halves up. */
  lemma NarrowIsNearest(v: Byte, bits: nat)
    requires bits <= 8
    ensures var top, n := [0, 1, 3, 7, 15, 31, 63, 127, 255][bits], BitmapChannels.Narrow(v, bits);
      255 * n <= v * top + 128 < 255 * (n + 1)
  {
    TopsAre(bits);
  }

  lemma TopsAre(bits: nat)
    requires bits <= 8
    ensures BitmapChannels.Top(bits) == [0, 1, 3, 7, 15, 31, 63, 127, 255][bits]
  {
    assert BitmapChannels.Shl(1, 0) == 1 && BitmapChannels.Shl(1, 1) == 2 && BitmapChannels.Shl(1, 2) == 4;
    assert BitmapChannels.Shl(1, 3) == 8 && BitmapChannels.Shl(1, 4) == 16 && BitmapChannels.Shl(1, 5) == 32;
    assert BitmapChannels.Shl(1, 6) == 64 && BitmapChannels.Shl(1, 7) == 128 && BitmapChannels.Shl(1, 8) == 256;
  }

  /** And back to the nearest of 0 to 255; of a single bit 0 comes to 1 and 1 to 256, which wraps. */
  lemma WidenIsNearest(x: nat, bits: nat)
    requires 1 <= bits <= 8 && x <= [0, 1, 3, 7, 15, 31, 63, 127, 255][bits]
    ensures var top, w := [0, 1, 3, 7, 15, 31, 63, 127, 255][bits], BitmapChannels.Widen(x, bits);
      if bits == 1 then w == 1 - x else top * w <= 255 * x + (top + 1) / 2 < top * (w + 1)
  {
    hide BitmapChannels.Up, BitmapChannels.Down, BitmapChannels.Top;
    TopsAre(bits);
    BitmapChannels.Tops(bits);
    var top := BitmapChannels.Top(bits);
    UpIsQuotient(x, top);
    if bits == 8 {
      BitmapChannels.FullScale(x);
    } else if bits >= 2 {
      BitmapChannels.UpAndDown(x, top);
    }
  }

  lemma UpIsQuotient(x: nat, top: nat)
    requires top > 0
    ensures var w := BitmapChannels.Up(x, top); top * w <= 255 * x + (top + 1) / 2 < top * (w + 1)
  {
    var y := 255 * x + (top + 1) / 2;
    var r := BitmapChannels.Remainder(y, top);
    assert top * (y / top + 1) == top * (y / top) + top;
  }

  /** The bytes of a pixel are blue, green, red and, with four full channels, alpha. */
  lemma StoredColour(p: BitmapChannels.Argb, alpha: bool)
    ensures var w := BitmapChannels.Widths(8, 8, 8, 8);
      && BitmapColour.Stored(p, BitmapColour.Format(32, w, alpha)) == [p.b, p.g, p.r, p.a]
      && BitmapColour.Stored(p, BitmapColour.Format(24, w, alpha)) == [p.b, p.g, p.r]
  {
    hide BitmapChannels.Word;
    BitmapChannels.FullWord(p);
    BitmapColour.WordBytes(p.a, p.r, p.g, p.b);
  }

  lemma LoadedColour(b: Byte, g: Byte, r: Byte, a: Byte, alpha: bool)
    ensures var w := BitmapChannels.Widths(8, 8, 8, 8);
      && BitmapColour.Loaded([b, g, r, a], BitmapColour.Format(32, w, alpha))
         == BitmapChannels.Argb(if alpha then a else 255, r, g, b)
      && BitmapColour.Loaded([b, g, r], BitmapColour.Format(24, w, alpha)) == BitmapChannels.Argb(255, r, g, b)
  {
    hide BitmapChannels.Widen, BitmapChannels.MaskField;
    var word := b + 0x100 * g + 0x1_0000 * r + 0x100_0000 * a;
    BitmapChannels.FullFields(word, a, r, g, b);
    BitmapChannels.FullWidthIsExact(a);
    BitmapChannels.FullWidthIsExact(r);
    BitmapChannels.FullWidthIsExact(g);
    BitmapChannels.FullWidthIsExact(b);
  }

  /** Five, six and five bits stand at the top of the word. */
  lemma WordOf565(p: BitmapChannels.Argb)
    ensures BitmapChannels.Word(p, BitmapChannels.Widths(0, 5, 6, 5))
      == 0x800_0000 * BitmapChannels.Narrow(p.r, 5) + 0x20_0000 * BitmapChannels.Narrow(p.g, 6)
         + 0x1_0000 * BitmapChannels.Narrow(p.b, 5)
  {
    hide BitmapChannels.Down;
    var r, g, b := BitmapChannels.Narrow(p.r, 5), BitmapChannels.Narrow(p.g, 6), BitmapChannels.Narrow(p.b, 5);
    NoAlpha(p.a);
    Times32(r);
    BitmapChannels.ThreeBytes(8 * r);
    BitmapChannels.ShlAdds(r, 3, 24);
    BitmapChannels.TwoBytes(32 * g);
    BitmapChannels.ShlAdds(g, 5, 16);
    Times32(g);
    BitmapChannels.TwoBytes(b);
    NothingShifted(32);
  }

  lemma NoAlpha(a: Byte)
    ensures BitmapChannels.Narrow(a, 0) == 0
  {
    TopsAre(0);
  }

  lemma Times32(v: nat)
    ensures BitmapChannels.Shl(v, 3) == 8 * v && BitmapChannels.Shl(v, 5) == 32 * v
  {
    assert BitmapChannels.Shl(v, 1) == 2 * v && BitmapChannels.Shl(v, 2) == 4 * v && BitmapChannels.Shl(v, 4) == 16 * v;
  }

  lemma {:induction false} NothingShifted(n: nat)
    ensures BitmapChannels.Shl(0, n) == 0
  {
    if n > 0 { NothingShifted(n - 1); }
  }

  /** At 16 bits with five, six and five: the fields from the bottom up are blue, green and red. */
  lemma LoadedOf565(lo: Byte, hi: Byte)
    ensures var n, w := lo + 0x100 * hi, BitmapChannels.Widths(0, 5, 6, 5);
      var p := BitmapColour.Loaded([lo, hi], BitmapColour.Format(16, w, false));
      && p.a == 255 && p.r == BitmapChannels.Widen(n / 0x800 % 32, 5)
      && p.g == BitmapChannels.Widen(n / 32 % 64, 6) && p.b == BitmapChannels.Widen(n % 32, 5)
  {
    hide BitmapChannels.Widen, BitmapChannels.Top;
    var n := lo + 0x100 * hi;
    TopsAre(5);
    TopsAre(6);
    Over32(n);
    BitmapChannels.OneByte(n);
    BitmapChannels.ShrAdds(n, 8, 3);
    Over32(n / 256);
    Division(n, 0x800, hi / 8, hi % 8 * 0x100 + lo);
    Division(n, 256, hi, lo);
    BitmapChannels.NoPlaces(n);
  }

  lemma Over32(v: nat)
    ensures BitmapChannels.Shr(v, 3) == v / 8 && BitmapChannels.Shr(v, 5) == v / 32
  {
    assert BitmapChannels.Shr(v, 3) == BitmapChannels.Shr(v / 2, 2) == BitmapChannels.Shr(v / 2 / 2, 1);
    assert BitmapChannels.Shr(v / 2 / 2, 1) == v / 2 / 2 / 2;
    assert BitmapChannels.Shr(v, 5) == BitmapChannels.Shr(v / 2, 4) == BitmapChannels.Shr(v / 2 / 2, 3);
    assert BitmapChannels.Shr(v / 2 / 2, 3) == BitmapChannels.Shr(v / 2 / 2 / 2, 2) == BitmapChannels.Shr(v / 16, 1);
  }
}
