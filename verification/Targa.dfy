/** Targa pixels: how each depth stores a pixel and what it gives back. */
module TargaPixel {
  import opened Arithmetic
  import opened Common

  /** A pixel in memory: a palette index, or a colour with alpha. */
  datatype Pixel = Index(v: Byte) | Argb(a: Byte, r: Byte, g: Byte, b: Byte)

  /** Grey8 maps every index through a table on writing.  Rgb16 has one flag for the writer
      and one for the reader, saying whether the top bit carries alpha. */
  datatype Format =
    | Grey8(greyPal: seq<Byte>)
    | Rgb16(writeAlpha: bool, readAlpha: bool)
    | Rgb24
    | Argb32
  {
    predicate Valid() {
      Grey8? ==> |greyPal| == 256
    }

    /** Bytes a stored pixel takes. */
    function Size(): nat {
      match this case Grey8(_) => 1 case Rgb16(_, _) => 2 case Rgb24 => 3 case Argb32 => 4
    }

    /** More than 8 bits a pixel. */
    predicate Deep() {
      !Grey8?
    }
  }

  predicate Fits(p: Pixel, f: Format) {
    p.Index? <==> f.Grey8?
  }

  predicate RowFits(row: seq<Pixel>, f: Format) {
    f.Valid() && forall k :: 0 <= k < |row| ==> Fits(row[k], f)
  }

  /** The 16-bit colour: one bit, which is 1 when no alpha is written, and three times five. */
  function Colour16(p: Pixel, writeAlpha: bool): (c: int)
    requires p.Argb?
    ensures 0 <= c < 0x1_0000
  {
    (if writeAlpha then p.a / 128 else 1) * 0x8000 + p.r / 8 * 0x400 + p.g / 8 * 0x20 + p.b / 8
  }

  function StoredPixel(p: Pixel, f: Format): (s: seq<Byte>)
    requires f.Valid() && Fits(p, f)
    ensures |s| == f.Size()
  {
    match f
    case Grey8(pal) => [pal[p.v]]
    case Rgb16(w, _) => [Colour16(p, w) % 256, Colour16(p, w) / 256]
    case Rgb24 => [p.b, p.g, p.r]
    case Argb32 => [p.b, p.g, p.r, p.a]
  }

  /** Five bits spread over eight. */
  function Spread(x: int): Byte
    requires 0 <= x < 32
  {
    255 * x / 31
  }

  function LoadedPixel(s: seq<Byte>, f: Format): (p: Pixel)
    requires |s| == f.Size()
    ensures Fits(p, f)
  {
    match f
    case Grey8(_) => Index(s[0])
    case Rgb16(_, r) =>
      Argb(if r then 255 * (s[1] / 128 % 2) else 255,
           Spread(s[1] / 4 % 32), Spread(s[1] % 4 * 8 + s[0] / 32 % 8), Spread(s[0] % 32))
    case Rgb24 => Argb(255, s[2], s[1], s[0])
    case Argb32 => Argb(s[3], s[2], s[1], s[0])
  }

  /** What is left of a pixel after storing and loading it. */
  function Kept(p: Pixel, f: Format): Pixel
    requires Fits(p, f) && f.Valid()
  {
    match f
    case Grey8(pal) => Index(pal[p.v])
    case Rgb16(w, r) =>
      Argb(if r && w then 255 * (p.a / 128) else 255, Spread(p.r / 8), Spread(p.g / 8), Spread(p.b / 8))
    case Rgb24 => p.(a := 255)
    case Argb32 => p
  }

  lemma StoreLoad(p: Pixel, f: Format)
    requires f.Valid() && Fits(p, f)
    ensures LoadedPixel(StoredPixel(p, f), f) == Kept(p, f)
  {
    if f.Rgb16? {
      Fields16(if f.writeAlpha then p.a / 128 else 1, p.r / 8, p.g / 8, p.b / 8);
    }
  }

  // ----- The numbers behind the bytes -----

  /** Bytes as a number, the lowest first. */
  function Number(s: seq<Byte>): nat {
    if s == [] then 0 else s[0] + 0x100 * Number(s[1..])
  }

  lemma NumberCons(s: seq<Byte>, b: Byte, more: seq<Byte>)
    requires s == [b] + more
    ensures Number(s) == b + 0x100 * Number(more)
  {
    assert s[1..] == more;
  }

  lemma NumberOfTwo(b0: Byte, b1: Byte)
    ensures Number([b0]) == b0 && Number([b0, b1]) == b0 + 0x100 * b1
  {
    NumberCons([b0], b0, []);
    NumberCons([b1], b1, []);
    NumberCons([b0, b1], b0, [b1]);
  }

  lemma NumberOfFour(b0: Byte, b1: Byte, b2: Byte, b3: Byte)
    ensures Number([b0, b1, b2]) == b0 + 0x100 * b1 + 0x1_0000 * b2
    ensures Number([b0, b1, b2, b3]) == b0 + 0x100 * b1 + 0x1_0000 * b2 + 0x100_0000 * b3
  {
    hide Number;
    NumberOfTwo(b1, b2);
    NumberOfTwo(b2, b3);
    NumberCons([b0, b1, b2], b0, [b1, b2]);
    NumberCons([b1, b2, b3], b1, [b2, b3]);
    NumberCons([b0, b1, b2, b3], b0, [b1, b2, b3]);
  }

  /** A stored pixel is the number of its colour: alpha, red, green and blue from the top down, in
      eight bits each or in one and three times five. */
  lemma StoredNumber(p: Pixel, f: Format)
    requires f.Valid() && Fits(p, f)
    ensures f.Grey8? ==> Number(StoredPixel(p, f)) == f.greyPal[p.v]
    ensures f.Rgb16? ==>
      Number(StoredPixel(p, f))
      == (if f.writeAlpha && p.a < 0x80 then 0 else 0x8000) + 0x400 * (p.r / 8) + 0x20 * (p.g / 8) + p.b / 8
    ensures f.Rgb24? ==> Number(StoredPixel(p, f)) == 0x1_0000 * p.r + 0x100 * p.g + p.b
    ensures f.Argb32? ==> Number(StoredPixel(p, f)) == 0x100_0000 * p.a + 0x1_0000 * p.r + 0x100 * p.g + p.b
  {
    hide Number;
    match f
    case Grey8(pal) => NumberOfTwo(pal[p.v], 0);
    case Rgb16(w, _) => NumberOfTwo(Colour16(p, w) % 256, Colour16(p, w) / 256);
    case Rgb24 => NumberOfFour(p.b, p.g, p.r, 0);
    case Argb32 => NumberOfFour(p.b, p.g, p.r, p.a);
  }

  /** v is 255 times c over 31, rounded down: 0 for 0 and 255 for 31. */
  predicate Widened(c: int, v: int) {
    31 * v <= 255 * c < 31 * (v + 1)
  }

  /** Any bytes at all are loaded as the colour of their number, five bits being widened to eight. */
  lemma LoadedNumber(s: seq<Byte>, f: Format)
    requires |s| == f.Size()
    ensures f.Grey8? ==> LoadedPixel(s, f).v == Number(s)
    ensures f.Rgb16? ==> IsColour16(Number(s), f.readAlpha, LoadedPixel(s, f))
    ensures f.Rgb24? ==>
      var p := LoadedPixel(s, f);
      p.a == 255 && Number(s) == 0x1_0000 * p.r + 0x100 * p.g + p.b
    ensures f.Argb32? ==>
      var p := LoadedPixel(s, f);
      Number(s) == 0x100_0000 * p.a + 0x1_0000 * p.r + 0x100 * p.g + p.b
  {
    hide Number, IsColour16;
    match f
    case Grey8(_) =>
      NumberOfTwo(s[0], 0);
      assert s == [s[0]];
    case Rgb16(_, _) => LoadedColour16(s, f);
    case Rgb24 =>
      NumberOfFour(s[0], s[1], s[2], 0);
      assert s == [s[0], s[1], s[2]];
    case Argb32 =>
      NumberOfFour(s[0], s[1], s[2], s[3]);
      assert s == [s[0], s[1], s[2], s[3]];
  }

  lemma LoadedColour16(s: seq<Byte>, f: Format)
    requires |s| == 2 && f.Rgb16?
    ensures IsColour16(Number(s), f.readAlpha, LoadedPixel(s, f))
  {
    hide Number;
    NumberOfTwo(s[0], s[1]);
    assert s == [s[0], s[1]];
    Word16(s[0], s[1]);
  }

  /** The colour of a 16-bit number. */
  predicate IsColour16(n: nat, readAlpha: bool, p: Pixel) {
    && p.Argb? && p.a == (if readAlpha && n < 0x8000 then 0 else 255)
    && Widened(n / 0x400 % 0x20, p.r) && Widened(n / 0x20 % 0x20, p.g) && Widened(n % 0x20, p.b)
  }

  /** The fields of the number of two bytes. */
  lemma Word16(lo: Byte, hi: Byte)
    ensures var n := lo + 0x100 * hi;
      && hi / 128 % 2 == (if n < 0x8000 then 0 else 1) && n / 0x400 % 0x20 == hi / 4 % 32
      && n / 0x20 % 0x20 == hi % 4 * 8 + lo / 32 % 8 && n % 0x20 == lo % 32
  {
    var n := lo + 0x100 * hi;
    Division(n, 0x400, hi / 4, hi % 4 * 0x100 + lo);
    Division(n, 0x20, 8 * hi + lo / 32, lo % 32);
    Division(8 * hi + lo / 32, 0x20, hi / 4, hi % 4 * 8 + lo / 32);
  }

  /** The fields of a 16-bit colour come apart again. */
  lemma Fields16(a: int, r: int, g: int, b: int)
    requires 0 <= a < 2 && 0 <= r < 32 && 0 <= g < 32 && 0 <= b < 32
    ensures var c := a * 0x8000 + r * 0x400 + g * 0x20 + b;
      var lo, hi := c % 256, c / 256;
      hi / 128 % 2 == a && hi / 4 % 32 == r && hi % 4 * 8 + lo / 32 % 8 == g && lo % 32 == b
  {
    var c := a * 0x8000 + r * 0x400 + g * 0x20 + b;
    LowAndHigh(a * 128 + r * 4, g, b, c);
    HighFields(a, r, g / 8);
    LowFields(g % 8, b);
  }

  lemma LowAndHigh(h: int, g: int, b: int, c: int)
    requires c == 256 * h + 0x20 * g + b && 0 <= g < 32 && 0 <= b < 32
    ensures c / 256 == h + g / 8 && c % 256 == g % 8 * 32 + b
  {
  }

  lemma HighFields(a: int, r: int, g: int)
    requires 0 <= a < 2 && 0 <= r < 32 && 0 <= g < 4
    ensures var h := a * 128 + r * 4 + g; h / 128 % 2 == a && h / 4 % 32 == r && h % 4 == g
  {
  }

  lemma LowFields(g: int, b: int)
    requires 0 <= g < 8 && 0 <= b < 32
    ensures var l := g * 32 + b; l / 32 % 8 == g && l % 32 == b
  {
  }

  /** A second pass changes nothing, at every depth above 8 bits. */
  lemma KeptIsStable(p: Pixel, f: Format)
    requires f.Deep() && Fits(p, f) && f.Valid()
    ensures Kept(Kept(p, f), f) == Kept(p, f)
  {
    if f.Rgb16? {
      SpreadBack(p.r / 8);
      SpreadBack(p.g / 8);
      SpreadBack(p.b / 8);
    }
  }

  lemma SpreadBack(x: int)
    requires 0 <= x < 32
    ensures Spread(x) / 8 == x
  {
  }
}

/** The run-length format of a row: what the writer chooses and what the reader makes of it. */
module TargaRow {
  import opened Common
  import opened TargaPixel

  const MAX_PACKET := 128

  /** Pixels at the front that equal the first, counted up to a packet's worth. */
  function RunLength(row: seq<Pixel>): nat {
    RunFrom(row, 0)
  }

  function RunFrom(row: seq<Pixel>, n: nat): (r: nat)
    requires n <= |row| && n <= MAX_PACKET
    requires forall k :: 0 <= k < n ==> row[k] == row[0]
    ensures n <= r <= |row| && r <= MAX_PACKET
    ensures forall k :: 0 <= k < r ==> row[k] == row[0]
    ensures r < |row| && r < MAX_PACKET ==> row[r] != row[0]
    decreases |row| - n
  {
    if n == |row| || n == MAX_PACKET || row[n] != row[0] then n else RunFrom(row, n + 1)
  }

  /** A run worth breaking a literal for. */
  predicate GoodRun(n: nat, f: Format) {
    n >= 3 || (n >= 2 && f.Deep())
  }

  predicate StartsWithRun(row: seq<Pixel>, f: Format) {
    var one := RunLength(row);
    one >= 3 || (one >= 2 && (RunLength(row[one..]) >= 2 || f.Deep()))
  }

  /** Where a literal that already holds n pixels stops. */
  function LiteralScan(row: seq<Pixel>, n: nat, f: Format): (r: nat)
    requires 1 <= n <= |row| && n <= MAX_PACKET
    ensures n <= r <= |row| && r <= MAX_PACKET
    ensures r < |row| && r < MAX_PACKET ==> GoodRun(RunLength(row[r..]), f)
    decreases |row| - n
  {
    if n == |row| || n == MAX_PACKET || GoodRun(RunLength(row[n..]), f) then n else LiteralScan(row, n + 1, f)
  }

  /** A literal that stops within three pixels of the end takes them too, up to its limit. */
  function LiteralLength(row: seq<Pixel>, f: Format): (r: nat)
    requires row != []
    ensures 1 <= r <= |row| && r <= MAX_PACKET
    ensures r < |row| && r < MAX_PACKET ==> GoodRun(RunLength(row[r..]), f)
  {
    var n := LiteralScan(row, 1, f);
    if n < |row| - 3 then n else if |row| > MAX_PACKET then MAX_PACKET else |row|
  }

  function Repeat(n: nat, p: Pixel): (r: seq<Pixel>)
    ensures |r| == n && forall k :: 0 <= k < n ==> r[k] == p
  {
    seq(n, _ => p)
  }

  datatype Packet = Run(count: nat, pixel: Pixel) | Literal(pixels: seq<Pixel>)

  function Pixels(p: Packet): seq<Pixel> {
    match p
    case Run(n, px) => Repeat(n, px)
    case Literal(pxs) => pxs
  }

  function First(row: seq<Pixel>, f: Format): (p: Packet)
    requires row != []
    ensures 1 <= |Pixels(p)| <= MAX_PACKET
    ensures Pixels(p) <= row
  {
    if StartsWithRun(row, f) then Run(RunLength(row), row[0]) else Literal(row[..LiteralLength(row, f)])
  }

  function StoredPixels(row: seq<Pixel>, f: Format): (s: seq<Byte>)
    requires RowFits(row, f)
    ensures |s| == f.Size() * |row|
  {
    if row == [] then [] else StoredPixel(row[0], f) + StoredPixels(row[1..], f)
  }

  predicate PacketFits(p: Packet, f: Format) {
    1 <= |Pixels(p)| <= MAX_PACKET && RowFits(Pixels(p), f) && (p.Run? ==> Fits(p.pixel, f))
  }

  function StoredPacket(p: Packet, f: Format): (s: seq<Byte>)
    requires PacketFits(p, f)
    ensures |s| == 1 + f.Size() * (if p.Run? then 1 else |p.pixels|)
  {
    match p
    case Run(n, px) => [0x80 + (n - 1)] + StoredPixel(px, f)
    case Literal(pxs) => [|pxs| - 1] + StoredPixels(pxs, f)
  }

  function Rest(row: seq<Pixel>, f: Format): seq<Pixel>
    requires row != []
  {
    row[|Pixels(First(row, f))|..]
  }

  /** A compressed row. */
  function Compressed(row: seq<Pixel>, f: Format): seq<Byte>
    requires RowFits(row, f)
    decreases |row|
  {
    if row == [] then [] else StoredPacket(First(row, f), f) + Compressed(Rest(row, f), f)
  }

  function StoredRow(row: seq<Pixel>, f: Format, packed: bool): seq<Byte>
    requires RowFits(row, f)
  {
    if packed then Compressed(row, f) else StoredPixels(row, f)
  }

  // ----- The size of a row -----

  function Packets(n: nat): nat {
    (n + MAX_PACKET - 1) / MAX_PACKET
  }

  lemma PacketsGrow(m: nat, n: nat)
    requires m <= n
    ensures Packets(m) <= Packets(n)
    ensures n >= 1 ==> Packets(n) >= 1
    ensures Packets(m + MAX_PACKET) == Packets(m) + 1
  {
  }

  lemma TimesAtLeast(b: nat, n: nat, m: nat)
    requires n >= m
    ensures b * n >= b * m
  {
  }

  lemma TimesAdd(b: nat, m: nat, n: nat)
    ensures b * (m + n) == b * m + b * n
  {
  }

  /** The bytes of a compressed row beyond those of its pixels. */
  function Overhead(row: seq<Pixel>, f: Format): int
    requires RowFits(row, f)
  {
    |Compressed(row, f)| - f.Size() * |row|
  }

  /** A run costs no more than its pixels would; one that ends a literal saves a byte. */
  lemma RunCost(row: seq<Pixel>, f: Format)
    requires row != [] && RowFits(row, f) && StartsWithRun(row, f)
    ensures var rest := Rest(row, f);
      && RowFits(rest, f)
      && Overhead(row, f) <= Overhead(rest, f) - (if GoodRun(RunLength(row), f) then 1 else 0)
  {
    var b, n, rest := f.Size(), RunLength(row), Rest(row, f);
    TimesAdd(b, n, |rest|);
    TimesAtLeast(b, n, 2);
    if n >= 3 {
      TimesAtLeast(b, n, 3);
    }
  }

  /** A literal costs its pixels and a byte. */
  lemma LiteralCost(row: seq<Pixel>, f: Format)
    requires row != [] && RowFits(row, f) && !StartsWithRun(row, f)
    ensures var rest := Rest(row, f);
      && RowFits(rest, f) && |rest| == |row| - LiteralLength(row, f)
      && Overhead(row, f) == Overhead(rest, f) + 1
      && (rest != [] && LiteralLength(row, f) < MAX_PACKET ==> GoodRun(RunLength(rest), f) && StartsWithRun(rest, f))
  {
    TimesAdd(f.Size(), LiteralLength(row, f), |Rest(row, f)|);
  }

  /** Compression costs at most one byte for every 128 pixels: a short literal is always
      followed by a run that pays for its header. */
  lemma {:induction false} OverheadBound(row: seq<Pixel>, f: Format)
    requires RowFits(row, f)
    ensures Overhead(row, f) <= Packets(|row|)
    decreases |row|
  {
    if row != [] {
      var rest := Rest(row, f);
      if StartsWithRun(row, f) {
        RunCost(row, f);
        OverheadBound(rest, f);
        PacketsGrow(|rest|, |row|);
      } else {
        LiteralCost(row, f);
        if rest != [] && LiteralLength(row, f) < MAX_PACKET {
          RunCost(rest, f);
          OverheadBound(Rest(rest, f), f);
          PacketsGrow(|Rest(rest, f)|, |row|);
        } else {
          OverheadBound(rest, f);
          PacketsGrow(|rest|, |row|);
        }
      }
    }
  }

  /** The writer's line buffer, three times the row's pitch and sixteen more, is always enough. */
  lemma FitsLineBuffer(row: seq<Pixel>, f: Format, packed: bool)
    requires RowFits(row, f)
    ensures |StoredRow(row, f, packed)| <= 3 * (f.Size() * |row|) + 16
  {
    hide Compressed, StoredPixels, Packets, RowFits;
    OverheadBound(row, f);
    PacketsAreFew(|row|, f.Size());
  }

  lemma PacketsAreFew(n: nat, size: nat)
    requires size >= 1
    ensures Packets(n) <= size * n
  {
    TimesAtLeast(n, size, 1);
  }

  // ----- Reading back -----

  function LoadedPixels(s: seq<Byte>, n: nat, f: Format): (r: seq<Pixel>)
    requires |s| == f.Size() * n
    ensures |r| == n
  {
    if n == 0 then []
    else
      TimesAdd(f.Size(), 1, n - 1);
      [LoadedPixel(s[..f.Size()], f)] + LoadedPixels(s[f.Size()..], n - 1, f)
  }

  /** One packet: its pixels, and the bytes after it.  None when the bytes run out. */
  function ReadPacket(s: seq<Byte>, f: Format): (r: Option<(seq<Pixel>, seq<Byte>)>)
    ensures r.Some? ==> |r.value.0| > 0
  {
    if s == [] then None
    else
      var count, body := s[0] % 0x80 + 1, s[1..];
      if s[0] >= 0x80 then
        if |body| < f.Size() then None
        else Some((Repeat(count, LoadedPixel(body[..f.Size()], f)), body[f.Size()..]))
      else
        var bytes := f.Size() * count;
        if |body| < bytes then None
        else Some((LoadedPixels(body[..bytes], count, f), body[bytes..]))
  }

  /** Packets until there are width pixels.  None when the bytes run out or a packet runs
      over the end of the row. */
  function ReadPackets(s: seq<Byte>, width: nat, f: Format): Option<(seq<Pixel>, seq<Byte>)>
    decreases width
  {
    match ReadPacket(s, f)
    case None => None
    case Some((pixels, rest)) =>
      if |pixels| > width then None
      else if |pixels| == width then Some((pixels, rest))
      else
        match ReadPackets(rest, width - |pixels|, f)
        case None => None
        case Some((more, end)) => Some((pixels + more, end))
  }

  function ReadRow(s: seq<Byte>, width: nat, f: Format, packed: bool): Option<(seq<Pixel>, seq<Byte>)> {
    if packed then ReadPackets(s, width, f)
    else if |s| < f.Size() * width then None
    else Some((LoadedPixels(s[..f.Size() * width], width, f), s[f.Size() * width..]))
  }

  function KeptRow(row: seq<Pixel>, f: Format): seq<Pixel>
    requires RowFits(row, f)
  {
    seq(|row|, k requires 0 <= k < |row| => Kept(row[k], f))
  }

  lemma {:induction false} StoreLoadPixels(row: seq<Pixel>, f: Format)
    requires RowFits(row, f)
    ensures LoadedPixels(StoredPixels(row, f), |row|, f) == KeptRow(row, f)
  {
    if row != [] {
      var s := StoredPixels(row, f);
      StoreLoad(row[0], f);
      StoreLoadPixels(row[1..], f);
      assert s[..f.Size()] == StoredPixel(row[0], f);
      assert s[f.Size()..] == StoredPixels(row[1..], f);
      assert KeptRow(row, f) == [Kept(row[0], f)] + KeptRow(row[1..], f);
    }
  }

  /** On the wire a packet is a byte, 127 more than the length of a run or 1 less than that of a
      literal, and then the one pixel or all of them. */
  lemma PacketHeader(p: Packet, f: Format)
    requires PacketFits(p, f)
    ensures p.Run? ==> StoredPacket(p, f) == [127 + p.count] + StoredPixel(p.pixel, f)
    ensures p.Literal? ==> StoredPacket(p, f) == [|p.pixels| - 1] + StoredPixels(p.pixels, f)
  {
  }

  lemma ReadRun(n: nat, body: seq<Byte>, f: Format, rest: seq<Byte>)
    requires 1 <= n <= MAX_PACKET && |body| == f.Size()
    ensures ReadPacket([127 + n] + body + rest, f) == Some((Repeat(n, LoadedPixel(body, f)), rest))
  {
    var s := [127 + n] + body + rest;
    assert s[1..] == body + rest;
    assert (body + rest)[..|body|] == body && (body + rest)[|body|..] == rest;
  }

  lemma ReadLiteral(n: nat, body: seq<Byte>, f: Format, rest: seq<Byte>)
    requires 1 <= n <= MAX_PACKET && |body| == f.Size() * n
    ensures ReadPacket([n - 1] + body + rest, f) == Some((LoadedPixels(body, n, f), rest))
  {
    var s := [n - 1] + body + rest;
    assert s[0] == n - 1 && (n - 1) % 0x80 + 1 == n;
    assert s[1..] == body + rest;
    CutAt(body, rest);
    LiteralBody(s, n, f, f.Size() * n);
  }

  lemma CutAt(a: seq<Byte>, b: seq<Byte>)
    ensures (a + b)[..|a|] == a && (a + b)[|a|..] == b
  {
  }

  lemma LiteralBody(s: seq<Byte>, n: nat, f: Format, bytes: nat)
    requires s != [] && s[0] < 0x80 && s[0] + 1 == n && bytes == f.Size() * n && |s| > bytes
    ensures ReadPacket(s, f) == Some((LoadedPixels(s[1..][..bytes], n, f), s[1..][bytes..]))
  {
  }

  lemma PacketRoundTrip(p: Packet, f: Format, rest: seq<Byte>)
    requires PacketFits(p, f)
    ensures ReadPacket(StoredPacket(p, f) + rest, f) == Some((KeptRow(Pixels(p), f), rest))
  {
    match p {
      case Run(n, px) =>
        StoreLoad(px, f);
        ReadRun(n, StoredPixel(px, f), f, rest);
        assert Repeat(n, Kept(px, f)) == KeptRow(Repeat(n, px), f);
      case Literal(pxs) =>
        StoreLoadPixels(pxs, f);
        ReadLiteral(|pxs|, StoredPixels(pxs, f), f, rest);
    }
  }

  lemma KeptAppend(a: seq<Pixel>, b: seq<Pixel>, f: Format)
    requires RowFits(a, f) && RowFits(b, f)
    ensures RowFits(a + b, f) && KeptRow(a + b, f) == KeptRow(a, f) + KeptRow(b, f)
  {
  }

  /** The first packet of a row and what follows it. */
  lemma FirstPacket(row: seq<Pixel>, f: Format)
    requires RowFits(row, f) && row != []
    ensures var p, more := First(row, f), Rest(row, f);
      && PacketFits(p, f) && RowFits(more, f) && row == Pixels(p) + more
      && Compressed(row, f) == StoredPacket(p, f) + Compressed(more, f)
  {
  }

  lemma ReadPacketsStep(s: seq<Byte>, width: nat, f: Format, pixels: seq<Pixel>, rest: seq<Byte>, more: seq<Pixel>,
      end: seq<Byte>)
    requires ReadPacket(s, f) == Some((pixels, rest)) && |pixels| + |more| == width
    requires if more == [] then end == rest else ReadPackets(rest, |more|, f) == Some((more, end))
    ensures ReadPackets(s, width, f) == Some((pixels + more, end))
  {
    assert more == [] ==> pixels + more == pixels;
  }

  /** The step of the round trip, for any packet in front of any row. */
  lemma PacketThenRow(p: Packet, more: seq<Pixel>, tail: seq<Byte>, f: Format, rest: seq<Byte>)
    requires PacketFits(p, f) && RowFits(more, f)
    requires if more == [] then tail == [] else ReadPackets(tail + rest, |more|, f) == Some((KeptRow(more, f), rest))
    ensures RowFits(Pixels(p) + more, f)
    ensures ReadPackets(StoredPacket(p, f) + tail + rest, |Pixels(p) + more|, f)
         == Some((KeptRow(Pixels(p) + more, f), rest))
  {
    var s := StoredPacket(p, f) + tail + rest;
    assert s == StoredPacket(p, f) + (tail + rest);
    assert tail == [] ==> tail + rest == rest;
    PacketRoundTrip(p, f, tail + rest);
    KeptAppend(Pixels(p), more, f);
    ReadPacketsStep(s, |Pixels(p) + more|, f, KeptRow(Pixels(p), f), tail + rest, KeptRow(more, f), rest);
  }

  lemma {:induction false} PacketsRoundTrip(row: seq<Pixel>, f: Format, rest: seq<Byte>)
    requires RowFits(row, f) && row != []
    ensures ReadPackets(Compressed(row, f) + rest, |row|, f) == Some((KeptRow(row, f), rest))
    decreases |row|
  {
    var p, more := First(row, f), Rest(row, f);
    FirstPacket(row, f);
    if more != [] {
      PacketsRoundTrip(more, f, rest);
    }
    PacketThenRow(p, more, Compressed(more, f), f, rest);
  }

  /** A stored row gives back its pixels, as far as the format keeps them, and the reader stops
      exactly where the row ends, whatever comes next. */
  lemma RowRoundTrip(row: seq<Pixel>, f: Format, packed: bool, rest: seq<Byte>)
    requires RowFits(row, f) && row != []
    ensures ReadRow(StoredRow(row, f, packed) + rest, |row|, f, packed) == Some((KeptRow(row, f), rest))
  {
    if packed {
      PacketsRoundTrip(row, f, rest);
    } else {
      var s := StoredPixels(row, f) + rest;
      assert s[..|StoredPixels(row, f)|] == StoredPixels(row, f) && s[|StoredPixels(row, f)|..] == rest;
      StoreLoadPixels(row, f);
    }
  }
}

/** Whole images: rows are stored from the bottom up. */
module TargaImage {
  import opened Common
  import opened TargaPixel
  import opened TargaRow

  predicate ImageFits(rows: seq<seq<Pixel>>, width: nat, f: Format) {
    f.Valid() && forall k :: 0 <= k < |rows| ==> |rows[k]| == width && RowFits(rows[k], f)
  }

  function StoredImage(rows: seq<seq<Pixel>>, width: nat, f: Format, packed: bool): seq<Byte>
    requires ImageFits(rows, width, f)
  {
    if rows == [] then []
    else StoredRow(rows[|rows| - 1], f, packed) + StoredImage(rows[..|rows| - 1], width, f, packed)
  }

  /** The bottom row comes first. */
  lemma BottomFirst(top: seq<Pixel>, bottom: seq<Pixel>, width: nat, f: Format, packed: bool)
    requires ImageFits([top, bottom], width, f) && RowFits(top, f) && RowFits(bottom, f)
    ensures StoredImage([top, bottom], width, f, packed) == StoredRow(bottom, f, packed) + StoredRow(top, f, packed)
  {
    hide StoredRow;
    var rows := [top, bottom];
    assert rows[..1] == [top] && [top][..0] == [] && rows[0] == top && rows[1] == bottom;
    assert StoredImage([top], width, f, packed) == StoredRow(top, f, packed) + [];
  }

  /** Rows read one after the other, each placed above the last. */
  function ReadRows(s: seq<Byte>, width: nat, height: nat, f: Format, packed: bool)
    : Option<(seq<seq<Pixel>>, seq<Byte>)>
    decreases height
  {
    if height == 0 then Some(([], s))
    else
      match ReadRow(s, width, f, packed)
      case None => None
      case Some((row, rest)) =>
        match ReadRows(rest, width, height - 1, f, packed)
        case None => None
        case Some((rows, end)) => Some((rows + [row], end))
  }

  function KeptImage(rows: seq<seq<Pixel>>, width: nat, f: Format): seq<seq<Pixel>>
    requires ImageFits(rows, width, f)
  {
    seq(|rows|, k requires 0 <= k < |rows| => KeptRow(rows[k], f))
  }

  lemma ReadRowsStep(s: seq<Byte>, width: nat, height: nat, f: Format, packed: bool,
                     row: seq<Pixel>, rest: seq<Byte>, rows: seq<seq<Pixel>>, end: seq<Byte>)
    requires height > 0 && ReadRow(s, width, f, packed) == Some((row, rest))
    requires ReadRows(rest, width, height - 1, f, packed) == Some((rows, end))
    ensures ReadRows(s, width, height, f, packed) == Some((rows + [row], end))
  {
  }

  lemma KeptImageAppend(rows: seq<seq<Pixel>>, width: nat, f: Format)
    requires ImageFits(rows, width, f) && rows != []
    ensures ImageFits(rows[..|rows| - 1], width, f)
    ensures KeptImage(rows, width, f) == KeptImage(rows[..|rows| - 1], width, f) + [KeptRow(rows[|rows| - 1], f)]
  {
  }

  /** One more row below an image that reads back. */
  lemma RowBelow(rows: seq<seq<Pixel>>, width: nat, f: Format, packed: bool, stored: seq<Byte>, rest: seq<Byte>)
    requires ImageFits(rows, width, f) && width > 0 && rows != []
    requires stored == StoredImage(rows[..|rows| - 1], width, f, packed)
    requires ReadRows(stored + rest, width, |rows| - 1, f, packed)
          == Some((KeptImage(rows[..|rows| - 1], width, f), rest))
    ensures ReadRows(StoredImage(rows, width, f, packed) + rest, width, |rows|, f, packed)
         == Some((KeptImage(rows, width, f), rest))
  {
    var last := rows[|rows| - 1];
    Assoc(StoredRow(last, f, packed), stored, rest);
    RowRoundTrip(last, f, packed, stored + rest);
    ReadRowsStep(StoredImage(rows, width, f, packed) + rest, width, |rows|, f, packed,
                 KeptRow(last, f), stored + rest, KeptImage(rows[..|rows| - 1], width, f), rest);
    KeptImageAppend(rows, width, f);
  }

  /** Every row of a stored image comes back in its own place. */
  lemma {:induction false} ImageRoundTrip(rows: seq<seq<Pixel>>, width: nat, f: Format, packed: bool, rest: seq<Byte>)
    requires ImageFits(rows, width, f) && width > 0
    ensures ReadRows(StoredImage(rows, width, f, packed) + rest, width, |rows|, f, packed)
         == Some((KeptImage(rows, width, f), rest))
    decreases |rows|
  {
    if rows == [] {
      assert StoredImage(rows, width, f, packed) + rest == rest && KeptImage(rows, width, f) == [];
    } else {
      var above := rows[..|rows| - 1];
      ImageRoundTrip(above, width, f, packed, rest);
      RowBelow(rows, width, f, packed, StoredImage(above, width, f, packed), rest);
    }
  }

  lemma KeptFits(rows: seq<seq<Pixel>>, width: nat, f: Format)
    requires ImageFits(rows, width, f)
    ensures ImageFits(KeptImage(rows, width, f), width, f)
  {
  }

  /** Above 8 bits, an image that has been through the format once goes through it unchanged. */
  lemma SecondPassIsExact(rows: seq<seq<Pixel>>, width: nat, f: Format, packed: bool, rest: seq<Byte>)
    requires ImageFits(rows, width, f) && width > 0 && f.Deep()
    ensures ImageFits(KeptImage(rows, width, f), width, f)
    ensures var once := KeptImage(rows, width, f);
      ReadRows(StoredImage(once, width, f, packed) + rest, width, |rows|, f, packed) == Some((once, rest))
  {
    var once := KeptImage(rows, width, f);
    KeptFits(rows, width, f);
    ImageRoundTrip(once, width, f, packed, rest);
    forall k | 0 <= k < |rows| ensures KeptRow(once[k], f) == once[k] {
      forall i | 0 <= i < width ensures Kept(once[k][i], f) == once[k][i] {
        KeptIsStable(rows[k][i], f);
      }
      assert KeptRow(once[k], f) == once[k];
    }
    assert KeptImage(once, width, f) == once;
  }
}

/** The loops of the codec. */
module TargaCodec {
  import opened Common
  import opened TargaPixel
  import opened TargaRow
  import opened TargaImage

  /** TGA_rlecount */
  method RleCount(src: seq<Pixel>, maxCount0: nat) returns (count: nat)
    requires maxCount0 == |src|
    ensures count == RunLength(src)
  {
    var maxCount := maxCount0;
    if maxCount > 128 {
      maxCount := 128;
    }
    count := 0;
    while count < maxCount
      invariant count <= maxCount
      invariant forall k :: 0 <= k < count ==> src[k] == src[0]
      invariant RunFrom(src, count) == RunLength(src)
    {
      if src[0] != src[count] {
        break;
      }
      count := count + 1;
    }
  }

  /** Sixteen bits, low byte first. */
  method PutColour16(p: Pixel, writeAlpha: bool, dst: array<Byte>, putp: nat)
    requires p.Argb? && putp + 2 <= dst.Length
    modifies dst
    ensures dst[..putp + 2] == old(dst[..putp]) + [Colour16(p, writeAlpha) % 256, Colour16(p, writeAlpha) / 256]
  {
    var a := 1;
    if writeAlpha {
      a := p.a / 128;
    }
    var colour := a * 0x8000 + p.r / 8 * 0x400 + p.g / 8 * 0x20 + p.b / 8;
    assert colour == Colour16(p, writeAlpha);
    dst[putp], dst[putp + 1] := colour % 256, colour / 256;
  }

  /** Stores one pixel at putp. */
  method PutPixel(p: Pixel, f: Format, dst: array<Byte>, putp: nat) returns (next: nat)
    requires f.Valid() && Fits(p, f) && putp + f.Size() <= dst.Length
    modifies dst
    ensures next == putp + f.Size()
    ensures dst[..next] == old(dst[..putp]) + StoredPixel(p, f)
  {
    match f {
      case Argb32 =>
        dst[putp], dst[putp + 1], dst[putp + 2], dst[putp + 3] := p.b, p.g, p.r, p.a;
      case Rgb24 =>
        dst[putp], dst[putp + 1], dst[putp + 2] := p.b, p.g, p.r;
      case Rgb16(w, _) =>
        PutColour16(p, w, dst, putp);
      case Grey8(pal) =>
        dst[putp] := pal[p.v];
    }
    next := putp + f.Size();
  }

  lemma ScanStep(row: seq<Pixel>, n: nat, f: Format)
    requires 1 <= n <= |row| && n <= MAX_PACKET
    ensures LiteralScan(row, n, f) ==
      if n == |row| || n == MAX_PACKET || GoodRun(RunLength(row[n..]), f) then n else LiteralScan(row, n + 1, f)
  {
    hide RunLength;
  }

  /** How far a literal reaches from the start of src. */
  method ScanLiteral(src: seq<Pixel>, f: Format) returns (count: nat)
    requires src != []
    ensures count == LiteralLength(src, f)
  {
    hide RunLength, LiteralScan;
    var width := |src|;
    count := 1;
    while count < width && count < 128
      invariant 1 <= count <= width && count <= 128
      invariant LiteralScan(src, count, f) == LiteralScan(src, 1, f)
    {
      ScanStep(src, count, f);
      var countTwo := RleCount(src[count..], width - count);
      if countTwo >= 3 || (countTwo >= 2 && f.Deep()) {
        break;
      }
      count := count + 1;
    }
    ScanStep(src, count, f);
    if count >= width - 3 {
      count := width;
    }
    if count > 128 {
      count := 128;
    }
  }

  /** Run or literal, and of how many pixels. */
  method ChoosePacket(src: seq<Pixel>, f: Format) returns (run: bool, count: nat)
    requires src != []
    ensures 1 <= count <= |src| && count <= MAX_PACKET
    ensures First(src, f) == if run then Run(count, src[0]) else Literal(src[..count])
  {
    var countOne := RleCount(src, |src|);
    var countTwo := RleCount(src[countOne..], |src| - countOne);
    if countOne >= 3 || (countOne >= 2 && (countTwo >= 2 || f.Deep())) {
      return true, countOne;
    }
    count := ScanLiteral(src, f);
    return false, count;
  }

  /** One trip round the compressing loop: the packet for the front of src. */
  method PutPacket(src: seq<Pixel>, f: Format, dst: array<Byte>, putp0: nat) returns (count: nat, putp: nat)
    requires src != [] && RowFits(src, f)
    requires putp0 + |StoredPacket(First(src, f), f)| <= dst.Length
    modifies dst
    ensures count == |Pixels(First(src, f))| && putp == putp0 + |StoredPacket(First(src, f), f)|
    ensures dst[..putp] == old(dst[..putp0]) + StoredPacket(First(src, f), f)
  {
    hide First, StoredPacket;
    var run;
    run, count := ChoosePacket(src, f);
    if run {
      putp := PutRun(count, src[0], f, dst, putp0);
    } else {
      putp := PutLiteral(src[..count], f, dst, putp0);
    }
  }

  method PutRun(count: nat, px: Pixel, f: Format, dst: array<Byte>, putp0: nat) returns (putp: nat)
    requires PacketFits(Run(count, px), f) && putp0 + |StoredPacket(Run(count, px), f)| <= dst.Length
    modifies dst
    ensures putp == putp0 + |StoredPacket(Run(count, px), f)|
    ensures dst[..putp] == old(dst[..putp0]) + StoredPacket(Run(count, px), f)
  {
    hide StoredPixel;
    ghost var before := dst[..putp0];
    putp := PutHeader(0x80 + (count - 1), dst, putp0);
    putp := PutPixel(px, f, dst, putp);
    Assoc(before, [0x80 + (count - 1)], StoredPixel(px, f));
  }

  method PutLiteral(pxs: seq<Pixel>, f: Format, dst: array<Byte>, putp0: nat) returns (putp: nat)
    requires PacketFits(Literal(pxs), f) && putp0 + |StoredPacket(Literal(pxs), f)| <= dst.Length
    modifies dst
    ensures putp == putp0 + |StoredPacket(Literal(pxs), f)|
    ensures dst[..putp] == old(dst[..putp0]) + StoredPacket(Literal(pxs), f)
  {
    hide StoredPixels;
    ghost var before := dst[..putp0];
    putp := PutHeader(|pxs| - 1, dst, putp0);
    putp := PutPixels(pxs, f, dst, putp);
    Assoc(before, [|pxs| - 1], StoredPixels(pxs, f));
  }

  method PutHeader(b: Byte, dst: array<Byte>, putp: nat) returns (next: nat)
    requires putp < dst.Length
    modifies dst
    ensures next == putp + 1 && dst[..next] == old(dst[..putp]) + [b]
  {
    dst[putp] := b;
    next := putp + 1;
  }

  method PutPixels(src: seq<Pixel>, f: Format, dst: array<Byte>, putp0: nat) returns (putp: nat)
    requires RowFits(src, f) && putp0 + |StoredPixels(src, f)| <= dst.Length
    modifies dst
    ensures putp == putp0 + |StoredPixels(src, f)|
    ensures dst[..putp] == old(dst[..putp0]) + StoredPixels(src, f)
  {
    putp := putp0;
    var getp := src;
    ghost var all := dst[..putp0] + StoredPixels(src, f);
    while |getp| > 0
      invariant RowFits(getp, f) && putp <= dst.Length
      invariant dst[..putp] + StoredPixels(getp, f) == all
      decreases |getp|
    {
      Assoc(dst[..putp], StoredPixel(getp[0], f), StoredPixels(getp[1..], f));
      assert putp + f.Size() <= |all|;
      putp := PutPixel(getp[0], f, dst, putp);
      getp := getp[1..];
    }
    assert dst[..putp] + [] == dst[..putp];
  }

  /** The compressing loop of TGA_writeline. */
  method PutPackets(src: seq<Pixel>, f: Format, dst: array<Byte>) returns (putp: nat)
    requires RowFits(src, f) && |Compressed(src, f)| <= dst.Length
    modifies dst
    ensures putp <= dst.Length && dst[..putp] == Compressed(src, f)
  {
    var getp := src;
    ghost var all := Compressed(src, f);
    putp := 0;
    assert dst[..0] + all == all;
    while |getp| > 0
      invariant RowFits(getp, f) && putp <= dst.Length
      invariant dst[..putp] + Compressed(getp, f) == all
      decreases |getp|
    {
      FirstPacket(getp, f);
      ghost var stored, after := StoredPacket(First(getp, f), f), Compressed(Rest(getp, f), f);
      Assoc(dst[..putp], stored, after);
      assert putp + |stored| <= |all|;
      var count;
      count, putp := PutPacket(getp, f, dst, putp);
      getp := getp[count..];
    }
    assert dst[..putp] + [] == dst[..putp];
  }

  /** TGA_writeline: the row as the format stores it, within the line buffer. */
  method WriteLine(src: seq<Pixel>, f: Format, packed: bool, dst: array<Byte>) returns (size: nat)
    requires RowFits(src, f) && dst.Length == 3 * (f.Size() * |src|) + 16
    modifies dst
    ensures size <= dst.Length && dst[..size] == StoredRow(src, f, packed)
  {
    FitsLineBuffer(src, f, packed);
    if packed {
      size := PutPackets(src, f, dst);
    } else {
      size := PutPixels(src, f, dst, 0);
      assert dst[..0] + StoredPixels(src, f) == StoredPixels(src, f);
    }
  }

  /** The row loop of TGA_write. */
  method WriteImage(rows: seq<seq<Pixel>>, width: nat, f: Format, packed: bool) returns (stream: seq<Byte>)
    requires ImageFits(rows, width, f)
    ensures stream == StoredImage(rows, width, f, packed)
  {
    stream := [];
    var lineBuffer := new Byte[3 * (f.Size() * width) + 16];
    var getp := rows;
    ghost var all := StoredImage(rows, width, f, packed);
    assert stream + all == all;
    while |getp| > 0
      invariant ImageFits(getp, width, f)
      invariant stream + StoredImage(getp, width, f, packed) == all
      decreases |getp|
    {
      var last := getp[|getp| - 1];
      Assoc(stream, StoredRow(last, f, packed), StoredImage(getp[..|getp| - 1], width, f, packed));
      var size := WriteLine(last, f, packed, lineBuffer);
      stream := stream + lineBuffer[..size];
      getp := getp[..|getp| - 1];
    }
    assert stream + [] == stream;
  }

  // ----- Reading -----

  /** Fills dst[x..x + count] with one pixel. */
  method FillRun(p: Pixel, count: nat, dst: array<Pixel>, x: nat)
    requires x + count <= dst.Length
    modifies dst
    ensures dst[..x + count] == old(dst[..x]) + Repeat(count, p)
  {
    for i := 0 to count
      invariant dst[..x + i] == old(dst[..x]) + Repeat(i, p)
    {
      dst[x + i] := p;
      assert Repeat(i + 1, p) == Repeat(i, p) + [p];
    }
  }

  /** Loads count stored pixels into dst from x on. */
  method GetPixels(getp0: seq<Byte>, count: nat, f: Format, dst: array<Pixel>, x: nat)
    requires |getp0| == f.Size() * count && x + count <= dst.Length
    modifies dst
    ensures dst[..x + count] == old(dst[..x]) + LoadedPixels(getp0, count, f)
  {
    hide LoadedPixel;
    var getp, left := getp0, count;
    ghost var all := dst[..x] + LoadedPixels(getp0, count, f);
    while left > 0
      invariant 0 <= left <= count && |getp| == f.Size() * left
      invariant dst[..x + count - left] + LoadedPixels(getp, left, f) == all
    {
      TimesAdd(f.Size(), 1, left - 1);
      ghost var done, more := dst[..x + count - left], LoadedPixels(getp[f.Size()..], left - 1, f);
      Assoc(done, [LoadedPixel(getp[..f.Size()], f)], more);
      dst[x + count - left] := LoadedPixel(getp[..f.Size()], f);
      getp := getp[f.Size()..];
      left := left - 1;
      assert dst[..x + count - left] == done + [dst[x + count - left - 1]];
    }
    assert dst[..x + count] + [] == dst[..x + count];
  }

  /** One packet from the stream into the row.  ok is false when the bytes run out or the packet
      runs over the end of the row. */
  method GetPacket(stream: seq<Byte>, f: Format, dst: array<Pixel>, x: nat)
    returns (ok: bool, count: nat, rest: seq<Byte>)
    requires x <= dst.Length
    modifies dst
    ensures ghost var r := ReadPacket(stream, f);
      ok == (r.Some? && x + |r.value.0| <= dst.Length) &&
      (ok ==> count == |r.value.0| && rest == r.value.1 && dst[..x + count] == old(dst[..x]) + r.value.0)
  {
    hide LoadedPixel, LoadedPixels;
    ok, count, rest := false, 0, stream;
    if stream == [] { return; }
    var header, body := stream[0], stream[1..];
    count := header % 0x80 + 1;
    if header >= 0x80 {
      if |body| < f.Size() || x + count > dst.Length { return; }
      FillRun(LoadedPixel(body[..f.Size()], f), count, dst, x);
      rest := body[f.Size()..];
    } else {
      var bytes := f.Size() * count;
      if |body| < bytes || x + count > dst.Length { return; }
      GetPixels(body[..bytes], count, f, dst, x);
      rest := body[bytes..];
    }
    ok := true;
  }

  /** TGA_readline: fills the row and leaves the stream at the byte after it. */
  method ReadLine(stream: seq<Byte>, width: nat, f: Format, packed: bool, dst: array<Pixel>)
    returns (ok: bool, rest: seq<Byte>)
    requires dst.Length == width
    modifies dst
    ensures ReadRow(stream, width, f, packed) == if ok then Some((dst[..], rest)) else None
  {
    if packed {
      ok, rest := GetPackets(stream, width, f, dst);
    } else {
      var bytes := f.Size() * width;
      if |stream| < bytes { return false, stream; }
      GetPixels(stream[..bytes], width, f, dst, 0);
      ok, rest := true, stream[bytes..];
      assert dst[..width] == dst[..] && dst[..0] + dst[..] == dst[..];
    }
  }

  /** The do loop over packets. */
  method GetPackets(stream: seq<Byte>, width: nat, f: Format, dst: array<Pixel>) returns (ok: bool, rest: seq<Byte>)
    requires dst.Length == width
    modifies dst
    ensures ReadPackets(stream, width, f) == if ok then Some((dst[..], rest)) else None
  {
    hide ReadPacket, ReadPackets;
    ghost var whole := ReadPackets(stream, width, f);
    rest := stream;
    var x, more := 0, true;
    OntoNothing(whole);
    assert dst[..0] == [];
    while more
      invariant 0 <= x <= width
      invariant more ==> whole == Onto(dst[..x], ReadPackets(rest, width - x, f))
      invariant !more ==> x == width && whole == Some((dst[..x], rest))
      decreases more, width - x
    {
      NextPacket(dst[..x], rest, width - x, f);
      var count;
      ok, count, rest := GetPacket(rest, f, dst, x);
      if !ok { return; }
      x := x + count;
      more := x < width;
    }
    ok := true;
    assert dst[..width] == dst[..];
  }

  /** The pixels done, and what the rest of the stream gives. */
  function Onto(done: seq<Pixel>, r: Option<(seq<Pixel>, seq<Byte>)>): Option<(seq<Pixel>, seq<Byte>)> {
    if r.None? then None else Some((done + r.value.0, r.value.1))
  }

  lemma OntoNothing(r: Option<(seq<Pixel>, seq<Byte>)>)
    ensures Onto([], r) == r
  {
    if r.Some? { assert [] + r.value.0 == r.value.0; }
  }

  lemma NextPacket(done: seq<Pixel>, s: seq<Byte>, width: nat, f: Format)
    ensures ghost var r, whole := ReadPacket(s, f), Onto(done, ReadPackets(s, width, f));
      if r.None? || |r.value.0| > width then whole == None
      else if |r.value.0| == width then whole == Some((done + r.value.0, r.value.1))
      else whole == Onto(done + r.value.0, ReadPackets(r.value.1, width - |r.value.0|, f))
  {
    hide ReadPacket;
    var r := ReadPacket(s, f);
    if r.Some? && |r.value.0| < width {
      var after := ReadPackets(r.value.1, width - |r.value.0|, f);
      if after.Some? { Assoc(done, r.value.0, after.value.0); }
    }
  }

  /** The row loop of TGA_read. */
  method ReadImage(stream: seq<Byte>, width: nat, height: nat, f: Format, packed: bool)
    returns (ok: bool, image: array<seq<Pixel>>, rest: seq<Byte>)
    ensures ReadRows(stream, width, height, f, packed) == if ok then Some((image[..], rest)) else None
  {
    hide ReadRow, ReadRows;
    image := new seq<Pixel>[height](_ => []);
    ghost var whole := ReadRows(stream, width, height, f, packed);
    rest := stream;
    var putp := height;
    BelowNothing(whole);
    assert image[height..] == [];
    while putp > 0
      invariant 0 <= putp <= height && image.Length == height
      invariant whole == Below(ReadRows(rest, width, putp, f, packed), image[putp..])
    {
      NextRow(image[putp..], rest, width, putp, f, packed);
      var line := new Pixel[width];
      ok, rest := ReadLine(rest, width, f, packed, line);
      if !ok { return; }
      ghost var done := image[putp..];
      putp := putp - 1;
      image[putp] := line[..];
      assert image[putp..] == [image[putp]] + done;
    }
    ok := true;
    assert image[0..] == image[..];
    NoRows(rest, width, f, packed, image[..]);
  }

  /** The rows still to be read, and those done below them. */
  function Below(r: Option<(seq<seq<Pixel>>, seq<Byte>)>, done: seq<seq<Pixel>>): Option<(seq<seq<Pixel>>, seq<Byte>)> {
    if r.None? then None else Some((r.value.0 + done, r.value.1))
  }

  lemma BelowNothing(r: Option<(seq<seq<Pixel>>, seq<Byte>)>)
    ensures Below(r, []) == r
  {
    if r.Some? { assert r.value.0 + [] == r.value.0; }
  }

  lemma NoRows(s: seq<Byte>, width: nat, f: Format, packed: bool, done: seq<seq<Pixel>>)
    ensures Below(ReadRows(s, width, 0, f, packed), done) == Some((done, s))
  {
    assert [] + done == done;
  }

  lemma NextRow(done: seq<seq<Pixel>>, s: seq<Byte>, width: nat, height: nat, f: Format, packed: bool)
    requires height > 0
    ensures ghost var r, whole := ReadRow(s, width, f, packed), Below(ReadRows(s, width, height, f, packed), done);
      if r.None? then whole == None
      else whole == Below(ReadRows(r.value.1, width, height - 1, f, packed), [r.value.0] + done)
  {
    hide ReadRow;
    var r := ReadRow(s, width, f, packed);
    if r.Some? {
      var above := ReadRows(r.value.1, width, height - 1, f, packed);
      if above.Some? { Assoc(above.value.0, [r.value.0], done); }
    }
  }
}
