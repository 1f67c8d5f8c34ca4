/** The 8-bit run-length format of bitmap rows: packets, and the rows they make up. */
module BitmapPackets {
  import opened Common

  /** A run of one value, or a literal stretch, which is at least 3 long and padded to an even length. */
  datatype Packet = Run(count: nat, v: Byte) | Literal(bytes: seq<Byte>, pad: seq<Byte>)

  predicate ValidPacket(p: Packet) {
    match p
    case Run(n, _) => 1 <= n <= 255
    case Literal(bytes, pad) => 3 <= |bytes| <= 255 && |pad| == |bytes| % 2
  }

  predicate ValidRow(row: seq<Packet>) {
    row == [] || (ValidPacket(row[0]) && ValidRow(row[1..]))
  }

  function Repeat(n: nat, v: Byte): (r: seq<Byte>)
    ensures |r| == n && forall k :: 0 <= k < n ==> r[k] == v
  {
    seq(n, _ => v)
  }

  function Pixels(p: Packet): seq<Byte> {
    match p case Run(n, v) => Repeat(n, v) case Literal(bytes, _) => bytes
  }

  function RowPixels(row: seq<Packet>): seq<Byte> {
    if row == [] then [] else Pixels(row[0]) + RowPixels(row[1..])
  }

  function Wire(p: Packet): seq<Byte>
    requires ValidPacket(p)
  {
    match p
    case Run(n, v) => [n, v]
    case Literal(bytes, pad) => [0, |bytes|] + bytes + pad
  }

  function PacketsWire(row: seq<Packet>): seq<Byte>
    requires ValidRow(row)
  {
    if row == [] then [] else Wire(row[0]) + PacketsWire(row[1..])
  }

  /** Every packet takes an even number of bytes. */
  lemma {:induction false} PacketsAreEven(row: seq<Packet>)
    requires ValidRow(row)
    ensures |PacketsWire(row)| % 2 == 0
    decreases |row|
  {
    if row != [] {
      PacketsAreEven(row[1..]);
      assert |Wire(row[0])| % 2 == 0;
    }
  }

  const END_OF_LINE: seq<Byte> := [0, 0]

  /** A row as it is stored: its packets and the end-of-line marker. */
  function RowWire(row: seq<Packet>): seq<Byte>
    requires ValidRow(row)
  {
    PacketsWire(row) + END_OF_LINE
  }
}

/** What the reader makes of a stream of rows. */
module BitmapReader {
  import opened Common
  import opened BitmapPackets

  /** n rounded up to an even number. */
  function EvenPitch(n: nat): nat {
    if n % 2 == 0 then n else n + 1
  }

  /** What stands at the front of the stream: pixels, or a marker with none; the bytes it takes;
      and the stream after it. */
  datatype Front = Short | Front(pixels: seq<Byte>, bytes: nat, rest: seq<Byte>)

  function ReadFront(s: seq<Byte>): (r: Front)
    ensures r.Front? ==> |r.rest| < |s|
  {
    if |s| < 2 then Short
    else
      var n, m, body := s[0], s[1], s[2..];
      if n != 0 then Front(Repeat(n, m), 2, body)
      else if m < 3 then Front([], 2, body)
      else if |body| < EvenPitch(m) then Short
      else Front(body[..m], 2 + EvenPitch(m), body[EvenPitch(m)..])
  }

  /** The pixels read, the stream after them, and the bytes they took. */
  datatype Result = Failed | Taken(pixels: seq<Byte>, rest: seq<Byte>, bytes: nat)

  /** The packets of a row with xpos pixels done.  A marker ends the row once it has a pixel.
      Failed when the bytes run out, or a packet runs over the end of the row. */
  function ReadPackets(s: seq<Byte>, xpos: nat, width: nat): Result
    decreases |s|
  {
    var f := ReadFront(s);
    if f.Short? || xpos + |f.pixels| > width then Failed
    else if xpos + |f.pixels| == width || (f.pixels == [] && xpos != 0) then Taken(f.pixels, f.rest, f.bytes)
    else After(f.pixels, f.bytes, ReadPackets(f.rest, xpos + |f.pixels|, width))
  }

  /** Whether the row's result is not 0: only the second byte of a marker or of a literal, and the
      bytes of a literal, are read with their count kept as the result. */
  predicate Answers(s: seq<Byte>, xpos: nat, width: nat)
    decreases |s|
  {
    var f := ReadFront(s);
    f.Front? && xpos + |f.pixels| <= width &&
    (s[0] == 0 || (xpos + |f.pixels| < width && Answers(f.rest, xpos + |f.pixels|, width)))
  }

  function After(pixels: seq<Byte>, taken: nat, r: Result): Result {
    if r.Failed? then Failed else Taken(pixels + r.pixels, r.rest, taken + r.bytes)
  }

  /** The bytes the reader drops to make the count for the row a multiple of 4. */
  function Skip(bytesRead: nat): nat {
    (4 - bytesRead % 4) % 4
  }

  function Drop(s: seq<Byte>, n: nat): seq<Byte> {
    if n <= |s| then s[n..] else []
  }

  /** A whole call: the pixels of the row and the stream it leaves. */
  function ReadLine(s: seq<Byte>, width: nat): Option<(seq<Byte>, seq<Byte>)> {
    match ReadPackets(s, 0, width)
    case Failed => None
    case Taken(pixels, rest, bytesRead) => Some((pixels, Drop(rest, Skip(bytesRead))))
  }

  lemma ReadsPacket(p: Packet, rest: seq<Byte>)
    requires ValidPacket(p)
    ensures ReadFront(Wire(p) + rest) == Front(Pixels(p), |Wire(p)|, rest) && |Pixels(p)| > 0
  {
    var s := Wire(p) + rest;
    match p {
      case Run(n, v) =>
        assert s[2..] == rest;
      case Literal(bytes, pad) =>
        assert s[2..] == bytes + pad + rest;
        assert EvenPitch(|bytes|) == |bytes| + |pad|;
        assert s[2..][..|bytes|] == bytes && s[2..][|bytes| + |pad|..] == rest;
    }
  }

  /** The packet that fills the row. */
  lemma PacketLast(p: Packet, s: seq<Byte>, rest: seq<Byte>, xpos: nat, width: nat)
    requires ValidPacket(p) && s == Wire(p) + rest && xpos + |Pixels(p)| == width
    ensures ReadPackets(s, xpos, width) == Taken(Pixels(p), rest, |Wire(p)|)
  {
    ReadsPacket(p, rest);
  }

  /** A packet in front of those that fill the row. */
  lemma PacketMore(p: Packet, s: seq<Byte>, tail: seq<Byte>, xpos: nat, width: nat, r: Result)
    requires ValidPacket(p) && s == Wire(p) + tail && xpos + |Pixels(p)| < width
    requires ReadPackets(tail, xpos + |Pixels(p)|, width) == r
    ensures ReadPackets(s, xpos, width) == After(Pixels(p), |Wire(p)|, r)
  {
    hide Wire, Pixels, ReadFront;
    ReadsPacket(p, tail);
  }

  lemma PixelsFollow(row: seq<Packet>)
    requires ValidRow(row) && row != []
    ensures |RowPixels(row)| > 0
  {
  }

  lemma RowParts(row: seq<Packet>, rest: seq<Byte>)
    requires ValidRow(row) && row != []
    ensures PacketsWire(row) + rest == Wire(row[0]) + (PacketsWire(row[1..]) + rest)
    ensures |PacketsWire(row)| == |Wire(row[0])| + |PacketsWire(row[1..])|
    ensures row[1..] == [] ==> PacketsWire(row) + rest == Wire(row[0]) + rest
    ensures |RowPixels(row)| == |Pixels(row[0])| + |RowPixels(row[1..])|
    ensures row[1..] == [] ==> RowPixels(row) == Pixels(row[0]) && PacketsWire(row) == Wire(row[0])
  {
    hide Wire, Pixels;
    Assoc(Wire(row[0]), PacketsWire(row[1..]), rest);
  }

  /** The packets of a row are read to the last, and the marker after them is left alone. */
  lemma {:induction false} ReadsRow(row: seq<Packet>, s: seq<Byte>, xpos: nat, width: nat, rest: seq<Byte>)
    requires ValidRow(row) && row != [] && xpos + |RowPixels(row)| == width
    requires s == PacketsWire(row) + rest
    ensures ReadPackets(s, xpos, width) == Taken(RowPixels(row), rest, |PacketsWire(row)|)
    decreases |row|
  {
    hide Wire, Pixels, RowPixels, PacketsWire, ReadPackets, After;
    var p, more := row[0], row[1..];
    var tail := PacketsWire(more) + rest;
    RowParts(row, rest);
    if more == [] {
      PacketLast(p, s, rest, xpos, width);
    } else {
      PixelsFollow(more);
      ReadsRow(more, tail, xpos + |Pixels(p)|, width, rest);
      PacketMore(p, s, tail, xpos, width, Taken(RowPixels(more), rest, |PacketsWire(more)|));
      AfterFirst(row, rest);
    }
  }

  lemma AfterFirst(row: seq<Packet>, rest: seq<Byte>)
    requires ValidRow(row) && row != []
    ensures After(Pixels(row[0]), |Wire(row[0])|, Taken(RowPixels(row[1..]), rest, |PacketsWire(row[1..])|))
         == Taken(RowPixels(row), rest, |PacketsWire(row)|)
  {
  }

  /** What may stand before a row: nothing, or the marker that ended the row before. */
  predicate Leftover(l: seq<Byte>) {
    l == [] || l == END_OF_LINE
  }

  /** A marker before any pixel is read over, and counted. */
  lemma MarkerIsIgnored(s: seq<Byte>, width: nat)
    requires width > 0
    ensures ReadPackets(END_OF_LINE + s, 0, width) == After([], 2, ReadPackets(s, 0, width))
  {
    assert (END_OF_LINE + s)[2..] == s;
    assert ReadFront(END_OF_LINE + s) == Front([], 2, s);
  }

  lemma ReadsFrom(l: seq<Byte>, row: seq<Packet>, rest: seq<Byte>, width: nat)
    requires Leftover(l) && ValidRow(row) && |RowPixels(row)| == width && width > 0
    ensures ReadPackets(l + (PacketsWire(row) + rest), 0, width)
         == Taken(RowPixels(row), rest, |l| + |PacketsWire(row)|)
  {
    var wire := PacketsWire(row) + rest;
    ReadsRow(row, wire, 0, width, rest);
    if l == [] {
      assert l + wire == wire;
    } else {
      MarkerIsIgnored(wire, width);
      assert [] + RowPixels(row) == RowPixels(row);
    }
  }

  /** The bytes dropped after an even count are none, or exactly the marker. */
  lemma DropMarker(n: nat, rest: seq<Byte>) returns (l: seq<Byte>)
    requires n % 2 == 0
    ensures l == (if n % 4 == 0 then END_OF_LINE else []) && Drop(END_OF_LINE + rest, Skip(n)) == l + rest
  {
    if n % 4 == 0 {
      l := END_OF_LINE;
    } else {
      l := [];
      TwoBytes(n);
      DropTwo(rest);
    }
  }

  lemma TwoBytes(n: nat)
    requires n % 2 == 0 && n % 4 != 0
    ensures Skip(n) == 2
  {
  }

  lemma DropTwo(rest: seq<Byte>)
    ensures Drop(END_OF_LINE + rest, 2) == [] + rest
  {
  }

  lemma LineFrom(s: seq<Byte>, width: nat, pixels: seq<Byte>, rest: seq<Byte>, n: nat)
    requires ReadPackets(s, 0, width) == Taken(pixels, rest, n)
    ensures ReadLine(s, width) == Some((pixels, Drop(rest, Skip(n))))
  {
  }

  /** What stands before the next row: the count so far decides. */
  function NextLeftover(l: seq<Byte>, row: seq<Packet>): (l2: seq<Byte>)
    requires ValidRow(row)
    ensures Leftover(l2)
  {
    if (|l| + |PacketsWire(row)|) % 4 == 0 then END_OF_LINE else []
  }

  /** From either place the row is read, and the reader ends in one of the same two places
      before the next. */
  lemma ReadLineResyncs(s: seq<Byte>, l: seq<Byte>, row: seq<Packet>, rest: seq<Byte>, width: nat)
      returns (l2: seq<Byte>)
    requires Leftover(l) && ValidRow(row) && |RowPixels(row)| == width && width > 0
    requires s == l + (RowWire(row) + rest)
    ensures l2 == NextLeftover(l, row) && ReadLine(s, width) == Some((RowPixels(row), l2 + rest))
  {
    hide ReadPackets, ReadLine, PacketsWire, RowPixels, ValidRow;
    var n := |l| + |PacketsWire(row)|;
    Assoc(PacketsWire(row), END_OF_LINE, rest);
    ReadsFrom(l, row, END_OF_LINE + rest, width);
    PacketsAreEven(row);
    l2 := DropMarker(n, rest);
    LineFrom(s, width, RowPixels(row), END_OF_LINE + rest, n);
  }

  /** Rows of valid packets, each width pixels long. */
  predicate ValidRows(rows: seq<seq<Packet>>, width: nat) {
    rows == [] || (ValidRow(rows[0]) && |RowPixels(rows[0])| == width && ValidRows(rows[1..], width))
  }

  function Stream(rows: seq<seq<Packet>>, width: nat): seq<Byte>
    requires ValidRows(rows, width)
  {
    if rows == [] then [] else RowWire(rows[0]) + Stream(rows[1..], width)
  }

  /** Successive calls. */
  function ReadLines(s: seq<Byte>, width: nat, n: nat): Option<seq<seq<Byte>>>
    decreases n
  {
    if n == 0 then Some([])
    else
      match ReadLine(s, width)
      case None => None
      case Some((row, rest)) =>
        match ReadLines(rest, width, n - 1)
        case None => None
        case Some(rows) => Some([row] + rows)
  }

  function AllPixels(rows: seq<seq<Packet>>): (r: seq<seq<Byte>>)
    ensures |r| == |rows|
  {
    if rows == [] then [] else [RowPixels(rows[0])] + AllPixels(rows[1..])
  }

  /** Successive calls recover every row, whatever packets each row is made of. */
  lemma {:induction false} ReadsEveryRow(s: seq<Byte>, l: seq<Byte>, rows: seq<seq<Packet>>, rest: seq<Byte>,
      width: nat)
    requires Leftover(l) && width > 0 && ValidRows(rows, width)
    requires s == l + Stream(rows, width) + rest
    ensures ReadLines(s, width, |rows|) == Some(AllPixels(rows))
    decreases |rows|
  {
    if rows != [] {
      var more := rows[1..];
      StreamParts(l, rows, rest, width);
      var l2 := ReadLineResyncs(s, l, rows[0], Stream(more, width) + rest, width);
      var s2 := l2 + (Stream(more, width) + rest);
      Assoc(l2, Stream(more, width), rest);
      ReadsEveryRow(s2, l2, more, rest, width);
      assert |rows| == |more| + 1;
      LineThenLines(s, width, |more|, RowPixels(rows[0]), s2, AllPixels(more));
    }
  }

  lemma StreamParts(l: seq<Byte>, rows: seq<seq<Packet>>, rest: seq<Byte>, width: nat)
    requires rows != [] && ValidRows(rows, width)
    ensures l + Stream(rows, width) + rest == l + (RowWire(rows[0]) + (Stream(rows[1..], width) + rest))
  {
    ThreeParts(l, RowWire(rows[0]), Stream(rows[1..], width), rest);
  }

  lemma LineThenLines(s: seq<Byte>, width: nat, n: nat, row: seq<Byte>, rest: seq<Byte>, rows: seq<seq<Byte>>)
    requires ReadLine(s, width) == Some((row, rest)) && ReadLines(rest, width, n) == Some(rows)
    ensures ReadLines(s, width, n + 1) == Some([row] + rows)
  {
  }

  lemma ThreeParts(a: seq<Byte>, b: seq<Byte>, c: seq<Byte>, d: seq<Byte>)
    ensures a + (b + c) + d == a + (b + (c + d))
  {
    Assoc(a, b + c, d);
    Assoc(b, c, d);
  }
}

/** What the compressing writer puts out for a row. */
module BitmapWriter {
  import opened Common
  import opened BitmapPackets
  import opened BitmapReader

  const MAX_RUN := 255

  /** Bytes at the front that equal the first, counted up to 255. */
  function RunFrom(src: seq<Byte>, n: nat): (r: nat)
    requires n <= |src| && n <= MAX_RUN
    requires forall k :: 0 <= k < n ==> src[k] == src[0]
    ensures n <= r <= |src| && r <= MAX_RUN
    ensures forall k :: 0 <= k < r ==> src[k] == src[0]
    decreases |src| - n
  {
    if n == |src| || n == MAX_RUN || src[n] != src[0] then n else RunFrom(src, n + 1)
  }

  function RunCount(src: seq<Byte>): nat {
    RunFrom(src, 0)
  }

  lemma RunCountPositive(src: seq<Byte>)
    requires src != []
    ensures RunCount(src) >= 1
  {
  }

  /** Whether a literal of n bytes should stop for the run after it.  The second run is measured
      from the first run's length, not from where the first run ends. */
  predicate StopsAt(src: seq<Byte>, n: nat)
    requires n <= |src|
  {
    var second := RunCount(src[n..]);
    var third := RunCount(src[second..|src| - n]);
    (second >= 3 && third >= 5) || second >= 5
  }

  function LiteralScan(src: seq<Byte>, n: nat): (r: nat)
    ensures r >= n
    decreases |src| - n
  {
    if n >= |src| || n >= 254 || StopsAt(src, n) then n else LiteralScan(src, n + 2)
  }

  function LiteralLength(src: seq<Byte>): (r: nat)
    requires src != []
    ensures 1 <= r <= |src| && r <= 254
    ensures |src| >= 3 ==> r >= 3
  {
    var n := LiteralScan(src, 4);
    var all := if n >= |src| - 2 then |src| else n;
    if all > 254 then 254 else all
  }

  /** A run is chosen for a row below 3 bytes, or when this run and the next come to 4. */
  predicate ChoosesRun(src: seq<Byte>, width: nat)
    requires src != []
  {
    var first := RunCount(src);
    width < 3 || first + RunCount(src[first..]) >= 4
  }

  function RunLength(src: seq<Byte>): (r: nat)
    requires src != []
    ensures 1 <= r <= |src| && r <= MAX_RUN
    ensures forall k :: 0 <= k < r ==> src[k] == src[0]
  {
    if |src| < 3 then (if |src| == 2 && src[0] == src[1] then 2 else 1) else (RunCountPositive(src); RunCount(src))
  }

  function Padded(bytes: seq<Byte>): Packet {
    Literal(bytes, if |bytes| % 2 == 1 then [0] else [])
  }

  /** One trip round the loop.  None is a trip that writes nothing and moves nothing. */
  function Pass(src: seq<Byte>, width: nat): Option<Packet>
    requires src != []
  {
    if ChoosesRun(src, width) then Some(Run(RunLength(src), src[0]))
    else if LiteralLength(src) >= 3 then Some(Padded(src[..LiteralLength(src)]))
    else None
  }

  /** A trip does nothing exactly when a row of 3 bytes or more has 1 or 2 left. */
  lemma StuckExactly(src: seq<Byte>, width: nat)
    requires src != []
    ensures Pass(src, width) == None <==> width >= 3 && |src| < 3
  {
  }

  lemma PassIsValid(src: seq<Byte>, width: nat)
    requires src != [] && Pass(src, width).Some?
    ensures var p := Pass(src, width).value;
      ValidPacket(p) && 1 <= |Pixels(p)| <= |src| && Pixels(p) == src[..|Pixels(p)|]
  {
    if ChoosesRun(src, width) {
      assert Repeat(RunLength(src), src[0]) == src[..RunLength(src)];
    }
  }

  /** The packets of a whole row, if the writer gets to its end. */
  function Packets(src: seq<Byte>, width: nat): Option<seq<Packet>>
    decreases |src|
  {
    if src == [] then Some([])
    else
      match Pass(src, width)
      case None => None
      case Some(p) =>
        PassIsValid(src, width);
        match Packets(src[|Pixels(p)|..], width)
        case None => None
        case Some(more) => Some([p] + more)
  }

  /** The writer gets to the end of the row. */
  predicate Finishes(row: seq<Byte>) {
    Packets(row, |row|).Some?
  }

  lemma PacketInFront(p: Packet, more: seq<Packet>)
    requires ValidPacket(p) && ValidRow(more)
    ensures ValidRow([p] + more) && RowPixels([p] + more) == Pixels(p) + RowPixels(more)
  {
    assert ([p] + more)[1..] == more;
  }

  lemma {:induction false} PacketsArePixels(src: seq<Byte>, width: nat)
    requires Packets(src, width).Some?
    ensures ValidRow(Packets(src, width).value) && RowPixels(Packets(src, width).value) == src
    decreases |src|
  {
    hide Pass, ValidRow, RowPixels, ValidPacket;
    if src == [] {
      NoPackets();
    } else {
      PassIsValid(src, width);
      var p := Pass(src, width).value;
      var n := |Pixels(p)|;
      PacketsArePixels(src[n..], width);
      PacketInFront(p, Packets(src[n..], width).value);
      assert src == src[..n] + src[n..];
    }
  }

  lemma NoPackets()
    ensures ValidRow([]) && RowPixels([]) == []
  {
  }

  /** Four bytes alike and one more: the run takes four, and the writer stays at the last. */
  lemma RunOfFourAndOneHangs(a: Byte, b: Byte)
    requires a != b
    ensures !Finishes([a, a, a, a, b])
  {
    var row := [a, a, a, a, b];
    assert RunFrom(row, 4) == 4 && RunFrom(row, 3) == 4 && RunFrom(row, 2) == 4 && RunFrom(row, 1) == 4;
    assert RunCount(row) == 4;
    assert ChoosesRun(row, 5);
    PassIsValid(row, 5);
    assert |Pixels(Pass(row, 5).value)| == 4;
    assert row[4..] == [b];
    StuckExactly([b], 5);
    assert Packets([b], 5) == None;
  }

  lemma {:induction false} RunStops(src: seq<Byte>, n: nat)
    requires n <= |src| && n <= MAX_RUN && forall k :: 0 <= k < n ==> src[k] == src[0]
    ensures RunFrom(src, n) < |src| && RunFrom(src, n) < MAX_RUN ==> src[RunFrom(src, n)] != src[0]
    decreases |src| - n
  {
    if !(n == |src| || n == MAX_RUN || src[n] != src[0]) { RunStops(src, n + 1); }
  }

  // ----- Rows there and back -----

  predicate AllFinish(rows: seq<seq<Byte>>, width: nat) {
    rows == [] || (|rows[0]| == width && Finishes(rows[0]) && AllFinish(rows[1..], width))
  }

  function RowPackets(rows: seq<seq<Byte>>, width: nat): (r: seq<seq<Packet>>)
    requires AllFinish(rows, width)
    ensures |r| == |rows|
  {
    if rows == [] then [] else [Packets(rows[0], width).value] + RowPackets(rows[1..], width)
  }

  lemma {:induction false} WrittenRowsAreValid(rows: seq<seq<Byte>>, width: nat)
    requires AllFinish(rows, width)
    ensures ValidRows(RowPackets(rows, width), width) && AllPixels(RowPackets(rows, width)) == rows
    decreases |rows|
  {
    if rows != [] {
      PacketsArePixels(rows[0], width);
      WrittenRowsAreValid(rows[1..], width);
      assert RowPackets(rows, width)[1..] == RowPackets(rows[1..], width);
    }
  }

  /** Rows the writer gets through come back one for one, with no regard to where the reader's
      alignment falls. */
  lemma WriteThenRead(rows: seq<seq<Byte>>, width: nat, rest: seq<Byte>)
    requires AllFinish(rows, width) && width > 0
    ensures ValidRows(RowPackets(rows, width), width)
    ensures ReadLines(Stream(RowPackets(rows, width), width) + rest, width, |rows|) == Some(rows)
  {
    hide AllFinish, Finishes, ValidRows, RowPackets, Stream, ReadLines, AllPixels;
    WrittenRowsAreValid(rows, width);
    var ps := RowPackets(rows, width);
    assert [] + Stream(ps, width) + rest == Stream(ps, width) + rest;
    ReadsEveryRow(Stream(ps, width) + rest, [], ps, rest, width);
  }
}

/** The reader's and the writer's loops over their buffers. */
module BitmapCodec {
  import opened Common
  import opened BitmapPackets
  import opened BitmapReader
  import opened BitmapWriter

  // ----- Reading -----

  method PutRun(dst: array<Byte>, at: nat, n: nat, v: Byte)
    requires at + n <= dst.Length
    modifies dst
    ensures dst[..at + n] == old(dst[..at]) + Repeat(n, v)
    ensures dst[at + n..] == old(dst[at + n..])
  {
    for i := 0 to n
      invariant dst[..at] == old(dst[..at])
      invariant forall k :: at <= k < at + i ==> dst[k] == v
      invariant dst[at + n..] == old(dst[at + n..])
    {
      dst[at + i] := v;
    }
    assert dst[..at + n] == dst[..at] + dst[at..at + n];
    assert dst[at..at + n] == Repeat(n, v);
  }

  method PutBytes(dst: array<Byte>, at: nat, bytes: seq<Byte>)
    requires at + |bytes| <= dst.Length
    modifies dst
    ensures dst[..at + |bytes|] == old(dst[..at]) + bytes
    ensures dst[at + |bytes|..] == old(dst[at + |bytes|..])
  {
    for i := 0 to |bytes|
      invariant dst[..at] == old(dst[..at])
      invariant forall k :: 0 <= k < i ==> dst[at + k] == bytes[k]
      invariant dst[at + |bytes|..] == old(dst[at + |bytes|..])
    {
      dst[at + i] := bytes[i];
    }
    assert dst[..at + |bytes|] == dst[..at] + dst[at..at + |bytes|];
    assert dst[at..at + |bytes|] == bytes;
  }

  lemma AfterNothing(r: Result)
    ensures After([], 0, r) == r
  {
    if r.Taken? { assert [] + r.pixels == r.pixels; }
  }

  lemma AfterAfter(a: seq<Byte>, n: nat, b: seq<Byte>, m: nat, r: Result)
    ensures After(a, n, After(b, m, r)) == After(a + b, n + m, r)
  {
    if r.Taken? { Assoc(a, b, r.pixels); }
  }

  /** One packet or marker.  ok is false when the bytes run out or the packet does not fit. */
  method TakeFront(stream: seq<Byte>, start: nat, dst: array<Byte>, xpos: nat)
    returns (ok: bool, pos: nat, xpos2: nat)
    requires start <= |stream| && xpos <= dst.Length
    modifies dst
    ensures ghost var f := ReadFront(stream[start..]);
      ok == (f.Front? && xpos + |f.pixels| <= dst.Length) &&
      (ok ==>
        start < pos <= |stream| && pos == start + f.bytes && f.rest == stream[pos..] &&
        xpos2 == xpos + |f.pixels| && dst[..xpos2] == old(dst[..xpos]) + f.pixels &&
        dst[xpos2..] == old(dst[xpos2..]))
  {
    ok, pos, xpos2 := false, start, xpos;
    if |stream| - start < 2 { return; }
    ghost var s := stream[start..];
    var runCount: nat, m: nat := stream[start], stream[start + 1];
    assert s[2..] == stream[start + 2..];
    if runCount != 0 {
      if xpos + runCount > dst.Length { return; }
      PutRun(dst, xpos, runCount, m);
      ok, pos, xpos2 := true, start + 2, xpos + runCount;
    } else if m >= 3 {
      var pitch := (8 * m + 15) / 8 / 2 * 2;
      assert pitch == EvenPitch(m);
      if |stream| - start - 2 < pitch || xpos + m > dst.Length { return; }
      assert s[2..][..m] == stream[start + 2..start + 2 + m];
      assert s[2..][pitch..] == stream[start + 2 + pitch..];
      PutBytes(dst, xpos, stream[start + 2..start + 2 + m]);
      ok, pos, xpos2 := true, start + 2 + pitch, xpos + m;
    } else {
      ok, pos := true, start + 2;
      assert dst[..xpos] + [] == dst[..xpos];
    }
  }

  /** One turn of the reader, seen from the whole row. */
  lemma TurnOfRow(s: seq<Byte>, xpos: nat, width: nat, done: seq<Byte>, taken: nat)
    requires xpos == |done| <= width
    ensures ghost var f, r := ReadFront(s), ReadPackets(s, xpos, width);
      if f.Short? || xpos + |f.pixels| > width then After(done, taken, r) == Failed
      else if xpos + |f.pixels| == width || (f.pixels == [] && xpos != 0) then
        After(done, taken, r) == Taken(done + f.pixels, f.rest, taken + f.bytes)
      else
        After(done, taken, r) == After(done + f.pixels, taken + f.bytes, ReadPackets(f.rest, xpos + |f.pixels|, width))
  {
    var f := ReadFront(s);
    if f.Front? && xpos + |f.pixels| < width && !(f.pixels == [] && xpos != 0) {
      AfterAfter(done, taken, f.pixels, f.bytes, ReadPackets(f.rest, xpos + |f.pixels|, width));
    }
  }

  lemma AnswerOfTurn(s: seq<Byte>, xpos: nat, width: nat)
    ensures ghost var f := ReadFront(s);
      f.Front? && xpos + |f.pixels| <= width ==>
        && s != [] && (s[0] != 0 ==> f.pixels != [])
        && (Answers(s, xpos, width)
            <==> s[0] == 0 || (xpos + |f.pixels| < width && Answers(f.rest, xpos + |f.pixels|, width)))
  {
  }

  /** One trip round the reader's loop; whole is what the row comes to. */
  method TakeTurn(stream: seq<Byte>, start: nat, dst: array<Byte>, xpos: nat, bytesRead: nat, ghost whole: Result)
    returns (ok: bool, more: bool, pos: nat, xpos2: nat)
    requires start <= |stream| && xpos <= dst.Length
    requires whole == After(dst[..xpos], bytesRead, ReadPackets(stream[start..], xpos, dst.Length))
    modifies dst
    ensures !ok ==> whole == Failed
    ensures ok ==> start < pos <= |stream| && xpos <= xpos2 <= dst.Length && dst[xpos2..] == old(dst[xpos2..])
    ensures ok && more ==>
      whole == After(dst[..xpos2], bytesRead + pos - start, ReadPackets(stream[pos..], xpos2, dst.Length))
    ensures ok && !more ==> whole == Taken(dst[..xpos2], stream[pos..], bytesRead + pos - start)
    ensures ok ==> start < |stream|
    ensures ok && stream[start] == 0 ==> Answers(stream[start..], xpos, dst.Length)
    ensures ok && stream[start] != 0 ==>
      (Answers(stream[start..], xpos, dst.Length) <==> more && Answers(stream[pos..], xpos2, dst.Length))
  {
    hide ReadPackets, After, Answers, ReadFront;
    TurnOfRow(stream[start..], xpos, dst.Length, dst[..xpos], bytesRead);
    AnswerOfTurn(stream[start..], xpos, dst.Length);
    ok, pos, xpos2 := TakeFront(stream, start, dst, xpos);
    more := xpos2 < dst.Length && !(xpos2 == xpos && xpos != 0);
  }

  method SkipToFour(stream: seq<Byte>, pos: nat, bytesRead: nat) returns (end: nat)
    requires pos <= |stream|
    ensures pos <= end <= |stream| && stream[end..] == Drop(stream[pos..], Skip(bytesRead))
  {
    var skip := if bytesRead % 4 != 0 then 4 - bytesRead % 4 else 0;
    end := if pos + skip <= |stream| then pos + skip else |stream|;
  }

  /** BMP_readline on a packed 8-bit row: fills the front of dst and leaves the rest of it alone.
      heard is whether the source's result is not 0. */
  method ReadLineInto(stream: seq<Byte>, start: nat, dst: array<Byte>)
    returns (ok: bool, pos: nat, xpos: nat, heard: bool)
    requires start <= |stream|
    modifies dst
    ensures ok == ReadLine(stream[start..], dst.Length).Some?
    ensures ok ==>
      start <= pos <= |stream| && xpos <= dst.Length && dst[xpos..] == old(dst[xpos..]) &&
      ReadLine(stream[start..], dst.Length) == Some((dst[..xpos], stream[pos..])) &&
      heard == Answers(stream[start..], 0, dst.Length)
  {
    hide Answers, ReadPackets, After, Drop;
    ghost var whole := ReadPackets(stream[start..], 0, dst.Length);
    var more := true;
    pos, xpos, heard := start, 0, false;
    AfterNothing(whole);
    assert dst[..0] == [];
    while more
      invariant start <= pos <= |stream| && xpos <= dst.Length
      invariant dst[xpos..] == old(dst[xpos..])
      invariant more ==> whole == After(dst[..xpos], pos - start, ReadPackets(stream[pos..], xpos, dst.Length))
      invariant !more ==> whole == Taken(dst[..xpos], stream[pos..], pos - start)
      invariant Answers(stream[start..], 0, dst.Length) <==> heard || (more && Answers(stream[pos..], xpos, dst.Length))
      decreases more, |stream| - pos
    {
      ghost var at := xpos;
      var front := pos;
      ok, more, pos, xpos := TakeTurn(stream, pos, dst, xpos, pos - start, whole);
      if !ok { return; }
      if stream[front] == 0 { heard := true; }
      TailKept(old(dst[..]), at, xpos);
    }
    ghost var rest, n := stream[pos..], pos - start;
    pos := SkipToFour(stream, pos, pos - start);
    LineFrom(stream[start..], dst.Length, dst[..xpos], rest, n);
    ok := true;
  }

  lemma TailKept(was: seq<Byte>, at: nat, later: nat)
    requires at <= later <= |was|
    ensures was[at..][later - at..] == was[later..]
  {
  }

  // ----- Writing -----

  /** BMP_runcount. */
  method CountRun(src: array<Byte>, at: nat, maxRun: nat) returns (run: nat)
    requires at + maxRun <= src.Length
    ensures run == RunCount(src[at..at + maxRun])
    ensures run <= maxRun
  {
    ghost var s := src[at..at + maxRun];
    var max := if maxRun > MAX_RUN then MAX_RUN else maxRun;
    run := 0;
    while run < max && src[at] == src[at + run]
      invariant run <= max
      invariant forall k :: 0 <= k < run ==> s[k] == s[0]
      invariant RunFrom(s, run) == RunFrom(s, 0)
    {
      run := run + 1;
    }
  }

  lemma TailOfTail(src: array<Byte>, getp: nat, n: nat)
    requires getp + n <= src.Length
    ensures src[getp + n..src.Length] == src[getp..][n..]
  {
  }

  lemma MiddleOfTail(src: array<Byte>, getp: nat, n: nat, m: nat)
    requires getp + m <= src.Length && n <= m
    ensures src[getp + n..getp + m] == src[getp..][n..m]
  {
  }

  method LiteralStops(src: array<Byte>, getp: nat, n: nat) returns (stops: bool)
    requires getp + n <= src.Length
    ensures stops == StopsAt(src[getp..], n)
  {
    var remaining := src.Length - getp;
    var second := CountRun(src, getp + n, remaining - n);
    TailOfTail(src, getp, n);
    var third := CountRun(src, getp + second, remaining - (n + second));
    MiddleOfTail(src, getp, second, remaining - n);
    stops := (second >= 3 && third >= 5) || second >= 5;
  }

  /** How far a literal goes before the run that ends it. */
  method ScanLiteral(src: array<Byte>, getp: nat) returns (n: nat)
    requires getp < src.Length
    ensures n == LiteralLength(src[getp..])
  {
    ghost var s := src[getp..];
    var remaining := src.Length - getp;
    n := 4;
    var stopped := false;
    while !stopped && n < remaining && n < 254
      invariant n >= 4
      invariant !stopped ==> LiteralScan(s, n) == LiteralScan(s, 4)
      invariant stopped ==> LiteralScan(s, 4) == n
      decreases !stopped, remaining - n
    {
      stopped := LiteralStops(src, getp, n);
      if !stopped { n := n + 2; }
    }
    if n >= remaining - 2 { n := remaining; }
    if n > 254 { n := 254; }
  }

  /** The packet the writer chooses. */
  method ChoosePacket(src: array<Byte>, getp: nat) returns (p: Option<Packet>)
    requires getp < src.Length
    ensures p == Pass(src[getp..], src.Length)
  {
    hide LiteralLength, RunCount, RunLength;
    ghost var s := src[getp..];
    var remaining := src.Length - getp;
    var first := CountRun(src, getp, remaining);
    TailOfTail(src, getp, 0);
    assert s[0..] == s;
    var second := CountRun(src, getp + first, remaining - first);
    TailOfTail(src, getp, first);
    if src.Length < 3 || first + second >= 4 {
      first := EndOfLine(src, getp, first);
      p := Some(Run(first, src[getp]));
    } else {
      var n := ScanLiteral(src, getp);
      MiddleOfTail(src, getp, 0, n);
      assert s[0..n] == s[..n];
      p := if n >= 3 then Some(Padded(src[getp..getp + n])) else None;
    }
  }

  /** A run among the last two bytes of a row is counted again. */
  method EndOfLine(src: array<Byte>, getp: nat, count: nat) returns (first: nat)
    requires getp < src.Length && count == RunCount(src[getp..])
    ensures first == RunLength(src[getp..])
  {
    var remaining := src.Length - getp;
    first := count;
    if remaining < 3 {
      first := 1;
      if remaining == 2 && src[getp] == src[getp + 1] { first := 2; }
    }
  }

  /** A packet takes at most twice the pixels it stands for, so a row fits the line buffer. */
  lemma PacketFits(p: Packet)
    requires ValidPacket(p)
    ensures |Wire(p)| <= 2 * |Pixels(p)| && |Wire(p)| % 2 == 0
  {
  }

  lemma {:induction false} RowFits(row: seq<Packet>)
    requires ValidRow(row)
    ensures |RowWire(row)| <= 2 * |RowPixels(row)| + 2
    decreases |row|
  {
    if row != [] {
      PacketFits(row[0]);
      RowFits(row[1..]);
    }
  }

  method PutTwo(dst: array<Byte>, putp: nat, a: Byte, b: Byte) returns (end: nat)
    requires putp + 2 <= dst.Length
    modifies dst
    ensures end == putp + 2 && dst[..end] == old(dst[..putp]) + [a, b]
  {
    dst[putp], dst[putp + 1] := a, b;
    end := putp + 2;
  }

  /** A literal, and a byte of padding if it ends at an odd place. */
  method PutLiteral(dst: array<Byte>, putp: nat, bytes: seq<Byte>, ghost pad: seq<Byte>) returns (end: nat)
    requires putp % 2 == 0 && putp + |bytes| + |pad| <= dst.Length
    requires pad == if |bytes| % 2 == 1 then [0] else []
    modifies dst
    ensures end == putp + |bytes| + |pad| && dst[..end] == old(dst[..putp]) + (bytes + pad)
  {
    PutBytes(dst, putp, bytes);
    end := putp + |bytes|;
    if end % 2 == 1 {
      dst[end] := 0;
      end := end + 1;
    }
  }

  /** The bytes of a packet, wire, go out at putp. */
  method PutPacket(dst: array<Byte>, putp: nat, p: Packet, ghost wire: seq<Byte>) returns (end: nat)
    requires ValidPacket(p) && putp % 2 == 0 && wire == Wire(p) && putp + |wire| <= dst.Length
    requires p.Literal? ==> p == Padded(p.bytes)
    modifies dst
    ensures end == putp + |wire| && end % 2 == 0 && dst[..end] == old(dst[..putp]) + wire
  {
    PacketFits(p);
    if p.Run? {
      end := PutTwo(dst, putp, p.count, p.v);
    } else {
      ghost var before := dst[..putp];
      end := PutTwo(dst, putp, 0, |p.bytes|);
      end := PutLiteral(dst, end, p.bytes, p.pad);
      Assoc(before, [0, |p.bytes|], p.bytes + p.pad);
      Assoc([0, |p.bytes|], p.bytes, p.pad);
    }
  }

  lemma PacketsStep(src: seq<Byte>, width: nat)
    requires src != []
    ensures Pass(src, width).None? ==> Packets(src, width).None?
    ensures Pass(src, width).Some? ==>
      ghost var p := Pass(src, width).value;
      ValidPacket(p) && 1 <= |Pixels(p)| <= |src| && (p.Literal? ==> p == Padded(p.bytes)) &&
      ghost var more := Packets(src[|Pixels(p)|..], width);
      Packets(src, width) == if more.None? then None else Some([p] + more.value)
  {
    if Pass(src, width).Some? { PassIsValid(src, width); }
  }

  /** What a row still needs written: nothing at all if the writer never gets there. */
  function WireOf(row: Option<seq<Packet>>): Option<seq<Byte>>
    requires row.Some? ==> ValidRow(row.value)
  {
    if row.None? then None else Some(PacketsWire(row.value))
  }

  function Rest(src: seq<Byte>, width: nat): Option<seq<Byte>> {
    if Packets(src, width).Some? then PacketsArePixels(src, width); WireOf(Packets(src, width)) else None
  }

  /** written + what Rest gives. */
  function Put(written: seq<Byte>, rest: Option<seq<Byte>>): Option<seq<Byte>> {
    if rest.None? then None else Some(written + rest.value)
  }

  lemma RestStep(src: seq<Byte>, width: nat, p: Packet, written: seq<Byte>)
    requires src != [] && Pass(src, width) == Some(p) && ValidPacket(p) && 1 <= |Pixels(p)| <= |src|
    ensures Put(written, Rest(src, width)) == Put(written + Wire(p), Rest(src[|Pixels(p)|..], width))
  {
    PacketsStep(src, width);
    var more := Packets(src[|Pixels(p)|..], width);
    if more.Some? {
      PacketsArePixels(src[|Pixels(p)|..], width);
      PacketsArePixels(src, width);
      assert ([p] + more.value)[1..] == more.value;
      Assoc(written, Wire(p), PacketsWire(more.value));
    }
  }

  lemma NothingPut(none: seq<Byte>, rest: Option<seq<Byte>>)
    requires none == []
    ensures Put(none, rest) == rest
  {
    if rest.Some? { assert none + rest.value == rest.value; }
  }

  lemma NothingLeft(written: seq<Byte>, s: seq<Byte>, width: nat)
    requires s == []
    ensures Put(written, Rest(s, width)) == Some(written)
  {
    assert written + [] == written;
  }

  lemma RestIsWire(src: seq<Byte>)
    ensures Rest(src, |src|).Some? <==> Finishes(src)
    ensures Finishes(src) ==>
      ValidRow(Packets(src, |src|).value) && Rest(src, |src|).value == PacketsWire(Packets(src, |src|).value)
  {
    if Finishes(src) { PacketsArePixels(src, |src|); }
  }

  /** The packet written for what is left: its bytes, and what is left after it. */
  lemma Onward(left: seq<Byte>, width: nat, written: seq<Byte>, p: Packet) returns (wire: seq<Byte>, left2: seq<Byte>)
    requires left != [] && Pass(left, width) == Some(p)
    ensures ValidPacket(p) && (p.Literal? ==> p == Padded(p.bytes))
    ensures ghost var n := if p.Run? then p.count else |p.bytes|;
      wire == Wire(p) && |wire| <= 2 * n && 1 <= n <= |left| && left2 == left[n..]
    ensures Put(written, Rest(left, width)) == Put(written + wire, Rest(left2, width))
  {
    PacketsStep(left, width);
    wire, left2 := Wire(p), left[|Pixels(p)|..];
    PacketFits(p);
    RestStep(left, width, p, written);
  }

  lemma Stranded(left: seq<Byte>, width: nat)
    requires left != [] && Pass(left, width) == None
    ensures Rest(left, width) == None
  {
  }

  /** The packet chosen at getp goes out at putp. */
  method PutChosen(dst: array<Byte>, putp: nat, p: Packet, ghost wire: seq<Byte>, ghost owed: Option<seq<Byte>>,
                   ghost owed2: Option<seq<Byte>>)
    returns (putp2: nat)
    requires ValidPacket(p) && putp % 2 == 0 && wire == Wire(p) && putp + |wire| <= dst.Length
    requires p.Literal? ==> p == Padded(p.bytes)
    requires Put(dst[..putp], owed) == Put(dst[..putp] + wire, owed2)
    modifies dst
    ensures putp2 == putp + |wire| && putp2 % 2 == 0
    ensures Put(old(dst[..putp]), owed) == Put(dst[..putp2], owed2)
  {
    putp2 := PutPacket(dst, putp, p, wire);
  }

  /** BMP_writeline on a compressed 8-bit row.  The source has no way out of a trip that moves
      nothing; here that ends the method with stuck set. */
  method WriteLine(src: array<Byte>, dst: array<Byte>) returns (stuck: bool, putp: nat)
    requires src != dst && dst.Length >= 3 * src.Length + 28
    modifies dst
    ensures stuck == !Finishes(src[..])
    ensures !stuck ==>
      ValidRow(Packets(src[..], src.Length).value) && putp <= dst.Length &&
      dst[..putp] == RowWire(Packets(src[..], src.Length).value)
  {
    hide Rest, Packets, Pass;
    ghost var s := src[..];
    RestIsWire(s);
    var getp := 0;
    putp := 0;
    assert src[0..] == s;
    ghost var whole, left := Rest(s, |s|), s;
    NothingPut(dst[..0], whole);
    while getp < src.Length
      invariant src[..] == s
      invariant getp <= src.Length && putp <= 2 * getp && putp % 2 == 0
      invariant left == src[getp..] && whole == Put(dst[..putp], Rest(left, |s|))
    {
      var chosen := ChoosePacket(src, getp);
      if chosen.None? {
        Stranded(left, |s|);
        return true, putp;
      }
      var p := chosen.value;
      ghost var wire, left2 := Onward(left, |s|, dst[..putp], p);
      putp := PutChosen(dst, putp, p, wire, Rest(left, |s|), Rest(left2, |s|));
      var n: nat := if p.Run? then p.count else |p.bytes|;
      TailOfTail(src, getp, n);
      getp := getp + n;
      left := left2;
    }
    NothingLeft(dst[..putp], left, |s|);
    putp := PutTwo(dst, putp, 0, 0);
    stuck := false;
  }
}
