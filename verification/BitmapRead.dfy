/** The row loop of the bitmap reader: how far into the image it gets. */
module BitmapImage {
  import opened Common
  import opened BitmapPackets
  import opened BitmapReader

  /** The rows that are read: up to the first whose result is 0, and that one too. */
  function ReadWhile(s: seq<Byte>, width: nat, n: nat): (r: Option<seq<seq<Byte>>>)
    ensures r.Some? ==> |r.value| <= n
    decreases n
  {
    if n == 0 then Some([])
    else
      match ReadLine(s, width)
      case None => None
      case Some((row, rest)) => Onto([row], if Answers(s, 0, width) then ReadWhile(rest, width, n - 1) else Some([]))
  }

  function Onto(done: seq<seq<Byte>>, r: Option<seq<seq<Byte>>>): Option<seq<seq<Byte>>> {
    if r.None? then None else Some(done + r.value)
  }

  predicate HasLiteral(row: seq<Packet>) {
    row != [] && (row[0].Literal? || HasLiteral(row[1..]))
  }

  /** Packets that fill the row answer exactly when there is a literal among them. */
  lemma {:induction false} PacketsAnswer(row: seq<Packet>, s: seq<Byte>, xpos: nat, width: nat, rest: seq<Byte>)
    requires ValidRow(row) && row != [] && xpos + |RowPixels(row)| == width
    requires s == PacketsWire(row) + rest
    ensures Answers(s, xpos, width) <==> HasLiteral(row)
    decreases |row|
  {
    hide ReadFront;
    var p, more := row[0], row[1..];
    var tail := PacketsWire(more) + rest;
    RowParts(row, rest);
    ReadsPacket(p, tail);
    assert s[0] == Wire(p)[0];
    if more != [] {
      PixelsFollow(more);
      PacketsAnswer(more, tail, xpos + |Pixels(p)|, width, rest);
    } else {
      assert tail == rest;
    }
  }

  predicate RowHeard(l: seq<Byte>, row: seq<Packet>) {
    l == END_OF_LINE || HasLiteral(row)
  }

  /** A row answers exactly when it has a literal, or is read from the marker of the row before. */
  lemma RowAnswers(s: seq<Byte>, l: seq<Byte>, row: seq<Packet>, rest: seq<Byte>, width: nat)
    requires Leftover(l) && ValidRow(row) && |RowPixels(row)| == width && width > 0 && s == l + (RowWire(row) + rest)
    ensures Answers(s, 0, width) <==> RowHeard(l, row)
  {
    hide PacketsWire, RowPixels, ValidRow, HasLiteral;
    var wire := RowWire(row) + rest;
    if l == END_OF_LINE {
      assert s[2..] == wire;
      assert ReadFront(s) == Front([], 2, wire);
    } else {
      assert s == wire;
      Assoc(PacketsWire(row), END_OF_LINE, rest);
      NotEmpty(row);
      PacketsAnswer(row, s, 0, width, END_OF_LINE + rest);
    }
  }

  lemma NotEmpty(row: seq<Packet>)
    requires |RowPixels(row)| > 0
    ensures row != []
  {
  }

  predicate AllValid(rows: seq<seq<Packet>>) {
    rows == [] || (ValidRow(rows[0]) && AllValid(rows[1..]))
  }

  /** How many rows are read. */
  function Reached(l: seq<Byte>, rows: seq<seq<Packet>>): (n: nat)
    requires AllValid(rows)
    ensures n <= |rows|
    decreases |rows|
  {
    if rows == [] then 0
    else if RowHeard(l, rows[0]) then 1 + Reached(NextLeftover(l, rows[0]), rows[1..])
    else 1
  }

  /** Every row but the last has a literal or follows a marker left over. */
  predicate AllHeard(l: seq<Byte>, rows: seq<seq<Packet>>)
    requires AllValid(rows)
    decreases |rows|
  {
    |rows| <= 1 || (RowHeard(l, rows[0]) && AllHeard(NextLeftover(l, rows[0]), rows[1..]))
  }

  lemma {:induction false} ReachedAll(l: seq<Byte>, rows: seq<seq<Packet>>)
    requires AllValid(rows)
    ensures Reached(l, rows) == |rows| <==> AllHeard(l, rows)
    decreases |rows|
  {
    hide RowHeard, NextLeftover;
    if rows != [] && RowHeard(l, rows[0]) { ReachedAll(NextLeftover(l, rows[0]), rows[1..]); }
  }

  lemma {:induction false} RowsAreValid(rows: seq<seq<Packet>>, width: nat)
    requires ValidRows(rows, width)
    ensures AllValid(rows)
    decreases |rows|
  {
    if rows != [] { RowsAreValid(rows[1..], width); }
  }

  /** The row loop reads a stream of well-formed rows up to the first that answers 0. */
  lemma {:induction false} ReadsReached(s: seq<Byte>, l: seq<Byte>, rows: seq<seq<Packet>>, rest: seq<Byte>, width: nat)
    requires Leftover(l) && width > 0 && ValidRows(rows, width) && AllValid(rows)
    requires s == l + Stream(rows, width) + rest
    ensures ReadWhile(s, width, |rows|) == Some(AllPixels(rows)[..Reached(l, rows)])
    decreases |rows|
  {
    hide ReadLine, RowHeard, Answers, NextLeftover;
    if rows != [] {
      var more := rows[1..];
      var tail := Stream(more, width) + rest;
      StreamParts(l, rows, rest, width);
      var l2 := ReadLineResyncs(s, l, rows[0], tail, width);
      RowAnswers(s, l, rows[0], tail, width);
      TakeFirst(RowPixels(rows[0]), AllPixels(more), Reached(l, rows));
      if RowHeard(l, rows[0]) {
        Assoc(l2, Stream(more, width), rest);
        ReadsReached(l2 + tail, l2, more, rest, width);
      }
    }
  }

  lemma TakeFirst<T>(x: T, more: seq<T>, n: nat)
    requires 1 <= n <= |more| + 1
    ensures ([x] + more)[..n] == [x] + more[..n - 1]
  {
  }

  /** It reads them all exactly when each but the last has a literal in it or is read from the
      marker that the row before left over. */
  lemma ReadsImageExactly(s: seq<Byte>, rows: seq<seq<Packet>>, rest: seq<Byte>, width: nat)
    requires width > 0 && ValidRows(rows, width) && s == Stream(rows, width) + rest
    ensures AllValid(rows)
    ensures ReadWhile(s, width, |rows|) == Some(AllPixels(rows)) <==> AllHeard([], rows)
  {
    hide ReadWhile, AllPixels, Stream, ValidRows, AllValid, Reached, AllHeard;
    RowsAreValid(rows, width);
    assert [] + Stream(rows, width) + rest == s;
    ReadsReached(s, [], rows, rest, width);
    ReachedAll([], rows);
    TakeAll(AllPixels(rows), Reached([], rows));
  }

  /** Two rows of one run each: the second is not read. */
  lemma SolidRowsStop(n: nat, v: Byte, rest: seq<Byte>)
    requires 1 <= n <= 255
    ensures var rows := [[Run(n, v)], [Run(n, v)]];
      ValidRows(rows, n) && ReadWhile(Stream(rows, n) + rest, n, 2) == Some([Repeat(n, v)])
  {
    hide ReadWhile;
    var row: seq<Packet> := [Run(n, v)];
    var rows := [row, row];
    assert row[1..] == [] && rows[1..] == [row];
    assert RowPixels(row) == Pixels(row[0]) + RowPixels([]) == Repeat(n, v) && RowPixels([]) == [];
    assert ValidRow(row) && !HasLiteral(row);
    assert ValidRows([row], n) && ValidRows(rows, n) by { assert [row][1..] == []; }
    RowsAreValid(rows, n);
    var wire := Stream(rows, n) + rest;
    assert [] + Stream(rows, n) + rest == wire;
    ReadsReached(wire, [], rows, rest, n);
    assert AllPixels(rows)[..1] == [Repeat(n, v)];
  }

  lemma TakeAll<T>(a: seq<T>, n: nat)
    requires n <= |a|
    ensures a[..n] == a <==> n == |a|
  {
  }
}

/** The row loop of BMP_read, once the stream stands at the first row. */
module BitmapLoop {
  import opened Common
  import opened BitmapCodec
  import opened BitmapImage
  import opened BitmapReader

  /** Rows are stored from the bottom up, unless the height in the file is negative. */
  function RowAt(y: nat, height: nat, bottomUp: bool): (n: nat)
    requires y < height
    ensures n < height
  {
    if bottomUp then height - 1 - y else y
  }

  /** A row written over what was there before, as far as it goes. */
  function Over(row: seq<Byte>, was: seq<Byte>): seq<Byte> {
    if |row| <= |was| then row + was[|row|..] else row
  }

  lemma OntoOnto(a: seq<seq<Byte>>, b: seq<seq<Byte>>, r: Option<seq<seq<Byte>>>)
    ensures Onto(a, Onto(b, r)) == Onto(a + b, r)
  {
    if r.Some? { Assoc(a, b, r.value); }
  }

  /** One row more, or none. */
  lemma RowMore(done: seq<seq<Byte>>, s: seq<Byte>, width: nat, n: nat)
    requires n > 0
    ensures ghost var line, whole := ReadLine(s, width), Onto(done, ReadWhile(s, width, n));
      if line.None? then whole == None
      else if Answers(s, 0, width) then
        whole == Onto(done + [line.value.0], ReadWhile(line.value.1, width, n - 1))
      else whole == Some(done + [line.value.0])
  {
    hide ReadLine, Answers;
    var line := ReadLine(s, width);
    if line.Some? {
      OntoOnto(done, [line.value.0], ReadWhile(line.value.1, width, n - 1));
      OntoOnto(done, [line.value.0], Some([]));
      assert done + [line.value.0] + [] == done + [line.value.0];
    }
  }

  lemma OntoNone(s: seq<Byte>, width: nat, done: seq<seq<Byte>>)
    ensures Onto(done, ReadWhile(s, width, 0)) == Some(done)
  {
    assert done + [] == done;
  }

  lemma OntoNothing(r: Option<seq<seq<Byte>>>)
    ensures Onto([], r) == r
  {
    if r.Some? { assert [] + r.value == r.value; }
  }

  method CopyOf(row: seq<Byte>) returns (a: array<Byte>)
    ensures fresh(a) && a[..] == row
  {
    a := new Byte[|row|](k requires 0 <= k < |row| => row[k]);
  }

  /** The rows that are read stand in their places, and the others are as they were.  heard is
      whether the result of the last row was not 0. */
  method ReadImage(stream: seq<Byte>, start: nat, width: nat, height: nat, bottomUp: bool, image: array<seq<Byte>>)
    returns (ok: bool, heard: bool)
    requires start <= |stream| && image.Length == height && forall i :: 0 <= i < height ==> |image[i]| == width
    modifies image
    ensures ghost var rows := ReadWhile(stream[start..], width, height);
      && ok == rows.Some?
      && (ok ==> forall at :: 0 <= at < height ==>
            ghost var y := if bottomUp then height - 1 - at else at;
            image[at] == if y < |rows.value| then Over(rows.value[y], old(image[at])) else old(image[at]))
      && (ok && heard ==> |rows.value| == height)
  {
    hide ReadLine, ReadWhile, Answers, Onto, Over;
    ghost var whole := ReadWhile(stream[start..], width, height);
    ghost var done: seq<seq<Byte>> := [];
    var pos: nat := start;
    ok, heard := true, true;
    OntoNothing(whole);
    for y := 0 to height
      invariant pos <= |stream| && ok && |done| <= y && (heard ==> |done| == y)
      invariant whole == if heard then Onto(done, ReadWhile(stream[pos..], width, height - y)) else Some(done)
      invariant forall k :: 0 <= k < |done| ==>
        image[RowAt(k, height, bottomUp)] == Over(done[k], old(image[RowAt(k, height, bottomUp)]))
      invariant forall k :: |done| <= k < height ==>
        image[RowAt(k, height, bottomUp)] == old(image[RowAt(k, height, bottomUp)])
    {
      if heard {
        RowMore(done, stream[pos..], width, height - y);
        var at := RowAt(y, height, bottomUp);
        var line := CopyOf(image[at]);
        var xpos;
        ok, pos, xpos, heard := ReadLineInto(stream, pos, line);
        if !ok { return; }
        ghost var row := line[..xpos];
        PutOver(line, xpos, old(image[at]));
        image[at] := line[..];
        done := done + [row];
      }
    }
    OntoNone(stream[pos..], width, done);
    assert whole == Some(done);
    forall at | 0 <= at < height
      ensures ghost var y := if bottomUp then height - 1 - at else at;
        image[at] == if y < |done| then Over(done[y], old(image[at])) else old(image[at])
    {
      assert RowAt(RowAt(at, height, bottomUp), height, bottomUp) == at;
    }
  }

  lemma PutOver(line: array<Byte>, xpos: nat, was: seq<Byte>)
    requires xpos <= line.Length == |was| && line[xpos..] == was[xpos..]
    ensures line[..] == Over(line[..xpos], was)
  {
    assert line[..] == line[..xpos] + line[xpos..];
  }
}
