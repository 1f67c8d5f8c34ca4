/** Which rows the compressing writer of bitmaps never gets to the end of: it is the end of the row
    that tells. */
module BitmapEnds {
  import opened Common
  import opened BitmapPackets
  import opened BitmapWriter

  /** Bytes at the end that equal the last. */
  function EndRun(s: seq<Byte>): (n: nat)
    ensures n <= |s| && (s != [] ==> n >= 1)
  {
    if |s| <= 1 then |s| else if s[|s| - 2] != s[|s| - 1] then 1 else EndRun(s[..|s| - 1]) + 1
  }

  /** All of them, and no more. */
  lemma {:induction false} EndRunStands(s: seq<Byte>)
    ensures forall k :: |s| - EndRun(s) <= k < |s| ==> s[k] == s[|s| - 1]
    ensures EndRun(s) < |s| ==> s[|s| - EndRun(s) - 1] != s[|s| - 1]
    decreases |s|
  {
    if |s| > 1 { EndRunStands(s[..|s| - 1]); }
  }

  lemma EndRunIsThere(s: seq<Byte>, n: nat)
    requires 1 <= n <= |s| && (forall k :: |s| - n <= k < |s| ==> s[k] == s[|s| - 1])
    requires n < |s| ==> s[|s| - n - 1] != s[|s| - 1]
    ensures EndRun(s) == n
  {
    hide EndRun;
    EndRunStands(s);
    assert EndRun(s) < n ==> EndRun(s) < |s|;
  }

  /** What stands at the end of a suffix is what stands at the end of the row, as far as it goes. */
  lemma EndRunOfSuffix(s: seq<Byte>, p: nat)
    requires p < |s|
    ensures EndRun(s[p..]) == if EndRun(s) <= |s| - p then EndRun(s) else |s| - p
  {
    hide EndRun;
    var t := s[p..];
    EndRunStands(s);
    assert forall k :: 0 <= k < |t| ==> t[k] == s[p + k];
    EndRunIsThere(t, if EndRun(s) <= |t| then EndRun(s) else |t|);
  }

  lemma RunIsThere(s: seq<Byte>, n: nat)
    requires 1 <= n <= |s| && n <= MAX_RUN && (forall k :: 0 <= k < n ==> s[k] == s[0])
    requires n == |s| || n == MAX_RUN || s[n] != s[0]
    ensures RunCount(s) == n
  {
    RunFromSame(s, 0, n);
  }

  lemma {:induction false} RunFromSame(s: seq<Byte>, m: nat, n: nat)
    requires m <= n <= |s| && n <= MAX_RUN && (forall k :: 0 <= k < n ==> s[k] == s[0])
    requires n == |s| || n == MAX_RUN || s[n] != s[0]
    ensures RunFrom(s, m) == n
    decreases n - m
  {
    if m < n { RunFromSame(s, m + 1, n); }
  }

  // ----- The ends that strand -----

  /** x x x y */
  predicate OneAfterRun(row: seq<Byte>) {
    |row| >= 4 && EndRun(row) == 1 && EndRun(row[..|row| - 1]) >= 3
  }

  /** x x y y */
  predicate PairAfterRun(row: seq<Byte>) {
    |row| >= 4 && EndRun(row) == 2 && EndRun(row[..|row| - 2]) >= 2
  }

  /** x x x y z */
  predicate TwoAfterRun(row: seq<Byte>) {
    |row| >= 5 && EndRun(row) == 1 && EndRun(row[..|row| - 1]) == 1 && EndRun(row[..|row| - 2]) >= 3
  }

  /** A stretch with no short run to begin with, and none at any even place that would stop a
      literal before it is 254 bytes long. */
  predicate Unbroken(s: seq<Byte>)
    requires |s| >= 255
  {
    RunCount(s) + RunCount(s[RunCount(s)..]) < 4 && forall j: nat :: 2 <= j < 127 ==> !StopsAt(s, 2 * j)
  }

  predicate LongLiteral(row: seq<Byte>, n: nat)
    requires n >= 255
  {
    |row| >= n && Unbroken(row[|row| - n..])
  }

  /** The ends at which a trip can leave 1 or 2 bytes.  Only the first three concern rows of at most
      254 bytes; the others come of the limits of 255 to a run and 254 to a literal. */
  predicate StrandingEnd(row: seq<Byte>) {
    || OneAfterRun(row)
    || PairAfterRun(row)
    || TwoAfterRun(row)
    || EndRun(row) > MAX_RUN
    || LongLiteral(row, 255)
    || LongLiteral(row, 256)
  }

  lemma {:induction false} ScanPasses(s: seq<Byte>, j: nat, k: nat)
    requires 2 <= j <= k < 127 && LiteralScan(s, 2 * j) >= 254 && |s| >= 255
    ensures !StopsAt(s, 2 * k)
    decreases k - j
  {
    if j < k {
      assert 2 * j + 2 == 2 * (j + 1);
      ScanPasses(s, j + 1, k);
    }
  }

  lemma {:induction false} ScanWithin(s: seq<Byte>, n: nat)
    requires n <= 254
    ensures LiteralScan(s, n) <= 255 && (LiteralScan(s, n) - n) % 2 == 0
    decreases 254 - n
  {
    if !(n >= |s| || n >= 254 || StopsAt(s, n)) {
      if n + 2 <= 254 { ScanWithin(s, n + 2); }
    }
  }

  /** How many bytes the trip from s takes. */
  function Taken(s: seq<Byte>): nat
    requires |s| >= 3
  {
    if ChoosesRun(s, 3) then RunCount(s) else LiteralLength(s)
  }

  lemma TakenIsPass(s: seq<Byte>, width: nat)
    requires |s| >= 3 && width >= 3
    ensures Pass(s, width).Some? && |Pixels(Pass(s, width).value)| == Taken(s)
    ensures 1 <= Taken(s) <= |s|
  {
    RunCountPositive(s);
  }

  lemma RunLeaves(s: seq<Byte>)
    requires |s| >= 3 && ChoosesRun(s, 3) && 1 <= |s| - RunCount(s) <= 2
    ensures StrandingEnd(s)
  {
    hide RunCount, EndRun, LongLiteral;
    RunCountPositive(s);
    var r := RunCount(s);
    RunEnds(s, r);
    var rest := s[r..];
    if s[r] == s[0] {
      LimitLeaves(s, r);
    } else {
      assert EndRun(s[..r]) == r by { EndRunIsThere(s[..r], r); }
      if |rest| == 1 {
        RunIsThere(rest, 1);
        EndRunIsThere(s, 1);
        assert s[..|s| - 1] == s[..r];
      } else if rest[0] == rest[1] {
        RunIsThere(rest, 2);
        EndRunIsThere(s, 2);
        assert s[..|s| - 2] == s[..r];
      } else {
        RunIsThere(rest, 1);
        EndRunIsThere(s, 1);
        EndRunIsThere(s[..r + 1], 1);
        assert s[..|s| - 1] == s[..r + 1] && s[..|s| - 2] == s[..r];
      }
    }
  }

  /** A run stops at the end, at a different byte, or at 255. */
  lemma RunEnds(s: seq<Byte>, r: nat)
    requires s != [] && r == RunCount(s)
    ensures 1 <= r <= |s| && r <= MAX_RUN && forall k :: 0 <= k < r ==> s[k] == s[0]
    ensures r == |s| || r == MAX_RUN || s[r] != s[0]
  {
    RunCountPositive(s);
    RunStops(s, 0);
  }

  /** 255 alike and the same once more: either all alike, or one other byte after them. */
  lemma LimitLeaves(s: seq<Byte>, r: nat)
    requires r == MAX_RUN && 1 <= |s| - r <= 2 && (forall k :: 0 <= k <= r ==> s[k] == s[0])
    ensures StrandingEnd(s)
  {
    hide EndRun, LongLiteral;
    if s[|s| - 1] == s[0] {
      EndRunIsThere(s, |s|);
    } else {
      EndRunIsThere(s, 1);
      EndRunIsThere(s[..|s| - 1], |s| - 1);
    }
  }

  lemma LiteralLeaves(s: seq<Byte>)
    requires |s| >= 3 && !ChoosesRun(s, 3) && 1 <= |s| - LiteralLength(s) <= 2
    ensures StrandingEnd(s)
  {
    hide RunCount, EndRun, StopsAt;
    ScanWithin(s, 4);
    forall j: nat | 2 <= j < 127
      ensures !StopsAt(s, 2 * j)
    {
      ScanPasses(s, 2, j);
    }
    assert s[|s| - |s|..] == s;
  }

  /** A trip leaves 1 or 2 bytes only at a stranding end. */
  lemma StrandsAtEnd(s: seq<Byte>)
    requires |s| >= 3 && 1 <= |s| - Taken(s) <= 2
    ensures StrandingEnd(s)
  {
    hide StrandingEnd, ChoosesRun, LiteralLength, RunCount;
    if ChoosesRun(s, 3) {
      RunLeaves(s);
    } else {
      LiteralLeaves(s);
    }
  }

  lemma LongLiteralOfSuffix(row: seq<Byte>, p: nat, n: nat)
    requires p < |row| && n >= 255 && LongLiteral(row[p..], n)
    ensures LongLiteral(row, n)
  {
    assert row[p..][|row| - p - n..] == row[|row| - n..];
  }

  lemma EndRunBefore(row: seq<Byte>, p: nat, left: nat)
    requires p + left < |row|
    ensures ghost var s, front := row[p..], row[..|row| - left];
      EndRun(s[..|s| - left])
        == if EndRun(front) <= |front| - p then EndRun(front) else |front| - p
  {
    hide EndRun;
    assert row[p..][..|row| - p - left] == row[..|row| - left][p..];
    EndRunOfSuffix(row[..|row| - left], p);
  }

  lemma OneAfterRunOfSuffix(row: seq<Byte>, p: nat)
    requires p < |row| && OneAfterRun(row[p..])
    ensures OneAfterRun(row)
  {
    hide EndRun;
    EndRunOfSuffix(row, p);
    EndRunBefore(row, p, 1);
  }

  lemma PairAfterRunOfSuffix(row: seq<Byte>, p: nat)
    requires p < |row| && PairAfterRun(row[p..])
    ensures PairAfterRun(row)
  {
    hide EndRun;
    EndRunOfSuffix(row, p);
    EndRunBefore(row, p, 2);
  }

  lemma TwoAfterRunOfSuffix(row: seq<Byte>, p: nat)
    requires p < |row| && TwoAfterRun(row[p..])
    ensures TwoAfterRun(row)
  {
    hide EndRun;
    EndRunOfSuffix(row, p);
    EndRunBefore(row, p, 1);
    EndRunBefore(row, p, 2);
  }

  /** The end of a suffix is the end of the row. */
  lemma StrandingSuffix(row: seq<Byte>, p: nat)
    requires p < |row| && StrandingEnd(row[p..])
    ensures StrandingEnd(row)
  {
    hide EndRun, LongLiteral, OneAfterRun, PairAfterRun, TwoAfterRun;
    var s := row[p..];
    EndRunOfSuffix(row, p);
    if OneAfterRun(s) { OneAfterRunOfSuffix(row, p); }
    if PairAfterRun(s) { PairAfterRunOfSuffix(row, p); }
    if TwoAfterRun(s) { TwoAfterRunOfSuffix(row, p); }
    if LongLiteral(s, 255) { LongLiteralOfSuffix(row, p, 255); }
    if LongLiteral(s, 256) { LongLiteralOfSuffix(row, p, 256); }
  }

  lemma NothingStrands()
    ensures !StrandingEnd([])
  {
  }

  lemma {:induction false} FinishesFrom(src: seq<Byte>, width: nat)
    requires width >= 3 && (src == [] || |src| >= 3) && !StrandingEnd(src)
    ensures Packets(src, width).Some?
    decreases |src|
  {
    hide StrandingEnd, Pass;
    if src != [] {
      TakenIsPass(src, width);
      var rest := src[Taken(src)..];
      if |rest| == 1 || |rest| == 2 { StrandsAtEnd(src); }
      if rest == [] {
        NothingStrands();
      } else if StrandingEnd(rest) {
        StrandingSuffix(src, Taken(src));
      }
      FinishesFrom(rest, width);
    }
  }

  /** Whatever its length, a row without a stranding end is written to its end. */
  lemma FinishesWithoutStrandingEnd(row: seq<Byte>)
    requires !StrandingEnd(row)
    ensures Finishes(row)
  {
    hide StrandingEnd;
    if |row| >= 3 {
      FinishesFrom(row, |row|);
    } else {
      NarrowFinishes(row);
    }
  }

  lemma NarrowFinishes(row: seq<Byte>)
    requires |row| < 3
    ensures Finishes(row)
  {
    if row != [] {
      var p := Pass(row, |row|).value;
      PassIsValid(row, |row|);
      var rest := row[|Pixels(p)|..];
      if rest != [] {
        var q := Pass(rest, |row|).value;
        PassIsValid(rest, |row|);
        assert rest[|Pixels(q)|..] == [];
        assert Packets(rest, |row|).Some?;
      }
    }
  }

  /** In particular a row of at most 254 bytes that ends in three alike. */
  lemma SolidEndFinishes(row: seq<Byte>)
    requires 3 <= |row| <= 254 && row[|row| - 1] == row[|row| - 2] == row[|row| - 3]
    ensures Finishes(row)
  {
    hide Finishes;
    EndRunStands(row);
    FinishesWithoutStrandingEnd(row);
  }

  // ----- The rows that hang -----

  /** What is left before the last `left` bytes ends in a run, no longer than 255, that a literal
      cannot swallow: it is 8 long, or it is all there is. */
  predicate Doomed(src: seq<Byte>, left: nat) {
    1 <= left <= 2 && |src| > left &&
    var front := src[..|src| - left];
    var f := EndRun(front);
    f <= MAX_RUN && src[|front|] != src[|front| - 1] &&
    (f >= 8 || (f == |front| && f + RunCount(src[|front|..]) >= 4))
  }

  lemma DoomedRun(src: seq<Byte>, left: nat)
    requires Doomed(src, left) && EndRun(src[..|src| - left]) == |src| - left
    ensures |src| >= 3 && Taken(src) == |src| - left
  {
    hide EndRun, RunCount;
    var f := |src| - left;
    var front := src[..f];
    EndRunStands(front);
    assert forall k :: 0 <= k < f ==> src[k] == front[k] == front[f - 1];
    RunIsThere(src, f);
    RunEnds(src[f..], RunCount(src[f..]));
  }

  lemma {:induction false} ScanStops(s: seq<Byte>, n: nat, q: nat)
    requires n <= q <= |s| && (q - n) % 2 == 0 && StopsAt(s, q)
    ensures LiteralScan(s, n) <= q
    decreases q - n
  {
    if n < q && !(n >= |s| || n >= 254 || StopsAt(s, n)) { ScanStops(s, n + 2, q); }
  }

  /** In a run of 5 and more left a literal stops. */
  lemma StopsInRun(src: seq<Byte>, q: nat, f: nat)
    requires q + f < |src| && 5 <= f <= MAX_RUN && (forall k :: q <= k < q + f ==> src[k] == src[q])
    requires src[q + f] != src[q]
    ensures StopsAt(src, q)
  {
    RunIsThere(src[q..], f);
  }

  lemma DoomedAfter(src: seq<Byte>, left: nat, n: nat, f: nat)
    requires 1 <= left <= 2 && |src| > left && f == EndRun(src[..|src| - left]) && 8 <= f <= MAX_RUN
    requires src[|src| - left] != src[|src| - left - 1]
    requires n + left + f <= |src| || n + left + 5 <= |src| <= n + left + f
    ensures Doomed(src[n..], left)
  {
    hide EndRun;
    var rest := src[n..];
    EndRunBefore(src, n, left);
    assert rest[..|rest| - left] == src[n..][..|src| - n - left];
    if |src| < n + left + f {
      RunEnds(rest[|rest| - left..], RunCount(rest[|rest| - left..]));
    }
  }

  /** The run starts d bytes on. */
  predicate RunStartsAt(src: seq<Byte>, d: nat, f: nat) {
    d >= 1 && 8 <= f <= MAX_RUN && d + f < |src| &&
    (forall k :: d <= k < d + f ==> src[k] == src[d]) && src[d] != src[d - 1] && src[d + f] != src[d]
  }

  lemma RunStartsThere(src: seq<Byte>, left: nat, f: nat, d: nat)
    requires 1 <= left <= 2 && 8 <= f <= MAX_RUN && d >= 1 && |src| == d + f + left
    requires f == EndRun(src[..|src| - left]) && src[d + f] != src[d + f - 1]
    ensures RunStartsAt(src, d, f)
  {
    hide EndRun;
    var front := src[..d + f];
    EndRunStands(front);
    assert forall k :: d <= k < d + f ==> src[k] == front[k] == front[d + f - 1];
    assert src[d - 1] == front[d - 1];
  }

  /** A run that begins before it ends before it, or where it starts. */
  lemma RunReach(src: seq<Byte>, f: nat, d: nat)
    requires RunStartsAt(src, d, f)
    ensures 1 <= RunCount(src) <= d
  {
    hide RunCount;
    RunEnds(src, RunCount(src));
  }

  /** A literal that begins before it stops in it at the latest, with 5 of it left. */
  lemma LiteralReach(src: seq<Byte>, f: nat, d: nat)
    requires RunStartsAt(src, d, f)
    ensures LiteralScan(src, 4) <= (if d < 3 then 4 else d + 1)
  {
    hide LiteralScan, StopsAt;
    var q := if d < 4 then 4 else if d % 2 == 0 then d else d + 1;
    StopsInRun(src, q, d + f - q);
    ScanStops(src, 4, q);
  }

  /** How far a trip gets that begins before the run. */
  lemma DoomedReach(src: seq<Byte>, left: nat, f: nat, d: nat)
    requires 1 <= left <= 2 && |src| == d + f + left && RunStartsAt(src, d, f)
    ensures 1 <= Taken(src) <= (if d < 3 then 4 else d + 1)
  {
    hide LiteralScan, RunCount, ChoosesRun;
    RunReach(src, f, d);
    LiteralReach(src, f, d);
  }

  /** From a doomed place the trip leads to another, or leaves the last bytes. */
  lemma DoomedStep(src: seq<Byte>, left: nat)
    requires Doomed(src, left)
    ensures |src| >= 3 && 1 <= left <= 2 && 1 <= Taken(src) <= |src| - left
    ensures Taken(src) == |src| - left || Doomed(src[Taken(src)..], left)
  {
    hide EndRun, RunCount, Taken;
    var f := EndRun(src[..|src| - left]);
    var d := |src| - left - f;
    if d == 0 {
      DoomedRun(src, left);
    } else {
      assert src[..|src| - left][d + f - 1] == src[d + f - 1];
      RunStartsThere(src, left, f, d);
      DoomedReach(src, left, f, d);
      DoomedAfter(src, left, Taken(src), f);
    }
  }

  lemma {:induction false} DoomedHangs(src: seq<Byte>, left: nat, width: nat)
    requires Doomed(src, left) && width >= 3
    ensures Packets(src, width).None?
    decreases |src|
  {
    hide Doomed, Pass;
    DoomedStep(src, left);
    TakenIsPass(src, width);
    var rest := src[Taken(src)..];
    if |rest| == left {
      StuckExactly(rest, width);
    } else {
      DoomedHangs(rest, left, width);
    }
  }

  /** The run that ends 1 or 2 bytes before the end of the row. */
  function Before(row: seq<Byte>, left: nat): nat
    requires left <= |row|
  {
    EndRun(row[..|row| - left])
  }

  /** Whatever stands in front, a run of 8 to 255 that ends 1 or 2 bytes before the row does keeps
      the writer from ever getting to the end. */
  lemma LongRunBeforeEndHangs(row: seq<Byte>, left: nat)
    requires 1 <= left <= 2 && |row| > left && row[|row| - left] != row[|row| - left - 1]
    requires 8 <= Before(row, left) <= MAX_RUN
    ensures !Finishes(row)
  {
    hide EndRun;
    DoomedHangs(row, left, |row|);
  }

  /** A row of x, r times, and y, at every length the run can have. */
  lemma RunAndOneHangs(r: nat, x: Byte, y: Byte)
    requires 3 <= r <= MAX_RUN && x != y
    ensures !Finishes(Repeat(r, x) + [y])
  {
    WholeRunHangs(r, x, [y]);
  }

  /** The same with two bytes after it. */
  lemma RunAndTwoHangs(r: nat, x: Byte, y: Byte, z: Byte)
    requires (if y == z then 2 else 3) <= r <= MAX_RUN && x != y
    ensures !Finishes(Repeat(r, x) + [y, z])
  {
    WholeRunHangs(r, x, [y, z]);
  }

  lemma WholeRunHangs(r: nat, x: Byte, end: seq<Byte>)
    requires 1 <= |end| <= 2 && end[0] != x && r <= MAX_RUN
    requires r >= if |end| == 2 && end[0] == end[1] then 2 else 3
    ensures !Finishes(Repeat(r, x) + end)
  {
    hide EndRun, RunCount;
    var row := Repeat(r, x) + end;
    assert row[..r] == Repeat(r, x) && row[r..] == end;
    EndRunIsThere(row[..r], r);
    RunIsThere(end, if |end| == 2 && end[0] == end[1] then 2 else 1);
    DoomedHangs(row, |end|, |row|);
  }

  lemma {:induction false} ScanReaches(s: seq<Byte>, j: nat)
    requires |s| >= 255 && Unbroken(s) && 2 <= j <= 127
    ensures LiteralScan(s, 2 * j) == 254
    decreases 127 - j
  {
    hide StopsAt, RunCount;
    if j < 127 {
      assert 2 * j + 2 == 2 * (j + 1);
      ScanReaches(s, j + 1);
    }
  }

  /** A row of 255 or 256 bytes that nothing breaks up: the literal stops at 254. */
  lemma LongLiteralHangs(row: seq<Byte>)
    requires 255 <= |row| <= 256 && Unbroken(row)
    ensures !Finishes(row)
  {
    hide Pass, StopsAt;
    ScanReaches(row, 2);
    TakenIsPass(row, |row|);
    assert Taken(row) == 254;
    var rest := row[254..];
    StuckExactly(rest, |row|);
    assert Packets(rest, |row|).None?;
  }

  // ----- Rows of one byte all through -----

  lemma SolidTaken(s: seq<Byte>, v: Byte)
    requires |s| >= 3 && s == Repeat(|s|, v)
    ensures Taken(s) == if |s| <= MAX_RUN then |s| else MAX_RUN
  {
    hide RunCount;
    if |s| <= MAX_RUN {
      RunIsThere(s, |s|);
      assert s[|s|..] == [] && RunCount([]) == 0 by { NoRun(); }
      if |s| == 3 { LiteralOfThree(s); }
    } else {
      RunIsThere(s, MAX_RUN);
    }
  }

  lemma NoRun()
    ensures RunCount([]) == 0
  {
  }

  lemma LiteralOfThree(s: seq<Byte>)
    requires |s| == 3
    ensures LiteralLength(s) == 3
  {
  }

  lemma {:induction false} SolidFrom(s: seq<Byte>, v: Byte, width: nat)
    requires s == Repeat(|s|, v) && width >= 3
    ensures Packets(s, width).Some? <==> |s| % MAX_RUN != 1 && |s| % MAX_RUN != 2
    decreases |s|
  {
    hide Pass, Taken;
    if |s| >= 3 {
      TakenIsPass(s, width);
      SolidTaken(s, v);
      var rest := s[Taken(s)..];
      assert rest == Repeat(|rest|, v);
      SolidFrom(rest, v, width);
    } else if s != [] {
      StuckExactly(s, width);
    }
  }

  /** A solid row of n bytes, 3 or more, is written exactly when n leaves neither 1 nor 2 over 255s. */
  lemma SolidFinishesExactly(n: nat, v: Byte)
    requires n >= 3
    ensures Finishes(Repeat(n, v)) <==> n % MAX_RUN != 1 && n % MAX_RUN != 2
  {
    SolidFrom(Repeat(n, v), v, n);
  }

  // ----- Where the end decides -----

  /** How many bytes a stranding end leaves. */
  function Left(row: seq<Byte>): nat {
    if EndRun(row) == 2 || (|row| >= 2 && EndRun(row[..|row| - 1]) == 1) then 2 else 1
  }

  /** The run before the last 1 or 2 bytes is not one of those short ones that a literal may or may
      not swallow, nor over the limit: it is 8 long, or it is the rest of the row. */
  predicate Decided(row: seq<Byte>)
    requires |row| >= 3
  {
    var f := Before(row, Left(row));
    f <= MAX_RUN && (f >= 8 || f == |row| - Left(row))
  }

  predicate ShortEnd(row: seq<Byte>) {
    OneAfterRun(row) || PairAfterRun(row) || TwoAfterRun(row)
  }

  /** Where the end decides, the writer gets to the end of the row exactly when it is no stranding
      end; for rows of at most 254 bytes those are x x x y, x x y y and x x x y z. */
  lemma EndDecides(row: seq<Byte>)
    requires |row| >= 3 && (StrandingEnd(row) ==> ShortEnd(row) && Decided(row))
    ensures Finishes(row) <==> !StrandingEnd(row)
    ensures |row| <= 254 ==> (StrandingEnd(row) <==> ShortEnd(row))
  {
    hide EndRun, Finishes;
    if ShortEnd(row) {
      DecidedIsDoomed(row);
      DoomedHangs(row, Left(row), |row|);
      NotFinished(row);
    } else {
      FinishesWithoutStrandingEnd(row);
    }
  }

  lemma NotFinished(row: seq<Byte>)
    requires Packets(row, |row|).None?
    ensures !Finishes(row)
  {
  }

  lemma DecidedIsDoomed(row: seq<Byte>)
    requires |row| >= 3 && Decided(row) && ShortEnd(row)
    ensures Doomed(row, Left(row))
  {
    hide EndRun, RunCount;
    var left := Left(row);
    var end := row[|row| - left..];
    EndRunStands(row);
    EndRunStands(row[..|row| - 1]);
    assert row[..|row| - 1][|row| - 2] == row[|row| - 2];
    assert row[..|row| - 1][|row| - 3] == row[|row| - 3];
    RunIsThere(end, if EndRun(row) == 2 then 2 else 1);
  }

  /** For the short runs it depends on what stands in front: after three other bytes a literal
      takes the end that hangs by itself. */
  lemma ShortRunsDepend(a: Byte, b: Byte, c: Byte, x: Byte, y: Byte)
    requires a != b && b != c && c != x && x != y
    ensures !Finishes([x, x, x, y]) && Finishes([a, b, c, x, x, x, y])
  {
    RunAndOneHangs(3, x, y);
    assert Repeat(3, x) + [y] == [x, x, x, y];
    SwallowedByLiteral([a, b, c, x, x, x, y]);
  }

  lemma SwallowedByLiteral(row: seq<Byte>)
    requires |row| == 7 && row[0] != row[1] && row[1] != row[2] && row[5] != row[6] && row[4] == row[5]
    ensures Finishes(row)
  {
    hide RunCount;
    RunIsThere(row, 1);
    RunIsThere(row[1..], 1);
    RunIsThere(row[4..], 2);
    assert !StopsAt(row, 4);
    assert LiteralScan(row, 6) == 6 || LiteralScan(row, 6) == 8;
    assert LiteralLength(row) == 7;
    TakenIsPass(row, 7);
    assert row[7..] == [] && Packets(row[7..], 7).Some?;
  }
}
