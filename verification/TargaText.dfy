/** Which packets the writer of Targa rows chooses, by the pixels alone. */
module TargaText {
  import opened Common
  import opened TargaPixel
  import opened TargaRow

  /** Pixel k equals the next, and at 8 bits also the one after that. */
  predicate RunStarts(row: seq<Pixel>, k: nat, f: Format) {
    k + 1 < |row| && row[k] == row[k + 1] && (f.Deep() || (k + 2 < |row| && row[k] == row[k + 2]))
  }

  lemma LengthOfRun(row: seq<Pixel>)
    requires row != []
    ensures RunLength(row) >= 2 <==> |row| >= 2 && row[0] == row[1]
    ensures RunLength(row) >= 3 <==> |row| >= 3 && row[0] == row[1] == row[2]
  {
    assert RunLength(row) == RunFrom(row, 1);
  }

  /** A run is chosen where two pixels are alike, and at 8 bits only with a third, or with two more
      alike behind them. */
  lemma RunIsChosen(row: seq<Pixel>, f: Format)
    requires row != []
    ensures First(row, f).Run?
      <==> |row| >= 2 && row[0] == row[1]
           && (f.Deep() || (|row| >= 3 && row[2] == row[0]) || (|row| >= 4 && row[2] == row[3]))
  {
    var n := RunLength(row);
    LengthOfRun(row);
    if n == 2 && |row| > 2 { LengthOfRun(row[2..]); }
  }

  /** It is the longest there is, up to 128. */
  lemma RunIsLongest(row: seq<Pixel>, f: Format)
    requires row != [] && First(row, f).Run?
    ensures var n := First(row, f).count;
      && First(row, f).pixel == row[0] && 1 <= n <= 128 && n <= |row| && (forall k :: 0 <= k < n ==> row[k] == row[0])
      && (n < |row| && n < 128 ==> row[n] != row[0])
  {
  }

  lemma GoodIsStart(row: seq<Pixel>, k: nat, f: Format)
    requires k < |row|
    ensures GoodRun(RunLength(row[k..]), f) <==> RunStarts(row, k, f)
  {
    LengthOfRun(row[k..]);
  }

  lemma {:induction false} ScanIsFirst(row: seq<Pixel>, n: nat, f: Format)
    requires 1 <= n <= |row| && n <= MAX_PACKET
    ensures var r := LiteralScan(row, n, f);
      && (forall k :: n <= k < r ==> !RunStarts(row, k, f))
      && (r == |row| || r == 128 || RunStarts(row, r, f))
    decreases |row| - n
  {
    hide RunStarts, GoodRun, RunLength;
    if n < |row| {
      GoodIsStart(row, n, f);
      if n < MAX_PACKET && !RunStarts(row, n, f) { ScanIsFirst(row, n + 1, f); }
    }
  }

  /** A literal reaches to the first run that starts behind its first pixel, or to its limit; but one
      that would leave three pixels or fewer takes them as well, up to the limit. */
  lemma LiteralReaches(row: seq<Pixel>, f: Format) returns (n: nat)
    requires row != [] && First(row, f).Literal?
    ensures 1 <= n <= |row| && n <= 128 && (forall k :: 1 <= k < n ==> !RunStarts(row, k, f))
    ensures n == |row| || n == 128 || RunStarts(row, n, f)
    ensures First(row, f).pixels == row[..if n < |row| - 3 then n else if |row| > 128 then 128 else |row|]
  {
    hide RunStarts;
    ScanIsFirst(row, 1, f);
    n := LiteralScan(row, 1, f);
  }
}
