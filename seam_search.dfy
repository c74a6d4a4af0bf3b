/** Minimum-energy vertical seam search (SeamCarver.FindVerticleSeam).
    The cost grid has height + 1 rows: row 0 is a synthetic all-zero row above
    the image, rows 1 .. height-1 follow the dynamic-programming recurrence, and
    row height holds the total energy of the cheapest seam ending in each column.
    Energies are 8-bit intensities, so every cost is an exact integer and the
    backtrace compares costs exactly. */
module SeamSearch {
  import opened Grids

  /** Columns left out on each side when the bottom end of the seam is chosen. */
  const Margin: nat := 50

  /** The smaller of two costs (Math.Min). */
  function Min(a: int, b: int): int {
    if a <= b then a else b
  }

  // ---------------------------------------------------------------------------
  // Paths and their energy
  // ---------------------------------------------------------------------------

  /** Every entry of `p` is a column of a grid `width` columns wide. */
  ghost predicate InColumns(p: seq<int>, width: nat) {
    forall i :: 0 <= i < |p| ==> 0 <= p[i] < width
  }

  /** Consecutive entries differ by at most one column. */
  ghost predicate Connected(p: seq<int>) {
    forall i, j {:trigger p[i], p[j]} :: 0 <= i && j == i + 1 && j < |p| ==> -1 <= p[j] - p[i] <= 1
  }

  /** `p[r]` is the column visited in row `r` of a connected downward path. */
  ghost predicate IsPath(p: seq<int>, width: nat) {
    InColumns(p, width) && Connected(p)
  }

  /** A vertical seam of `e`: one column per row, connected from top to bottom. */
  ghost predicate IsSeam(e: Energy, s: seq<int>)
    requires IsGrid(e)
  {
    |s| == |e| && IsPath(s, Width(e))
  }

  /** The sum of the energies of the pixels `p` visits in rows 0 .. |p|-1. */
  ghost function PathEnergy(e: Energy, p: seq<int>): int
    requires IsGrid(e) && |p| <= |e| && InColumns(p, Width(e))
  {
    if |p| == 0 then 0 else PathEnergy(e, p[..|p| - 1]) + e[|p| - 1][p[|p| - 1]]
  }

  lemma PathEnergyAppend(e: Energy, p: seq<int>, x: int)
    requires IsGrid(e) && |p| < |e| && InColumns(p, Width(e)) && 0 <= x < Width(e)
    ensures InColumns(p + [x], Width(e))
    ensures PathEnergy(e, p + [x]) == PathEnergy(e, p) + e[|p|][x]
  {
    assert (p + [x])[..|p|] == p;
  }

  lemma PathAppend(p: seq<int>, x: int, width: nat)
    requires IsPath(p, width) && 0 <= x < width
    requires 0 < |p| ==> -1 <= x - p[|p| - 1] <= 1
    ensures IsPath(p + [x], width)
  {
    var q := p + [x];
    forall i, j | 0 <= i && j == i + 1 && j < |q|
      ensures -1 <= q[j] - q[i] <= 1
    {
      if j < |p| {
        assert q[i] == p[i] && q[j] == p[j];
      }
    }
  }

  // ---------------------------------------------------------------------------
  // The cost grid
  // ---------------------------------------------------------------------------

  /** Entry (r, c) of the cost grid for 0 <= r < height: zero in row 0; in a later
      row, the least of entry plus energy over the in-range columns c-1, c, c+1 of
      the row above. */
  ghost function Cost(e: Energy, r: nat, c: nat): int
    requires IsGrid(e) && r < |e| && c < Width(e)
  {
    if r == 0 then 0
    else
      var up := Cost(e, r - 1, c) + e[r - 1][c];
      var withLeft := if 0 < c then Min(Cost(e, r - 1, c - 1) + e[r - 1][c - 1], up) else up;
      if c + 1 < Width(e) then Min(withLeft, Cost(e, r - 1, c + 1) + e[r - 1][c + 1]) else withLeft
  }

  /** The cost of a seam that passes through pixel (r, c), that pixel's energy included. */
  ghost function Through(e: Energy, r: nat, c: nat): int
    requires IsGrid(e) && r < |e| && c < Width(e)
  {
    Cost(e, r, c) + e[r][c]
  }

  /** Entry (height, c) of the cost grid: the entry above plus the energy of the bottom pixel. */
  ghost function Total(e: Energy, c: nat): int
    requires IsGrid(e) && c < Width(e)
  {
    Through(e, |e| - 1, c)
  }

  /** The last row of the cost grid. */
  ghost function Totals(e: Energy): (t: seq<int>)
    requires IsGrid(e)
    ensures |t| == Width(e)
  {
    seq(Width(e), c requires 0 <= c < Width(e) => Total(e, c))
  }

  /** No connected path through rows 0 .. r-1 that ends next to column c costs less than Cost(e, r, c). */
  lemma {:induction false} CostIsLeast(e: Energy, r: nat, c: nat, p: seq<int>)
    requires IsGrid(e) && 0 < r < |e| && c < Width(e)
    requires |p| == r && IsPath(p, Width(e)) && -1 <= c - p[r - 1] <= 1
    ensures Cost(e, r, c) <= PathEnergy(e, p)
  {
    var q := p[r - 1];
    assert Cost(e, r, c) <= Cost(e, r - 1, q) + e[r - 1][q];
    assert p[..r - 1] + [q] == p;
    PathEnergyAppend(e, p[..r - 1], q);
    if 1 < r {
      CostIsLeast(e, r - 1, q, p[..r - 1]);
    }
  }

  /** The bottom row of the cost grid is a lower bound on the energy of every seam ending in that column. */
  lemma TotalIsLeast(e: Energy, s: seq<int>)
    requires IsGrid(e) && IsSeam(e, s)
    ensures Total(e, s[|e| - 1]) <= PathEnergy(e, s)
  {
    var h := |e|;
    assert s[..h - 1] + [s[h - 1]] == s;
    PathEnergyAppend(e, s[..h - 1], s[h - 1]);
    if 1 < h {
      CostIsLeast(e, h - 1, s[h - 1], s[..h - 1]);
    }
  }

  // ---------------------------------------------------------------------------
  // Backtrace
  // ---------------------------------------------------------------------------

  /** The column of row r from which the backtrace continues upward when the seam
      is at column c of row r + 1: the first of c-1, c, c+1 that lies in the grid and
      whose cost plus energy equals the cost-grid entry of (r + 1, c). Such a column
      always exists, because that entry is the least of those very sums. */
  ghost function FirstParent(e: Energy, r: nat, c: nat): (p: nat)
    requires IsGrid(e) && r + 1 < |e| && c < Width(e)
    ensures p < Width(e) && c - 1 <= p <= c + 1
    ensures Through(e, r, p) == Cost(e, r + 1, c)
    ensures forall q: nat :: c - 1 <= q < p ==> Through(e, r, q) != Cost(e, r + 1, c)
  {
    if 0 < c && Through(e, r, c - 1) == Cost(e, r + 1, c) then c - 1
    else if Through(e, r, c) == Cost(e, r + 1, c) then c
    else c + 1
  }

  /** The rows 0 .. r-1 of the seam that the backtrace rebuilds from column c of row r. */
  ghost function Backtrace(e: Energy, r: nat, c: nat): (p: seq<int>)
    requires IsGrid(e) && r < |e| && c < Width(e)
    ensures |p| == r && InColumns(p, Width(e))
  {
    if r == 0 then []
    else
      var q := FirstParent(e, r - 1, c);
      var above := Backtrace(e, r - 1, q);
      PathEnergyAppend(e, above, q);
      above + [q]
  }

  /** The backtrace from column c of row r is a connected path that ends next to c,
      and its energy is exactly the cost-grid entry of (r, c). */
  lemma {:induction false} BacktraceIsCheapestPath(e: Energy, r: nat, c: nat)
    requires IsGrid(e) && r < |e| && c < Width(e)
    ensures var p := Backtrace(e, r, c);
      && IsPath(p, Width(e))
      && (0 < r ==> -1 <= c - p[r - 1] <= 1)
      && PathEnergy(e, p) == Cost(e, r, c)
  {
    if 0 < r {
      var q := FirstParent(e, r - 1, c);
      var above := Backtrace(e, r - 1, q);
      BacktraceIsCheapestPath(e, r - 1, q);
      assert PathEnergy(e, above) == Cost(e, r - 1, q);
      var p := Backtrace(e, r, c);
      assert p == above + [q];
      PathAppend(above, q, Width(e));
      PathEnergyAppend(e, above, q);
      assert p[r - 1] == q;
      assert PathEnergy(e, p) == Cost(e, r - 1, q) + e[r - 1][q] == Cost(e, r, c);
    }
  }

  /** Every row of a backtraced seam holds the first matching parent of the column
      in the row below it. */
  lemma {:induction false} BacktraceFollowsFirstParent(e: Energy, k: nat, c: nat, i: nat)
    requires IsGrid(e) && i < k < |e| && c < Width(e)
    ensures var p := Backtrace(e, k, c) + [c];
      0 <= p[i + 1] && p[i] == FirstParent(e, i, p[i + 1])
  {
    var q := FirstParent(e, k - 1, c);
    var above := Backtrace(e, k - 1, q);
    var p := Backtrace(e, k, c) + [c];
    assert p == above + [q] + [c];
    if i == k - 1 {
      assert p[i] == q && p[i + 1] == c;
    } else {
      var p' := above + [q];
      BacktraceFollowsFirstParent(e, k - 1, q, i);
      assert p[i] == p'[i] && p[i + 1] == p'[i + 1];
    }
  }

  /** Seams ending at column c reach exactly the bottom cost-grid entry of c: the backtrace from c is one. */
  lemma TotalIsAttained(e: Energy, c: nat)
    requires IsGrid(e) && c < Width(e)
    ensures IsSeam(e, Backtrace(e, |e| - 1, c) + [c])
    ensures PathEnergy(e, Backtrace(e, |e| - 1, c) + [c]) == Total(e, c)
  {
    var h := |e|;
    var above := Backtrace(e, h - 1, c);
    BacktraceIsCheapestPath(e, h - 1, c);
    assert PathEnergy(e, above) == Cost(e, h - 1, c);
    PathAppend(above, c, Width(e));
    PathEnergyAppend(e, above, c);
    assert PathEnergy(e, above + [c]) == Cost(e, h - 1, c) + e[h - 1][c];
  }

  /** In a one-column image every backtrace stays in column 0. */
  lemma {:induction false} SingleColumnBacktrace(e: Energy, r: nat)
    requires IsGrid(e) && Width(e) == 1 && r < |e|
    ensures Backtrace(e, r, 0) == seq(r, _ => 0)
  {
    if 0 < r {
      SingleColumnBacktrace(e, r - 1);
    }
  }

  // ---------------------------------------------------------------------------
  // Choosing the bottom end of the seam
  // ---------------------------------------------------------------------------

  /** The scan for the cheapest bottom column as the source's comment describes it:
      columns col .. |t|-Margin-1 from left to right, replacing `best` only by a
      strictly cheaper column. */
  function Scan(t: seq<int>, col: nat, best: nat): (o: nat)
    requires Margin <= best < |t| && Margin <= col
    ensures Margin <= o < |t|
    ensures o == best || col <= o < |t| - Margin
    decreases |t| - col
  {
    if col < |t| - Margin then Scan(t, col + 1, if t[col] < t[best] then col else best)
    else best
  }

  /** The scan as the source writes it: the loop bound `width - minLoc` is evaluated
      again on every pass with the current best column, so it moves left whenever a
      cheaper column is found. */
  function ScanAsWritten(t: seq<int>, col: nat, best: nat): (o: nat)
    requires Margin <= best < |t| && Margin <= col
    ensures Margin <= o < |t|
    ensures o == best || col <= o < |t| - Margin
    decreases |t| - col
  {
    if col < |t| - best then ScanAsWritten(t, col + 1, if t[col] < t[best] then col else best)
    else best
  }

  /** The columns the origin scan examines: [Margin, width-Margin) when that range is
      non-empty, and otherwise only the starting column Margin. */
  ghost predicate InScanRange(width: nat, c: int) {
    if 2 * Margin < width then Margin <= c < width - Margin else c == Margin
  }

  lemma {:induction false} ScanKeepsLeftmostMinimum(t: seq<int>, col: nat, best: nat)
    requires Margin <= best < |t| && Margin <= col
    requires forall c :: Margin <= c < col && c < |t| ==> t[best] <= t[c]
    requires forall c :: Margin <= c < best ==> t[best] < t[c]
    ensures var o := Scan(t, col, best);
      && (forall c :: Margin <= c < |t| - Margin ==> t[o] <= t[c])
      && (forall c :: Margin <= c < o ==> t[o] < t[c])
    decreases |t| - col
  {
    if col < |t| - Margin {
      ScanKeepsLeftmostMinimum(t, col + 1, if t[col] < t[best] then col else best);
    }
  }

  /** The corrected scan picks a column of the scan range with the least total there,
      and the leftmost such column. */
  lemma ScanIsLeftmostMinimum(t: seq<int>)
    requires Margin < |t|
    ensures var o := Scan(t, Margin, Margin);
      && InScanRange(|t|, o)
      && (forall c :: InScanRange(|t|, c) ==> t[o] <= t[c])
      && (forall c :: Margin <= c < o ==> t[o] < t[c])
  {
    ScanKeepsLeftmostMinimum(t, Margin, Margin);
  }

  /** A one-row, 103-column energy image on which the scan as written stops at column 51
      (total 1), although column 52 inside the scan range has total 0. */
  lemma AsWrittenScanMissesMinimum()
    ensures var row: seq<Intensity> := seq(103, i => if i == 51 then 1 else if i == 52 then 0 else 2);
      var e := [row];
      && IsGrid(e) && 2 * Margin < Width(e) && InScanRange(Width(e), 52)
      && ScanAsWritten(Totals(e), Margin, Margin) == 51
      && Total(e, 52) < Total(e, 51)
      && Scan(Totals(e), Margin, Margin) == 52
  {
    var row: seq<Intensity> := seq(103, i => if i == 51 then 1 else if i == 52 then 0 else 2);
    var e := [row];
    var t := Totals(e);
    assert t[50] == 2 && t[51] == 1 && t[52] == 0;
    assert ScanAsWritten(t, 50, 50) == ScanAsWritten(t, 51, 50);
    assert ScanAsWritten(t, 51, 50) == ScanAsWritten(t, 52, 51);
    assert ScanAsWritten(t, 52, 51) == 51;
    ScanIsLeftmostMinimum(t);
    var o := Scan(t, Margin, Margin);
    assert t[o] <= t[52] == 0;
    assert o == 52;
  }

  /** The bottom column of the seam: the corrected scan over the last cost-grid row. */
  ghost function Origin(e: Energy): (o: nat)
    requires IsGrid(e) && Margin < Width(e)
    ensures InScanRange(Width(e), o)
  {
    var t := Totals(e);
    ScanIsLeftmostMinimum(t);
    Scan(t, Margin, Margin)
  }

  // ---------------------------------------------------------------------------
  // The seam the search returns
  // ---------------------------------------------------------------------------

  /** The seam FindVerticalSeam returns: all zeros for a one-column image, otherwise the
      backtrace from the origin column. */
  ghost function ChosenSeam(e: Energy): (s: seq<int>)
    requires IsGrid(e) && (Width(e) == 1 || Margin < Width(e))
    ensures IsSeam(e, s)
  {
    if Width(e) == 1 then seq(|e|, _ => 0)
    else
      var o := Origin(e);
      TotalIsAttained(e, o);
      Backtrace(e, |e| - 1, o) + [o]
  }

  /** The chosen seam is the backtrace from its own bottom column, and its energy is
      the bottom cost-grid entry of that column. */
  lemma ChosenSeamEnergy(e: Energy)
    requires IsGrid(e) && (Width(e) == 1 || Margin < Width(e))
    ensures var s := ChosenSeam(e);
      && s == Backtrace(e, |e| - 1, s[|e| - 1]) + [s[|e| - 1]]
      && PathEnergy(e, s) == Total(e, s[|e| - 1])
  {
    var s := ChosenSeam(e);
    if Width(e) == 1 {
      SingleColumnBacktrace(e, |e| - 1);
      assert s == seq(|e| - 1, _ => 0) + [0];
    }
    TotalIsAttained(e, s[|e| - 1]);
  }

  /** No seam whose bottom column lies in the scan range has less energy than the chosen seam. */
  lemma ChosenSeamIsOptimal(e: Energy, s: seq<int>)
    requires IsGrid(e) && Margin < Width(e)
    requires IsSeam(e, s) && InScanRange(Width(e), s[|e| - 1])
    ensures PathEnergy(e, ChosenSeam(e)) <= PathEnergy(e, s)
  {
    var h, t, o := |e|, Totals(e), Origin(e);
    var chosen := ChosenSeam(e);
    assert chosen[h - 1] == o;
    ChosenSeamEnergy(e);
    ScanIsLeftmostMinimum(t);
    assert Total(e, o) <= Total(e, s[h - 1]) by {
      assert t[o] <= t[s[h - 1]];
    }
    TotalIsLeast(e, s);
  }

  // ---------------------------------------------------------------------------
  // The search itself
  // ---------------------------------------------------------------------------

  /** Fills the cost grid of a grid at least two columns wide: row 0 stays zero, rows
      1 .. height-1 take a two-way minimum at the edge columns and a three-way minimum
      inside, and row height adds the bottom pixel's energy to the entry above. */
  method FillCostGrid(energy: Energy) returns (costs: array2<int>)
    requires IsGrid(energy) && 1 < Width(energy)
    ensures costs.Length0 == |energy| + 1 && costs.Length1 == Width(energy)
    ensures forall r, c {:trigger costs[r, c]} :: 0 <= r < |energy| && 0 <= c < Width(energy) ==>
      costs[r, c] == Cost(energy, r, c)
    ensures forall c {:trigger costs[|energy|, c]} :: 0 <= c < Width(energy) ==>
      costs[|energy|, c] == Total(energy, c)
  {
    var height, width := |energy|, |energy[0]|;
    costs := new int[height + 1, width]((_, _) => 0);

    for row := 1 to height
      modifies costs
      invariant forall r, c {:trigger costs[r, c]} :: 0 <= r < row && 0 <= c < width ==> costs[r, c] == Cost(energy, r, c)
    {
      FillCostRow(energy, costs, row);
    }

    for col := 0 to width
      modifies costs
      invariant forall c {:trigger costs[height, c]} :: 0 <= c < col ==> costs[height, c] == Total(energy, c)
      invariant forall r, c {:trigger costs[r, c]} :: 0 <= r < height && 0 <= c < width ==> costs[r, c] == Cost(energy, r, c)
    {
      costs[height, col] := costs[height - 1, col] + energy[height - 1][col];
    }
  }

  /** Fills row `row` of the cost grid from the row above it, leaving every other row as it was. */
  method FillCostRow(energy: Energy, costs: array2<int>, row: nat)
    requires IsGrid(energy) && 1 < Width(energy) && 0 < row < |energy|
    requires costs.Length0 == |energy| + 1 && costs.Length1 == Width(energy)
    requires forall c {:trigger costs[row - 1, c]} :: 0 <= c < Width(energy) ==>
      costs[row - 1, c] == Cost(energy, row - 1, c)
    modifies costs
    ensures forall c {:trigger costs[row, c]} :: 0 <= c < Width(energy) ==> costs[row, c] == Cost(energy, row, c)
    ensures forall r, c {:trigger costs[r, c]} :: 0 <= r < costs.Length0 && r != row && 0 <= c < costs.Length1 ==>
      costs[r, c] == old(costs[r, c])
  {
    var width := |energy[0]|;
    costs[row, 0] :=
      Min(costs[row - 1, 0] + energy[row - 1][0], costs[row - 1, 1] + energy[row - 1][1]);
    for col := 1 to width - 1
      invariant forall c {:trigger costs[row, c]} :: 0 <= c < col ==> costs[row, c] == Cost(energy, row, c)
      invariant forall r, c {:trigger costs[r, c]} :: 0 <= r < costs.Length0 && r != row && 0 <= c < width ==>
        costs[r, c] == old(costs[r, c])
    {
      costs[row, col] :=
        Min(costs[row - 1, col + 1] + energy[row - 1][col + 1],
            Min(costs[row - 1, col] + energy[row - 1][col],
                costs[row - 1, col - 1] + energy[row - 1][col - 1]));
    }
    costs[row, width - 1] :=
      Min(costs[row - 1, width - 2] + energy[row - 1][width - 2],
          costs[row - 1, width - 1] + energy[row - 1][width - 1]);
  }

  /** Looks for the column of row `row` the seam came from when it is at column `child`
      of the row below: tries child-1, child, child+1 in that order, skips columns
      outside the grid and stops at the first whose cost plus energy equals the entry
      below. One always matches, so the source's "none matches" case cannot arise. */
  method FindParent(energy: Energy, costs: array2<int>, row: nat, child: nat) returns (found: int)
    requires IsGrid(energy) && row + 1 < |energy| && child < Width(energy)
    requires costs.Length0 == |energy| + 1 && costs.Length1 == Width(energy)
    requires forall r, c {:trigger costs[r, c]} :: 0 <= r < |energy| && 0 <= c < Width(energy) ==>
      costs[r, c] == Cost(energy, r, c)
    ensures found == FirstParent(energy, row, child)
  {
    var width := |energy[0]|;
    found := 0;
    ghost var parent := FirstParent(energy, row, child);
    for col := child - 1 to child + 2
      invariant col <= parent
    {
      if col < 0 || col >= width {
        continue;
      }
      if costs[row, col] + energy[row][col] == costs[row + 1, child] {
        assert Through(energy, row, col) == Cost(energy, row + 1, child);
        found := col;
        break;
      }
      assert Through(energy, row, col) != Cost(energy, row + 1, child);
    }
  }

  /** Walks from the origin column back up the cost grid, one FindParent per row. */
  method TraceBack(energy: Energy, costs: array2<int>, origin: nat) returns (seam: seq<int>)
    requires IsGrid(energy) && origin < Width(energy)
    requires costs.Length0 == |energy| + 1 && costs.Length1 == Width(energy)
    requires forall r, c {:trigger costs[r, c]} :: 0 <= r < |energy| && 0 <= c < Width(energy) ==>
      costs[r, c] == Cost(energy, r, c)
    ensures seam == Backtrace(energy, |energy| - 1, origin) + [origin]
  {
    var height := |energy|;
    ghost var spec := Backtrace(energy, height - 1, origin) + [origin];
    var path := new int[height](_ => 0);
    path[height - 1] := origin;
    for row := height - 1 downto 0
      invariant forall r {:trigger path[r]} :: row <= r < height ==> path[r] == spec[r]
    {
      var child := path[row + 1];
      BacktraceFollowsFirstParent(energy, height - 1, origin, row);
      assert child == spec[row + 1];
      var parent := FindParent(energy, costs, row, child);
      path[row] := parent;
    }
    seam := path[..];
    assert seam == spec;
  }

  /** Builds the cost grid, scans its last row for the cheapest column inside the
      margins (leftmost on ties) and traces the seam back up from it. A one-column
      image gives the all-zero seam without filling the grid. */
  method FindVerticalSeam(energy: Energy) returns (seam: seq<int>)
    requires IsGrid(energy)
    requires Width(energy) == 1 || Margin < Width(energy)
    ensures seam == ChosenSeam(energy)
    ensures IsSeam(energy, seam)
  {
    var height, width := |energy|, |energy[0]|;
    if width == 1 {
      var zeros := new int[height](_ => 0);
      seam := zeros[..];
      assert seam == seq(height, _ => 0) == ChosenSeam(energy);
      return;
    }

    var costs := FillCostGrid(energy);

    ghost var totals := Totals(energy);
    var minLoc := Margin;
    var col := Margin;
    while col < width - Margin
      invariant Margin <= col && Margin <= minLoc < width
      invariant Scan(totals, col, minLoc) == Origin(energy)
    {
      if costs[height, col] < costs[height, minLoc] {
        minLoc := col;
      }
      col := col + 1;
    }

    seam := TraceBack(energy, costs, minLoc);
  }

  /** The horizontal counterpart is a placeholder that returns an empty seam. */
  method FindHorizontalSeam() returns (seam: seq<int>)
    ensures seam == []
  {
    seam := [];
  }
}
