/** What removing a vertical seam does to a pixel grid: each row loses the pixel in
    the seam's column, and the pixels to its right move one column left. */
module SeamRemoval {
  import opened Grids

  /** `row` without its entry at column k. */
  function RemoveAt<T>(row: seq<T>, k: nat): (r: seq<T>)
    requires k < |row|
    ensures |r| == |row| - 1
    ensures forall c :: 0 <= c < |r| ==> r[c] == if c < k then row[c] else row[c + 1]
  {
    row[..k] + row[k + 1..]
  }

  /** `row` with `x` put back in at column k. */
  function InsertAt<T>(row: seq<T>, k: nat, x: T): (r: seq<T>)
    requires k <= |row|
    ensures |r| == |row| + 1 && r[k] == x
  {
    row[..k] + [x] + row[k..]
  }

  /** Putting the removed pixel back where it was restores the row. */
  lemma RemoveThenInsert<T>(row: seq<T>, k: nat)
    requires k < |row|
    ensures InsertAt(RemoveAt(row, k), k, row[k]) == row
  {
    assert RemoveAt(row, k)[..k] == row[..k];
    assert RemoveAt(row, k)[k..] == row[k + 1..];
  }

  /** Removal drops exactly one pixel, the one at column k, and keeps every other. */
  lemma RemoveKeepsOthers<T>(row: seq<T>, k: nat)
    requires k < |row|
    ensures multiset(RemoveAt(row, k)) + multiset{row[k]} == multiset(row)
  {
    assert row == row[..k] + [row[k]] + row[k + 1..];
  }

  /** Every column of a seam lies in the grid. */
  ghost predicate SeamInRange(g: Image, seam: seq<int>) {
    |seam| == |g| && forall r :: 0 <= r < |g| ==> 0 <= seam[r] < |g[r]|
  }

  /** The grid left after deleting `seam[r]` from every row r. */
  function Carve(g: Image, seam: seq<int>): (h: Image)
    requires SeamInRange(g, seam)
    ensures |h| == |g|
    ensures forall r :: 0 <= r < |g| ==> h[r] == RemoveAt(g[r], seam[r])
  {
    seq(|g|, r requires 0 <= r < |g| => RemoveAt(g[r], seam[r]))
  }

  /** The pixels a seam covers, one per row. */
  function SeamPixels(g: Image, seam: seq<int>): (p: seq<Pixel>)
    requires SeamInRange(g, seam)
    ensures |p| == |g| && forall r :: 0 <= r < |g| ==> p[r] == g[r][seam[r]]
  {
    seq(|g|, r requires 0 <= r < |g| => g[r][seam[r]])
  }

  /** The grid with `pixels[r]` put back at column `seam[r]` of every row r. */
  function Uncarve(g: Image, seam: seq<int>, pixels: seq<Pixel>): (h: Image)
    requires |seam| == |g| == |pixels|
    requires forall r :: 0 <= r < |g| ==> 0 <= seam[r] <= |g[r]|
    ensures |h| == |g|
  {
    seq(|g|, r requires 0 <= r < |g| => InsertAt(g[r], seam[r], pixels[r]))
  }

  /** Carving a grid of a given shape leaves the same number of rows, one column fewer. */
  lemma CarveShape(g: Image, seam: seq<int>, height: nat, width: nat)
    requires 0 < height && HasShape(g, height, width) && SeamInRange(g, seam)
    ensures 0 < width
    ensures HasShape(Carve(g, seam), height, width - 1)
  {
    assert 0 <= seam[0] < |g[0]|;
  }

  /** Re-inserting the removed pixels at the seam's columns gives back the grid before carving. */
  lemma CarveRoundTrip(g: Image, seam: seq<int>)
    requires SeamInRange(g, seam)
    ensures Uncarve(Carve(g, seam), seam, SeamPixels(g, seam)) == g
  {
    var h := Carve(g, seam);
    forall r | 0 <= r < |g|
      ensures Uncarve(h, seam, SeamPixels(g, seam))[r] == g[r]
    {
      RemoveThenInsert(g[r], seam[r]);
    }
  }
}
