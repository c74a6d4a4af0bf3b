# Seamstress seam carver

A Dafny model of the `SeamCarver` class of Seamstress (`Seamstress/SeamCarver.cs`). The class
keeps two colour images: the original one and a resizable copy. Each successful call to
`RemoveVerticalSeam` narrows the copy by one column; images 1..50 columns wide are refused (see
"## Left out"). A call takes out a vertical seam: one pixel per row, with pixels in neighbouring
rows at most one column apart. The seam is chosen by dynamic programming over an energy image.
With the corrected origin scan, it is the cheapest of the seams whose bottom column lies in
the scan range (`ChosenSeamIsOptimal`). The scan range is [50, width-50) when the image is wider
than 100 columns, and otherwise column 50 alone. The scan as written can miss that seam (see
"## Findings"). On images wider than 100 columns, seams ending in the outer 50 columns on either
side are never considered.

The model has four modules, one per file:

- `Grids` (`grids.dfy`): pixels, images, energy images, and the shape predicates on grids.
- `SeamSearch` (`seam_search.dfy`): the search for the seam.
  - Ghost specification functions: the cost recurrence `Cost`, the path energy `PathEnergy`, the
    parent choice `FirstParent`, the backtrace `Backtrace`, the origin scan `Scan`, and the seam
    the search returns, `ChosenSeam`.
  - Lemmas showing that the chosen seam is a connected seam and has least energy among the seams
    whose bottom column lies in the scan range.
  - The source's loops as methods proved against those functions: `FillCostGrid`/`FillCostRow`
    fill an `array2<int>` cost grid, a `while` loop scans its last row, and
    `TraceBack`/`FindParent` rebuild the seam in an `array<int>` with the source's `break`.
- `SeamRemoval` (`seam_removal.dfy`): what removing a seam does to a grid (`Carve`), with its
  inverse (`Uncarve`) and a round-trip lemma.
- `Carver` (`seam_carver.dfy`): the `SeamCarver` class.
  - `original` is immutable; `resizable` is reassigned.
  - The removal method builds the narrower image in an `array2<Pixel>`, using the source's nested
    loops and its `removed` flag.
  - Errors that the source throws as exceptions are returned as `Fail(...)` outcomes. In every
    such case the image is unchanged.

The energy image is an input. It is a grid of 8-bit intensities with the same shape as the
current image. Every cost is therefore an exact sum of integers. The source's floating-point
comparison within `1e-6` becomes exact equality, and with it some candidate parent always matches
during the backtrace.

## Model

| member | source | states |
|---|---|---|
| Carver.SeamCarver.constructor | Seamstress/SeamCarver.cs:20-24 | The session starts with the original and the resizable image both equal to the given image, with nothing carved yet. |
| Carver.SeamCarver.ResetImage | Seamstress/SeamCarver.cs:27-30 | Afterwards the resizable image equals the original, whatever it was before, so a second reset changes nothing. |
| Carver.SeamCarver.RemoveHorizontalSeam | Seamstress/SeamCarver.cs:33 | Changes no state. |
| Carver.SeamCarver.RemoveVerticalSeam | Seamstress/SeamCarver.cs:34-37 | Removes the seam the search picks for the given energy image. A one-pixel-wide image is refused with `AtMinimumWidth`, and an image 2..50 columns wide with `OriginOutOfRange`; both leave the image unchanged. Any wider image loses exactly the pixels of `ChosenSeam(energy)`, one column fewer. |
| Carver.SeamCarver.RemoveSeam | Seamstress/SeamCarver.cs:124-157 | Checks a null seam, a length other than the height, and width 1, in that order, each leaving the image unchanged. A seam column outside its row fails the same way, because the copy overruns the narrower image. Otherwise the new image is the old one with `seam[r]` deleted from every row r, and the seam is in range. |
| Carver.Rows | Seamstress/SeamCarver.cs:154 | The grid read back from the new pixel array has the array's shape and its pixels. |
| SeamRemoval.RemoveAt | Seamstress/SeamCarver.cs:140-152 | A row without column k is one shorter: entries left of k stay put, and entries right of k move one column left. |
| SeamRemoval.RemoveThenInsert | Seamstress/SeamCarver.cs:143-151 | Putting the skipped pixel back at column k restores the row. |
| SeamRemoval.RemoveKeepsOthers | Seamstress/SeamCarver.cs:143-151 | Removal drops exactly the pixel at column k: the multiset of the rest plus that pixel is the original row. |
| SeamRemoval.Carve | Seamstress/SeamCarver.cs:137-153 | Each row of the carved grid is that row with its seam column removed. |
| SeamRemoval.CarveShape | Seamstress/SeamCarver.cs:132 | Carving a height × width grid gives a height × (width-1) grid. |
| SeamRemoval.CarveRoundTrip | Seamstress/SeamCarver.cs:137-153 | Re-inserting the removed seam pixels at their columns restores the grid exactly. |
| SeamSearch.FindVerticalSeam | Seamstress/SeamCarver.cs:43-117 | Returns exactly `ChosenSeam(energy)`, a connected seam of one in-range column per row. For width 1 that is all zeros, and the cost grid is not filled. |
| SeamSearch.FillCostGrid | Seamstress/SeamCarver.cs:55-85 | Row 0 of the cost grid is zero. Rows 1..height-1 equal the recurrence `Cost`. Row height holds `Total(c)`, the entry above plus the bottom pixel's energy. |
| SeamSearch.FillCostRow | Seamstress/SeamCarver.cs:58-78 | One pass of the row loop: it sets row r to the 2-way or 3-way minimum of the row above and leaves every other row unchanged. |
| SeamSearch.CostIsLeast | Seamstress/SeamCarver.cs:56-78 | No connected path through rows 0..r-1 ending next to column c has less energy than cost entry (r, c). |
| SeamSearch.TotalIsLeast | Seamstress/SeamCarver.cs:80-84 | No seam ending at column c has less energy than the last cost-grid row's entry for c. |
| SeamSearch.TotalIsAttained | Seamstress/SeamCarver.cs:98-116 | The backtrace from column c, with c appended, is a seam whose energy equals the last-row entry for c. So that entry is the least energy of any seam ending at c. |
| SeamSearch.FirstParent | Seamstress/SeamCarver.cs:104-113 | Among c-1, c, c+1, the first in-range column whose cost plus energy equals the entry below. It always exists, so the "none satisfy" case cannot happen. |
| SeamSearch.FindParent | Seamstress/SeamCarver.cs:104-113 | The inner backtrace loop, with `continue` and `break`, returns exactly `FirstParent`. |
| SeamSearch.Backtrace | Seamstress/SeamCarver.cs:99-114 | The backtraced rows 0..r-1 number r, and each lies in the grid. |
| SeamSearch.BacktraceIsCheapestPath | Seamstress/SeamCarver.cs:99-114 | The backtrace is a connected path ending next to the start column, and its energy equals the cost entry it starts from. |
| SeamSearch.BacktraceFollowsFirstParent | Seamstress/SeamCarver.cs:101-113 | In a backtraced seam, every row holds the first matching parent of the column in the row below. |
| SeamSearch.TraceBack | Seamstress/SeamCarver.cs:98-114 | Starting from the origin, the row loop fills the seam array with exactly the backtrace from that origin. |
| SeamSearch.SingleColumnBacktrace | Seamstress/SeamCarver.cs:52-53 | In a one-column image every backtrace stays in column 0, so the all-zero seam is the backtrace. |
| SeamSearch.Scan | Seamstress/SeamCarver.cs:87-95 | The corrected origin scan stays inside [50, width) and returns either the starting best column or a scanned column. |
| SeamSearch.ScanIsLeftmostMinimum | Seamstress/SeamCarver.cs:87-95 | The corrected scan returns a column in [50, width-50), or 50 when that range is empty. Its total is the least in the range, and every column to its left has a strictly larger total. |
| SeamSearch.ScanAsWritten | Seamstress/SeamCarver.cs:89-95 | The scan as written, with the loop bound `width - minLoc` re-evaluated on every pass, stays inside [50, width). |
| SeamSearch.AsWrittenScanMissesMinimum | Seamstress/SeamCarver.cs:90 | A 1 × 103 energy image on which the scan as written stops at column 51. Column 52 has a smaller total and the corrected scan returns it. |
| SeamSearch.Origin | Seamstress/SeamCarver.cs:87-95 | The seam's bottom column lies in the scan range. |
| SeamSearch.ChosenSeam | Seamstress/SeamCarver.cs:43-117 | The seam the search returns is a connected seam of one in-range column per row. |
| SeamSearch.ChosenSeamEnergy | Seamstress/SeamCarver.cs:98-116 | The returned seam is the backtrace from its own bottom column, and its energy equals the last cost-grid row's entry for that column. |
| SeamSearch.ChosenSeamIsOptimal | Seamstress/SeamCarver.cs:87-116 | No seam whose bottom column lies in the scan range has less energy than the returned seam. |
| SeamSearch.FindHorizontalSeam | Seamstress/SeamCarver.cs:119-122 | The horizontal search placeholder returns the empty seam. |

## Left out

- `GetEnergyImage` (grayscale conversion and the Sobel filter) calls into OpenCV, which is not part of this model. The energy image is a parameter of `RemoveVerticalSeam` and `FindVerticalSeam` instead.
- Floating point: the cost grid is `double` in the source and the backtrace compares within `1e-6`. Because energies are 8-bit integers, costs are modelled as exact `int` sums and the comparison as exact equality.
- Carver.SeamCarver.constructor: requires a non-empty image (at least one row and one column). The source accepts any `Mat`, including the empty one an image loader returns when it cannot read a file. On an empty image its `ResetImage` still works, and its `RemoveVerticalSeam` throws, at the latest when it writes the seam's bottom entry (`Seamstress/SeamCarver.cs:99`). The empty image is not modelled.
- `Mat`/`Image` conversions, `Clone` and `Dispose` are memory handling. Images are values (`seq<seq<Pixel>>`), so the constructor's sharing of the caller's `Mat` is not modelled either.
- `Seamstress/SeamCarverTest.cs` (file I/O and a removal loop) and `Seamstress/PathInfo.cs` (path strings) are not part of this model.
- Carver.SeamCarver.RemoveVerticalSeam: for images 2..50 columns wide the source fails with an index-out-of-range exception, and where it is raised depends on the width and the height.
  - At width 50 with at least two rows, the backtrace raises it (`Seamstress/SeamCarver.cs:107`), when it reads the cost-grid entry for column 50.
  - On every other width in 2..50, the search returns a seam whose bottom column is 50. On widths 2..49 no candidate parent of column 50 is in range, so the row above it keeps the default column 0, and the backtrace continues from there. The removal then raises the exception: in the bottom row no column is skipped, so copying the last pixel (`Seamstress/SeamCarver.cs:149`) overruns the narrower image.
  - The model returns the single outcome `OriginOutOfRange` before the search. The image is unchanged, as in the source. The model does not capture which statement raises, or the out-of-range seam that the search returns on these widths.
- SeamSearch.FindVerticalSeam: requires width 1 or more than 50 columns. These are the widths on which the source's search returns a seam whose columns all lie in the image. The caller refuses narrower images.
- SeamSearch.FindVerticalSeam uses the corrected origin scan, `Scan`, rather than the scan as written (see Findings).
- A 10 × 10 image cannot lose a seam: the source fails on every image 2..50 columns wide, and the model returns `OriginOutOfRange`.
- Horizontal carving is an empty placeholder in the source and is modelled as one.

## Findings

| source | as written | input that shows it | evidently intended | confidence | as-written member | corrected member |
|---|---|---|---|---|---|---|
| Seamstress/SeamCarver.cs:90 | The loop bound `col < width - minLoc` is re-evaluated with the current `minLoc`. Each time a cheaper column is found the bound moves left, so the scan can stop before reaching the cheapest column. | A 1 × 103 energy image: 2 everywhere, 1 at column 51, 0 at column 52. The scan moves `minLoc` to 51, the bound becomes 52, and column 52 is never examined. | Scan the fixed range [50, width-50) and return its leftmost column of least total, here column 52. | high, not executed | SeamSearch.ScanAsWritten (shown by SeamSearch.AsWrittenScanMissesMinimum) | SeamSearch.Scan (proved by SeamSearch.ScanIsLeftmostMinimum) |
