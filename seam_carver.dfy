/** A carving session: the original image, kept as it was, and a resizable copy that
    loses one vertical seam per successful removal and can be reset to the original. */
module Carver {
  import opened Grids
  import opened SeamSearch
  import opened SeamRemoval

  /** A reference that may be null. */
  datatype Option<T> = None | Some(value: T)

  /** Why a removal did not change the image. */
  datatype CarveError =
    | NullSeam            // no seam was given
    | SeamLengthMismatch  // the seam's length is not the image height
    | AtMinimumWidth      // the image is one pixel wide
    | ColumnOutOfRange    // a seam column lies outside its row, so the copy overruns the narrower image
    | OriginOutOfRange    // the image is 2 .. Margin columns wide, so column Margin is outside it

  datatype Outcome = Pass | Fail(error: CarveError)

  /** The pixel grid held in a two-dimensional array, row by row. */
  function Rows(a: array2<Pixel>): (g: Image)
    reads a
    ensures HasShape(g, a.Length0, a.Length1)
    ensures forall r, c :: 0 <= r < a.Length0 && 0 <= c < a.Length1 ==> g[r][c] == a[r, c]
  {
    seq(a.Length0, r requires 0 <= r < a.Length0 reads a =>
      seq(a.Length1, c requires 0 <= c < a.Length1 reads a => a[r, c]))
  }

  class SeamCarver {
    /** The image the session was created with. */
    const original: Image
    /** The image with the seams removed so far. */
    var resizable: Image
    /** The number of vertical seams removed since construction or the last reset. */
    ghost var carved: nat

    /** Both images are non-empty grids of the same height, and the resizable one is
        narrower than the original by the number of seams removed. */
    ghost predicate Valid()
      reads this
    {
      && IsGrid(original)
      && carved < Width(original)
      && HasShape(resizable, |original|, Width(original) - carved)
    }

    constructor (image: Image)
      requires IsGrid(image)
      ensures Valid()
      ensures original == image && resizable == image && carved == 0
    {
      original := image;
      resizable := image;
      carved := 0;
    }

    /** Discards all carving: the resizable image becomes the original again. The new
        state does not depend on the old one, so resetting twice is resetting once. */
    method ResetImage()
      requires Valid()
      modifies this
      ensures Valid()
      ensures resizable == original && carved == 0
    {
      resizable := original;
      carved := 0;
    }

    /** Horizontal carving is an empty placeholder. */
    method RemoveHorizontalSeam()
      requires Valid()
      ensures unchanged(this)
    {
    }

    /** Removes a given vertical seam. A missing seam, a seam whose length is not the
        height, and a one-pixel-wide image are refused in that order, leaving the image
        as it was. The seam's columns are not checked up front: a row whose seam column
        lies outside it skips no pixel, so copying its last pixel overruns the new,
        narrower image and the removal fails with the image unchanged. Otherwise every
        row loses the pixel in the seam's column and the pixels right of it move one
        column left. */
    method RemoveSeam(seam: Option<seq<int>>) returns (outcome: Outcome)
      requires Valid()
      modifies this
      ensures Valid()
      ensures seam.None? ==> outcome == Fail(NullSeam)
      ensures seam.Some? && |seam.value| != old(|resizable|) ==> outcome == Fail(SeamLengthMismatch)
      ensures seam.Some? && |seam.value| == old(|resizable|) && old(Width(resizable)) == 1 ==>
        outcome == Fail(AtMinimumWidth)
      ensures outcome == Fail(ColumnOutOfRange) <==>
        seam.Some? && |seam.value| == old(|resizable|) && old(Width(resizable)) != 1 &&
        !SeamInRange(old(resizable), seam.value)
      ensures outcome.Pass? <==>
        seam.Some? && |seam.value| == old(|resizable|) && old(Width(resizable)) != 1 &&
        SeamInRange(old(resizable), seam.value)
      ensures outcome.Fail? ==> resizable == old(resizable) && carved == old(carved)
      ensures outcome.Pass? ==> resizable == Carve(old(resizable), seam.value) && carved == old(carved) + 1
    {
      if seam.None? {
        return Fail(NullSeam);
      }
      var s := seam.value;
      if |s| != |resizable| {
        return Fail(SeamLengthMismatch);
      }
      var g := resizable;
      var height, width := |g|, |g[0]|;
      if width == 1 {
        return Fail(AtMinimumWidth);
      }

      var newImage := new Pixel[height, width - 1];
      for row := 0 to height
        modifies newImage
        invariant forall r {:trigger s[r]} :: 0 <= r < row ==> 0 <= s[r] < width
        invariant forall r, c {:trigger newImage[r, c]} :: 0 <= r < row && 0 <= c < width - 1 ==>
          newImage[r, c] == RemoveAt(g[r], s[r])[c]
      {
        var removed := false;
        for col := 0 to width
          modifies newImage
          invariant removed <==> 0 <= s[row] < col
          invariant !removed ==> col < width
          invariant forall c {:trigger newImage[row, c]} :: 0 <= c < (if removed then col - 1 else col) ==>
            newImage[row, c] == g[row][if removed && s[row] <= c then c + 1 else c]
          invariant forall r, c {:trigger newImage[r, c]} :: 0 <= r < row && 0 <= c < width - 1 ==>
            newImage[r, c] == RemoveAt(g[r], s[r])[c]
        {
          if !removed && col == s[row] {
            removed := true;
            continue;
          }
          if !removed {
            if col == width - 1 {
              assert !(0 <= s[row] < |g[row]|);
              return Fail(ColumnOutOfRange);
            }
            newImage[row, col] := g[row][col];
          } else {
            newImage[row, col - 1] := g[row][col];
          }
        }
      }

      resizable := Rows(newImage);
      carved := carved + 1;
      forall r | 0 <= r < height
        ensures resizable[r] == Carve(g, s)[r]
      {
        assert |resizable[r]| == |Carve(g, s)[r]|;
      }
      outcome := Pass;
    }

    /** Computes the seam for the given energy image of the current image and removes it.
        A one-pixel-wide image is refused by the removal step, and an image 2 .. Margin
        columns wide has no column Margin to start from; both leave the image as it was. */
    method RemoveVerticalSeam(energy: Energy) returns (outcome: Outcome)
      requires Valid()
      requires IsGrid(energy) && |energy| == |resizable| && Width(energy) == Width(resizable)
      modifies this
      ensures Valid()
      ensures old(Width(resizable)) == 1 ==> outcome == Fail(AtMinimumWidth)
      ensures 1 < old(Width(resizable)) <= Margin ==> outcome == Fail(OriginOutOfRange)
      ensures outcome.Pass? <==> Margin < old(Width(resizable))
      ensures outcome.Fail? ==> resizable == old(resizable) && carved == old(carved)
      ensures outcome.Pass? ==> SeamInRange(old(resizable), ChosenSeam(energy))
      ensures outcome.Pass? ==>
        resizable == Carve(old(resizable), ChosenSeam(energy)) && carved == old(carved) + 1
    {
      var width := Width(resizable);
      if 1 < width <= Margin {
        return Fail(OriginOutOfRange);
      }
      var seam := FindVerticalSeam(energy);
      outcome := RemoveSeam(Some(seam));
    }
  }
}
