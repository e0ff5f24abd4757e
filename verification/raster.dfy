/**
 * Pixel grids and the two image operations the sprite engine borrows from
 * its imaging library: a left-to-right flip and a clipped, masked paste.
 * A grid is a sequence of rows, so `g[i][j]` is the pixel in row `i`
 * (vertical coordinate y) and column `j` (horizontal coordinate x).
 */
module Raster {

  /** One 8-bit colour channel. */
  type Channel = c: int | 0 <= c <= 255

  /** An RGBA pixel. */
  datatype Pixel = Pixel(r: Channel, g: Channel, b: Channel, a: Channel)

  /** A value of a binary, single-channel transparency mask. */
  type MaskValue = m: int | m == 0 || m == 255

  const Transparent: MaskValue := 0
  const Opaque: MaskValue := 255

  type Grid<T> = seq<seq<T>>

  /** `g` has `height` rows of `width` entries each. */
  predicate IsRect<T>(g: Grid<T>, width: nat, height: nat) {
    |g| == height && forall i :: 0 <= i < |g| ==> |g[i]| == width
  }

  /** `a` and `b` have the same number of rows and equally long rows. */
  predicate SameShape<T, U>(a: Grid<T>, b: Grid<U>) {
    |a| == |b| && forall i :: 0 <= i < |a| ==> |a[i]| == |b[i]|
  }

  /** `(si, sj)` names an entry of `g`. */
  predicate InGrid<T>(g: Grid<T>, si: int, sj: int) {
    0 <= si < |g| && 0 <= sj < |g[si]|
  }

  // ---------------------------------------------------------------------
  // Left-to-right flip
  // ---------------------------------------------------------------------

  /** A row read from right to left. */
  function FlipRow<T>(row: seq<T>): (r: seq<T>)
    ensures |r| == |row|
    ensures forall j :: 0 <= j < |row| ==> r[j] == row[|row| - 1 - j]
  {
    if |row| == 0 then [] else FlipRow(row[1..]) + [row[0]]
  }

  /** Every row reversed: the grid mirrored about its vertical axis. */
  function Flip<T>(g: Grid<T>): (r: Grid<T>)
    ensures SameShape(r, g)
    ensures forall i, j :: 0 <= i < |g| && 0 <= j < |g[i]| ==> r[i][j] == g[i][|g[i]| - 1 - j]
  {
    seq(|g|, i requires 0 <= i < |g| => FlipRow(g[i]))
  }

  /** Flipping a row twice gives it back. */
  lemma FlipRowInvolution<T>(row: seq<T>)
    ensures FlipRow(FlipRow(row)) == row
  {
  }

  /** Mirroring is an involution: flipping a grid twice reproduces it exactly. */
  lemma FlipInvolution<T>(g: Grid<T>)
    ensures Flip(Flip(g)) == g
  {
    forall i | 0 <= i < |g|
      ensures Flip(Flip(g))[i] == g[i]
    {
      FlipRowInvolution(g[i]);
    }
  }

  /** Flipping an image and its mask together keeps them the same shape,
      so every mask entry still sits over the pixel it was derived from. */
  lemma FlipKeepsCorrespondence<T, U>(image: Grid<T>, mask: Grid<U>)
    requires SameShape(image, mask)
    ensures SameShape(Flip(image), Flip(mask))
    ensures forall i, j :: InGrid(image, i, j) ==>
      Flip(image)[i][j] == image[i][|image[i]| - 1 - j] && Flip(mask)[i][j] == mask[i][|image[i]| - 1 - j]
  {
  }

  // ---------------------------------------------------------------------
  // Clipped, masked paste
  // ---------------------------------------------------------------------

  /** The destination pixel `d` after a paste, when it lies over source
      position `(si, sj)`: replaced where the source is inside its grid and
      opaque, kept otherwise. */
  function PastePixel(d: Pixel, src: Grid<Pixel>, mask: Grid<MaskValue>, si: int, sj: int): Pixel
    requires SameShape(src, mask)
  {
    if InGrid(src, si, sj) && mask[si][sj] == Opaque then src[si][sj] else d
  }

  /**
   * `src` painted onto `dst` with its top-left corner at column `x`, row `y`,
   * through `mask`. Only the part of `src` that overlaps `dst` is painted.
   */
  function Paste(dst: Grid<Pixel>, src: Grid<Pixel>, mask: Grid<MaskValue>, x: int, y: int): (r: Grid<Pixel>)
    requires SameShape(src, mask)
    ensures SameShape(r, dst)
    ensures forall i, j :: InGrid(dst, i, j) && InGrid(src, i - y, j - x) && mask[i - y][j - x] == Opaque ==>
      r[i][j] == src[i - y][j - x]
    ensures forall i, j :: InGrid(dst, i, j) && !InGrid(src, i - y, j - x) ==> r[i][j] == dst[i][j]
    ensures forall i, j :: InGrid(dst, i, j) && InGrid(src, i - y, j - x) && mask[i - y][j - x] == Transparent ==>
      r[i][j] == dst[i][j]
  {
    seq(|dst|, i requires 0 <= i < |dst| =>
      seq(|dst[i]|, j requires 0 <= j < |dst[i]| => PastePixel(dst[i][j], src, mask, i - y, j - x)))
  }

  /** A mask of the same shape as `g` that is opaque everywhere. */
  function SolidMask<T>(g: Grid<T>): (m: Grid<MaskValue>)
    ensures SameShape(g, m)
    ensures forall i, j :: InGrid(m, i, j) ==> m[i][j] == Opaque
  {
    seq(|g|, i requires 0 <= i < |g| => seq(|g[i]|, j => Opaque))
  }

  /** A paste without a mask: every overlapping pixel is copied. */
  function PasteOpaque(dst: Grid<Pixel>, src: Grid<Pixel>, x: int, y: int): (r: Grid<Pixel>)
    ensures SameShape(r, dst)
    ensures forall i, j :: InGrid(dst, i, j) ==>
      r[i][j] == if InGrid(src, i - y, j - x) then src[i - y][j - x] else dst[i][j]
  {
    Paste(dst, src, SolidMask(src), x, y)
  }

  /** Pasting a same-size image at the origin without a mask replaces the
      whole destination. */
  lemma PasteOpaqueAtOriginReplaces(dst: Grid<Pixel>, src: Grid<Pixel>, width: nat, height: nat)
    requires IsRect(dst, width, height) && IsRect(src, width, height)
    ensures PasteOpaque(dst, src, 0, 0) == src
  {
    var r := PasteOpaque(dst, src, 0, 0);
    forall i | 0 <= i < height
      ensures r[i] == src[i]
    {
      assert forall j :: 0 <= j < width ==> InGrid(src, i, j);
    }
  }

  /** A fully transparent mask leaves the destination unchanged. */
  lemma PasteTransparentIsNoop(dst: Grid<Pixel>, src: Grid<Pixel>, mask: Grid<MaskValue>, x: int, y: int)
    requires SameShape(src, mask)
    requires forall i, j :: InGrid(mask, i, j) ==> mask[i][j] == Transparent
    ensures Paste(dst, src, mask, x, y) == dst
  {
    var r := Paste(dst, src, mask, x, y);
    forall i | 0 <= i < |dst|
      ensures r[i] == dst[i]
    {
      forall j | 0 <= j < |dst[i]|
        ensures r[i][j] == dst[i][j]
      {
        if InGrid(src, i - y, j - x) {
          assert InGrid(mask, i - y, j - x);
        }
      }
    }
  }

  /**
   * The paste as the imaging library performs it: clip the source box to
   * the destination and overwrite, row by row, only the opaque pixels of
   * the clipped box. It computes exactly `Paste`.
   */
  method PasteClipped(dst: Grid<Pixel>, src: Grid<Pixel>, mask: Grid<MaskValue>, x: int, y: int)
    returns (r: Grid<Pixel>)
    requires SameShape(src, mask)
    ensures r == Paste(dst, src, mask, x, y)
  {
    ghost var p := Paste(dst, src, mask, x, y);
    r := dst;
    var top := if y < 0 then 0 else y;
    var bottom := if |dst| < y + |src| then |dst| else y + |src|;
    if bottom < top {
      bottom := top;
    }
    var i := top;
    while i < bottom
      invariant top <= i <= bottom
      invariant SameShape(r, dst)
      invariant forall a, b :: InGrid(dst, a, b) ==> r[a][b] == if a < i then p[a][b] else dst[a][b]
    {
      var si := i - y;
      var row := r[i];
      var left := if x < 0 then 0 else x;
      var right := if |dst[i]| < x + |src[si]| then |dst[i]| else x + |src[si]|;
      if right < left {
        right := left;
      }
      var j := left;
      while j < right
        invariant left <= j <= right
        invariant |row| == |dst[i]|
        invariant forall b :: 0 <= b < |row| ==> row[b] == if b < j then p[i][b] else dst[i][b]
      {
        if mask[si][j - x] == Opaque {
          row := row[j := src[si][j - x]];
        }
        j := j + 1;
      }
      r := r[i := row];
      i := i + 1;
    }
    forall a | 0 <= a < |dst|
      ensures r[a] == p[a]
    {
      if i <= a {
        assert a - y >= |src|;
      }
    }
  }
}
