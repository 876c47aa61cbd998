/** Raster images as value types, and the image-library primitives the
    augmentation uses: a blank canvas, crop, paste and resize. */
module Images {
  import opened Outcomes
  import opened Grid

  /** An image `width` pixels wide and `height` pixels high; `rows[y][x]` is
      the pixel in column `x` of row `y`. The pixel type is left abstract. */
  datatype Image<P> = Image(width: nat, height: nat, rows: seq<seq<P>>)
  {
    /** The rows agree with the declared size. */
    predicate Valid() {
      && |rows| == height
      && forall y :: 0 <= y < |rows| ==> |rows[y]| == width
    }

    predicate Contains(x: int, y: int) {
      0 <= x < width && 0 <= y < height
    }

    function At(x: int, y: int): P
      requires Valid() && Contains(x, y)
    {
      rows[y][x]
    }

    predicate SameSize<Q>(other: Image<Q>) {
      width == other.width && height == other.height
    }
  }

  /** Two valid images of one size with the same pixels are the same image. */
  lemma Extensionality<P>(a: Image<P>, b: Image<P>)
    requires a.Valid() && b.Valid() && a.SameSize(b)
    requires forall x, y :: a.Contains(x, y) ==> a.At(x, y) == b.At(x, y)
    ensures a == b
  {
    forall y | 0 <= y < a.height
      ensures a.rows[y] == b.rows[y]
    {
      forall x | 0 <= x < a.width
        ensures a.rows[y][x] == b.rows[y][x]
      {
        assert a.Contains(x, y);
      }
    }
  }

  /** A fresh `width` x `height` image with every pixel `fill` (the image
      library's `Image.new`, whose default fill is black). */
  function Blank<P>(width: nat, height: nat, fill: P): (r: Image<P>)
    ensures r.Valid() && r.width == width && r.height == height
    ensures forall x, y :: r.Contains(x, y) ==> r.At(x, y) == fill
  {
    Image(width, height, seq(height, _ => seq(width, _ => fill)))
  }

  /** The `w` x `h` region whose top-left corner is at (`left`, `upper`); pixels
      outside `img` read as `fill`, as the image library pads an oversized
      crop with black. */
  function Crop<P>(img: Image<P>, left: int, upper: int, w: nat, h: nat, fill: P): (r: Image<P>)
    requires img.Valid()
    ensures r.Valid() && r.width == w && r.height == h
    ensures forall i, j :: r.Contains(i, j) && img.Contains(left + i, upper + j) ==>
      r.At(i, j) == img.At(left + i, upper + j)
    ensures forall i, j :: r.Contains(i, j) && !img.Contains(left + i, upper + j) ==>
      r.At(i, j) == fill
  {
    Image(w, h, seq(h, j requires 0 <= j < h =>
      seq(w, i requires 0 <= i < w =>
        if img.Contains(left + i, upper + j) then img.At(left + i, upper + j) else fill)))
  }

  /** Does `patch`, pasted with its top-left corner at (`x`, `y`), cover (`c`, `r`)? */
  predicate Covers<P>(patch: Image<P>, x: int, y: int, c: int, r: int) {
    x <= c < x + patch.width && y <= r < y + patch.height
  }

  /** `canvas` with `patch` pasted at (`x`, `y`); the part of `patch` that
      falls outside the canvas is dropped. */
  function Paste<P>(canvas: Image<P>, patch: Image<P>, x: int, y: int): (r: Image<P>)
    requires canvas.Valid() && patch.Valid()
    ensures r.Valid() && r.SameSize(canvas)
    ensures forall c, w :: r.Contains(c, w) && Covers(patch, x, y, c, w) ==>
      r.At(c, w) == patch.At(c - x, w - y)
    ensures forall c, w :: r.Contains(c, w) && !Covers(patch, x, y, c, w) ==>
      r.At(c, w) == canvas.At(c, w)
  {
    Image(canvas.width, canvas.height, seq(canvas.height, w requires 0 <= w < canvas.height =>
      seq(canvas.width, c requires 0 <= c < canvas.width =>
        if Covers(patch, x, y, c, w) then patch.At(c - x, w - y) else canvas.At(c, w))))
  }

  /** The image library's resize. Asked for the size the image already has it
      returns a copy; asked for an empty size it refuses. This model also
      refuses to resize an empty image to any other size, a choice of its own
      (the augmentation never asks for it: an empty dimension truncates to an
      empty one). Otherwise the pixels come from `LeftEdgeSample`, a stand-in
      for the library's interpolation filter. */
  function Resize<P>(img: Image<P>, w: nat, h: nat): (r: Result<Image<P>>)
    requires img.Valid()
    ensures r.Ok? ==> r.value.Valid() && r.value.width == w && r.value.height == h
    ensures w == img.width && h == img.height ==> r == Ok(img)
    ensures r.Err? <==>
      (w != img.width || h != img.height) && (w == 0 || h == 0 || img.width == 0 || img.height == 0)
    ensures r.Err? ==> r.failure == ResizeRefused
  {
    if w == img.width && h == img.height then Ok(img)
    else if w == 0 || h == 0 || img.width == 0 || img.height == 0 then Err(ResizeRefused)
    else
      Ok(Image(w, h, seq(h, j requires 0 <= j < h =>
        seq(w, i requires 0 <= i < w =>
          img.At(LeftEdgeSample(i, w, img.width), LeftEdgeSample(j, h, img.height))))))
  }

  /** The coordinate along an axis of `from` pixels under the left edge of
      coordinate `i` along an axis of `to` pixels. This is a stand-in for
      Pillow's resampling filters, not its NEAREST filter, which samples
      pixel centres. */
  function LeftEdgeSample(i: nat, to: nat, from: nat): (r: nat)
    requires i < to && 0 < from
    ensures r < from
  {
    ScaledBelow(i, to, from);
    QuotientBound(i * from, from, to);
    i * from / to
  }

  lemma ScaledBelow(i: nat, to: nat, from: nat)
    requires i < to && 0 < from
    ensures 0 <= i * from < from * to
  {
    MulMonotone(i, to - 1, from);
    assert (to - 1) * from == from * to - from;
  }
}
