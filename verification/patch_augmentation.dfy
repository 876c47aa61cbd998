/** The patch augmentation: truncate the image to a whole number of patches,
    cut it into a row-major grid of patches, transform each patch by a random
    ordered choice of transformations, and paste the patches back onto a
    fresh canvas of the truncated size. */
module PatchAugmentation {
  import opened Outcomes
  import opened Images
  import opened Grid
  import opened Selection
  import opened Transforms

  /** What an augmentation is configured with: the patch size, the
      transformations to choose from and how many of them each patch gets. */
  datatype Augmentation<T> = Augmentation(
    patchWidth: int,
    patchHeight: int,
    transformations: seq<T>,
    numTransformations: int)
  {
    /** The count can be sampled from the list without replacement. */
    predicate CountInRange() {
      0 <= numTransformations <= |transformations|
    }
  }

  /** An augmentation over the four default transformations. */
  function NewAugmentation(patchWidth: int, patchHeight: int, numTransformations: int): (r: Augmentation<Transform>)
    ensures r.patchWidth == patchWidth && r.patchHeight == patchHeight
    ensures r.numTransformations == numTransformations
    ensures |r.transformations| == 4 && Distinct(r.transformations)
    ensures r.CountInRange() <==> 0 <= numTransformations <= 4
  {
    DefaultTransformationsDistinct();
    Augmentation(patchWidth, patchHeight, DefaultTransformations, numTransformations)
  }

  /** `resize_image`: each dimension is truncated to a multiple of the patch
      dimension and the image is resized to that size. */
  function ResizeImage<T, P>(aug: Augmentation<T>, img: Image<P>): (r: Result<Image<P>>)
    requires img.Valid()
    ensures r == Err(ZeroDivision) <==> aug.patchWidth == 0 || aug.patchHeight == 0
    ensures r.Err? && aug.patchWidth != 0 && aug.patchHeight != 0 ==> r.failure == ResizeRefused
    ensures r.Ok? ==>
      && r.value.Valid()
      && r.value.width == TruncatedDim(img.width, aug.patchWidth)
      && r.value.height == TruncatedDim(img.height, aug.patchHeight)
    ensures aug.patchWidth != 0 && aug.patchHeight != 0 ==>
      img.width % aug.patchWidth == 0 && img.height % aug.patchHeight == 0 ==> r == Ok(img)
  {
    if aug.patchWidth == 0 || aug.patchHeight == 0 then Err(ZeroDivision)
    else Resize(img, TruncatedDim(img.width, aug.patchWidth), TruncatedDim(img.height, aug.patchHeight))
  }

  /** `apply_random_transformations`: the chosen transformations, in the
      chosen order, applied to a copy of the patch. */
  function TransformPatch<T, P>(aug: Augmentation<T>, effect: Effect<T, P>, draws: seq<nat>, patch: Image<P>): (r: Result<Image<P>>)
    ensures r.Ok? <==> aug.CountInRange()
    ensures r.Err? ==> r.failure == SampleOutOfRange
    ensures r.Ok? ==> r.value.SameSize(patch) && (patch.Valid() ==> r.value.Valid())
    ensures r.Ok? && aug.numTransformations == 0 ==> r.value == patch
    ensures r.Ok? ==>
      var chosen := Choose(aug.transformations, aug.numTransformations, draws);
      chosen.Ok? && r.value == Compose(effect, chosen.value, patch)
  {
    match Choose(aug.transformations, aug.numTransformations, draws)
    case Err(e) => Err(e)
    case Ok(ts) => Ok(Compose(effect, ts, patch))
  }

  /** A transformed patch is the composition, in some order, of
      `numTransformations` items of the list, distinct when the list is. */
  lemma TransformPatchSelection<T(!new), P>(aug: Augmentation<T>, effect: Effect<T, P>, draws: seq<nat>, patch: Image<P>)
    requires TransformPatch(aug, effect, draws, patch).Ok?
    ensures exists ts ::
      && |ts| == aug.numTransformations
      && (forall i :: 0 <= i < |ts| ==> ts[i] in aug.transformations)
      && (Distinct(aug.transformations) ==> Distinct(ts))
      && TransformPatch(aug, effect, draws, patch).value == Compose(effect, ts, patch)
  {
    var ts := Choose(aug.transformations, aug.numTransformations, draws).value;
    assert TransformPatch(aug, effect, draws, patch).value == Compose(effect, ts, patch);
  }

  /** With the four default transformations, a count from 0 to 4 gives
      every patch that many different transformations, applied in some order. */
  lemma DefaultTransformPatch<P>(patchWidth: int, patchHeight: int, k: int, effect: Effect<Transform, P>,
                                 draws: seq<nat>, patch: Image<P>)
    requires 0 <= k <= 4
    ensures var r := TransformPatch(NewAugmentation(patchWidth, patchHeight, k), effect, draws, patch);
      && r.Ok?
      && exists ts ::
        && |ts| == k && Distinct(ts)
        && (forall i :: 0 <= i < |ts| ==> ts[i] in DefaultTransformations)
        && r.value == Compose(effect, ts, patch)
  {
    var aug := NewAugmentation(patchWidth, patchHeight, k);
    assert aug.transformations == DefaultTransformations && Distinct(aug.transformations);
    TransformPatchSelection(aug, effect, draws, patch);
  }

  /** The patch of `source` at `origin`, cropped and transformed. */
  function CropAndTransform<T, P>(aug: Augmentation<T>, source: Image<P>, origin: (int, int), pw: nat, ph: nat,
                                  effect: Effect<T, P>, draws: seq<nat>, black: P): (r: Result<Image<P>>)
    requires source.Valid()
    ensures r.Ok? <==> aug.CountInRange()
    ensures r.Err? ==> r.failure == SampleOutOfRange
    ensures r.Ok? ==> r.value.Valid() && r.value.width == pw && r.value.height == ph
  {
    TransformPatch(aug, effect, draws, Crop(source, origin.0, origin.1, pw, ph, black))
  }

  /** `image_to_patches`: one transformed patch per origin of the
      `width` x `height` grid, in row-major order, each cropped from `source`;
      patch number `i` uses the draws `draws(i)`. A zero patch dimension is a
      zero `range` step; a negative one leaves the grid empty. */
  function Partition<T, P>(aug: Augmentation<T>, source: Image<P>, width: nat, height: nat,
                           effect: Effect<T, P>, draws: nat -> seq<nat>, black: P)
    : (r: Result<seq<Image<P>>>)
    requires source.Valid()
    ensures aug.patchHeight == 0 ==> r == Err(ZeroRangeStep)
    ensures aug.patchHeight > 0 && aug.patchWidth == 0 ==>
      && (height > 0 ==> r == Err(ZeroRangeStep))
      && (height == 0 ==> r == Ok([]))
    ensures aug.patchHeight < 0 || (aug.patchWidth < 0 && aug.patchHeight != 0) ==> r == Ok([])
    ensures aug.patchWidth > 0 && aug.patchHeight > 0 ==>
      var origins := PatchOrigins(width, height, aug.patchWidth, aug.patchHeight);
      && (r.Ok? <==> |origins| == 0 || aug.CountInRange())
      && (r.Err? ==> r.failure == SampleOutOfRange)
      && (r.Ok? ==> |r.value| == |origins|)
      && (r.Ok? ==> forall i :: 0 <= i < |origins| ==>
            CropAndTransform(aug, source, origins[i], aug.patchWidth, aug.patchHeight, effect, draws(i), black)
              == Ok(r.value[i]))
    ensures r.Ok? ==> forall i :: 0 <= i < |r.value| ==>
      r.value[i].Valid() && r.value[i].width == aug.patchWidth && r.value[i].height == aug.patchHeight
  {
    var pw, ph := aug.patchWidth, aug.patchHeight;
    if ph == 0 then Err(ZeroRangeStep)
    else if ph < 0 then Ok([])
    else if pw == 0 then (if height > 0 then Err(ZeroRangeStep) else Ok([]))
    else if pw < 0 then Ok([])
    else
      var origins := PatchOrigins(width, height, pw, ph);
      // Collect asks only for indices below |origins|; the else branch just keeps `cut` total.
      var cut := (i: nat) =>
        if i < |origins| then CropAndTransform(aug, source, origins[i], pw, ph, effect, draws(i), black)
        else Err(SampleOutOfRange);
      assert forall i: nat :: i < |origins| ==> cut(i) == CropAndTransform(aug, source, origins[i], pw, ph, effect, draws(i), black);
      Collect(cut, |origins|)
  }

  /** The first `n` patches pasted in index order, patch `i` at the offset
      `(i % cols * pw, i // cols * ph)`. */
  function PasteAll<P>(canvas: Image<P>, patches: seq<Image<P>>, cols: int, pw: int, ph: int, n: nat): (r: Image<P>)
    requires canvas.Valid() && n <= |patches| && (n == 0 || cols != 0)
    requires forall i :: 0 <= i < |patches| ==> patches[i].Valid()
    ensures r.Valid() && r.SameSize(canvas)
  {
    if n == 0 then canvas
    else
      var (x, y) := CellOrigin(n - 1, cols, pw, ph);
      Paste(PasteAll(canvas, patches, cols, pw, ph, n - 1), patches[n - 1], x, y)
  }

  /** `patches_to_image`, reading each patch as the image it is: a fresh
      black `width` x `height` canvas with every patch pasted at the offset of
      its index. `height // ph` and `width // pw` are taken first; the column
      count is then a divisor for every patch index. */
  function Reassemble<T, P>(aug: Augmentation<T>, patches: seq<Image<P>>, width: nat, height: nat, black: P)
    : (r: Result<Image<P>>)
    requires forall i :: 0 <= i < |patches| ==> patches[i].Valid()
    ensures r.Err? <==>
      || aug.patchWidth == 0 || aug.patchHeight == 0
      || (|patches| > 0 && FloorDiv(width, aug.patchWidth) == 0)
    ensures r.Err? ==> r.failure == ZeroDivision
    ensures r.Ok? ==> r.value.Valid() && r.value.width == width && r.value.height == height
  {
    if aug.patchHeight == 0 || aug.patchWidth == 0 then Err(ZeroDivision)
    else
      var cols := FloorDiv(width, aug.patchWidth);
      if |patches| > 0 && cols == 0 then Err(ZeroDivision)
      else Ok(PasteAll(Blank(width, height, black), patches, cols, aug.patchWidth, aug.patchHeight, |patches|))
  }

  /** `patches_to_image` as written: each element of the patch list is
      unpacked as a `(patch, rv)` pair, which an image is not, so the first
      patch raises. */
  function ReassembleAsWritten<T, P>(aug: Augmentation<T>, patches: seq<Image<P>>, width: nat, height: nat, black: P)
    : (r: Result<Image<P>>)
    ensures r.Ok? <==> aug.patchWidth != 0 && aug.patchHeight != 0 && |patches| == 0
    ensures r.Ok? ==> r.value == Blank(width, height, black)
  {
    if aug.patchHeight == 0 || aug.patchWidth == 0 then Err(ZeroDivision)
    else if |patches| > 0 then Err(CannotUnpack)
    else Ok(Blank(width, height, black))
  }

  /** The augmentation of `img` (`__call__`), with the patches cropped from
      the resized image and reassembled as images. */
  function Augment<T, P>(aug: Augmentation<T>, img: Image<P>, effect: Effect<T, P>, draws: nat -> seq<nat>, black: P)
    : (r: Result<Image<P>>)
    requires img.Valid()
    ensures r.Ok? ==>
      && r.value.Valid()
      && aug.patchWidth != 0 && aug.patchHeight != 0
      && r.value.width == TruncatedDim(img.width, aug.patchWidth)
      && r.value.height == TruncatedDim(img.height, aug.patchHeight)
  {
    match ResizeImage(aug, img)
    case Err(e) => Err(e)
    case Ok(resized) =>
      match Partition(aug, resized, resized.width, resized.height, effect, draws, black)
      case Err(e) => Err(e)
      case Ok(patches) => Reassemble(aug, patches, resized.width, resized.height, black)
  }

  /** The augmentation exactly as the code is written: the grid comes from the
      resized size, but the patches are cropped from the original image, and
      the reassembly unpacks each patch as a pair. */
  function AugmentAsWritten<T, P>(aug: Augmentation<T>, img: Image<P>, effect: Effect<T, P>, draws: nat -> seq<nat>, black: P)
    : (r: Result<Image<P>>)
    requires img.Valid()
    ensures r.Ok? ==>
      && aug.patchWidth != 0 && aug.patchHeight != 0
      && r.value == Blank(TruncatedDim(img.width, aug.patchWidth), TruncatedDim(img.height, aug.patchHeight), black)
  {
    match ResizeImage(aug, img)
    case Err(e) => Err(e)
    case Ok(resized) =>
      match Partition(aug, img, resized.width, resized.height, effect, draws, black)
      case Err(e) => Err(e)
      case Ok(patches) => ReassembleAsWritten(aug, patches, resized.width, resized.height, black)
  }
}
