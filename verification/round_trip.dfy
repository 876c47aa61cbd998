/** What the partition and the reassembly promise together: every crop is in
    bounds, the pasted cells tile the canvas, and with transformations that
    change nothing the augmentation gives back the resized image. */
module RoundTrip {
  import opened Outcomes
  import opened Images
  import opened Grid
  import opened Selection
  import opened Transforms
  import opened PatchAugmentation

  /** Are `patches` all valid `pw` x `ph` images? */
  ghost predicate GridPatches<P>(patches: seq<Image<P>>, pw: nat, ph: nat) {
    forall i :: 0 <= i < |patches| ==>
      patches[i].Valid() && patches[i].width == pw && patches[i].height == ph
  }

  /** After the first `n` patches are pasted, a canvas pixel shows its own
      cell's patch, at the offset inside the cell, if that patch was pasted
      already, and the canvas otherwise: later pastes never overwrite earlier
      ones. */
  lemma {:induction false} PasteAllPixel<P>(canvas: Image<P>, patches: seq<Image<P>>, cols: nat, pw: nat, ph: nat,
                                           n: nat, x: nat, y: nat)
    requires pw > 0 && ph > 0 && cols > 0 && n <= |patches|
    requires GridPatches(patches, pw, ph)
    requires canvas.Valid() && canvas.width == cols * pw && canvas.Contains(x, y)
    ensures CellIndex(x, y, cols, pw, ph) < n ==>
      PasteAll(canvas, patches, cols, pw, ph, n).At(x, y)
        == patches[CellIndex(x, y, cols, pw, ph)].At(x % pw, y % ph)
    ensures CellIndex(x, y, cols, pw, ph) >= n ==>
      PasteAll(canvas, patches, cols, pw, ph, n).At(x, y) == canvas.At(x, y)
  {
    if n > 0 {
      var c := CellIndex(x, y, cols, pw, ph);
      var prev := PasteAll(canvas, patches, cols, pw, ph, n - 1);
      PasteAllPixel(canvas, patches, cols, pw, ph, n - 1, x, y);
      var (ox, oy) := CellOrigin(n - 1, cols, pw, ph);
      CellMembership(n - 1, cols, pw, ph, x, y);
      assert Covers(patches[n - 1], ox, oy, x, y) <==> c == n - 1;
      if c == n - 1 {
        CellOffset(x, y, cols, pw, ph);
      }
    }
  }

  /** `Reassemble` of a full grid of `rows * cols` patches on a
      `cols * pw` x `rows * ph` canvas: every pixel comes from the patch of its
      cell, at its offset inside the cell. */
  lemma ReassemblePixels<T, P>(aug: Augmentation<T>, patches: seq<Image<P>>, rows: nat, cols: nat, black: P)
    requires aug.patchWidth > 0 && aug.patchHeight > 0 && cols > 0
    requires |patches| == rows * cols && GridPatches(patches, aug.patchWidth, aug.patchHeight)
    ensures Reassemble(aug, patches, cols * aug.patchWidth, rows * aug.patchHeight, black).Ok?
    ensures var out := Reassemble(aug, patches, cols * aug.patchWidth, rows * aug.patchHeight, black).value;
      forall x: nat, y: nat :: out.Contains(x, y) ==>
        && CellIndex(x, y, cols, aug.patchWidth, aug.patchHeight) < |patches|
        && out.At(x, y) == patches[CellIndex(x, y, cols, aug.patchWidth, aug.patchHeight)]
                             .At(x % aug.patchWidth, y % aug.patchHeight)
  {
    var pw, ph := aug.patchWidth, aug.patchHeight;
    var width, height := cols * pw, rows * ph;
    DivModOfCombination(cols, 0, pw);
    FloorAgreesForPositive(width, pw);
    var canvas := Blank(width, height, black);
    var out := Reassemble(aug, patches, width, height, black).value;
    assert out == PasteAll(canvas, patches, cols, pw, ph, |patches|);
    forall x: nat, y: nat | out.Contains(x, y)
      ensures CellIndex(x, y, cols, pw, ph) < |patches|
      ensures out.At(x, y) == patches[CellIndex(x, y, cols, pw, ph)].At(x % pw, y % ph)
    {
      CellIndexInRange(x, y, rows, cols, pw, ph);
      PasteAllPixel(canvas, patches, cols, pw, ph, |patches|, x, y);
    }
  }

  /** A patch transformed with no transformations, or with transformations
      that change nothing, is the patch itself. */
  lemma TransformPatchUnchanged<T(!new), P(!new)>(aug: Augmentation<T>, effect: Effect<T, P>, draws: seq<nat>, patch: Image<P>)
    requires patch.Valid()
    requires aug.numTransformations == 0 || (IsIdentity(effect) && aug.CountInRange())
    ensures TransformPatch(aug, effect, draws, patch) == Ok(patch)
  {
    if aug.numTransformations != 0 {
      var ts := Choose(aug.transformations, aug.numTransformations, draws).value;
      ComposeIdentity(effect, ts, patch);
    }
  }

  /** On an aligned grid with unchanged patches, patch `i` of the partition
      is the crop of `source` at the reassembly's offset for `i`. */
  lemma PatchIsCrop<T(!new), P(!new)>(aug: Augmentation<T>, source: Image<P>, width: nat, height: nat,
                                      effect: Effect<T, P>, draws: nat -> seq<nat>, black: P, i: nat)
    requires aug.patchWidth > 0 && aug.patchHeight > 0
    requires width % aug.patchWidth == 0 && height % aug.patchHeight == 0 && source.Valid()
    requires aug.numTransformations == 0 || (IsIdentity(effect) && aug.CountInRange())
    requires i < (height / aug.patchHeight) * (width / aug.patchWidth)
    ensures width / aug.patchWidth > 0
    ensures Partition(aug, source, width, height, effect, draws, black).Ok?
    ensures i < |Partition(aug, source, width, height, effect, draws, black).value|
    ensures var (ox, oy) := CellOrigin(i, width / aug.patchWidth, aug.patchWidth, aug.patchHeight);
      Partition(aug, source, width, height, effect, draws, black).value[i]
        == Crop(source, ox, oy, aug.patchWidth, aug.patchHeight, black)
  {
    var pw, ph := aug.patchWidth, aug.patchHeight;
    var origins := PatchOrigins(width, height, pw, ph);
    PartitionMatchesReassembly(width, height, pw, ph, i);
    var patches := Partition(aug, source, width, height, effect, draws, black).value;
    var cropped := Crop(source, origins[i].0, origins[i].1, pw, ph, black);
    assert CropAndTransform(aug, source, origins[i], pw, ph, effect, draws(i), black) == Ok(patches[i]);
    TransformPatchUnchanged(aug, effect, draws(i), cropped);
  }

  /** The crop at a pixel's cell, read at the pixel's offset inside the cell,
      is that pixel of the source. */
  lemma CropAtCell<P>(source: Image<P>, x: nat, y: nat, cols: nat, pw: nat, ph: nat, black: P)
    requires pw > 0 && ph > 0 && x < cols * pw && source.Valid() && source.Contains(x, y)
    ensures cols > 0
    ensures var (ox, oy) := CellOrigin(CellIndex(x, y, cols, pw, ph), cols, pw, ph);
      Crop(source, ox, oy, pw, ph, black).At(x % pw, y % ph) == source.At(x, y)
  {
    CellOffset(x, y, cols, pw, ph);
  }

  /** Cutting an aligned `width` x `height` grid out of `source` and pasting
      the unchanged patches back reproduces the top-left `width` x `height`
      region of `source`, pixel for pixel. */
  lemma ReassemblePartition<T(!new), P(!new)>(aug: Augmentation<T>, source: Image<P>, width: nat, height: nat,
                                              effect: Effect<T, P>, draws: nat -> seq<nat>, black: P)
    requires aug.patchWidth > 0 && aug.patchHeight > 0
    requires width % aug.patchWidth == 0 && height % aug.patchHeight == 0
    requires source.Valid() && width <= source.width && height <= source.height
    requires aug.numTransformations == 0 || (IsIdentity(effect) && aug.CountInRange())
    ensures Partition(aug, source, width, height, effect, draws, black).Ok?
    ensures Reassemble(aug, Partition(aug, source, width, height, effect, draws, black).value, width, height, black)
      == Ok(Crop(source, 0, 0, width, height, black))
  {
    var pw, ph := aug.patchWidth, aug.patchHeight;
    var rows, cols := height / ph, width / pw;
    PartitionMatchesReassembly(width, height, pw, ph, 0);
    var patches := Partition(aug, source, width, height, effect, draws, black).value;
    var expected := Crop(source, 0, 0, width, height, black);
    DivMod(width, pw);
    DivMod(height, ph);
    assert width == cols * pw && height == rows * ph;
    if cols == 0 || rows == 0 {
      EmptyGridReassembly(aug, patches, width, height, black);
      Extensionality(Reassemble(aug, patches, width, height, black).value, expected);
    } else {
      ReassemblePixels(aug, patches, rows, cols, black);
      var out := Reassemble(aug, patches, width, height, black).value;
      forall x: nat, y: nat | out.Contains(x, y)
        ensures out.At(x, y) == expected.At(x, y)
      {
        var c := CellIndex(x, y, cols, pw, ph);
        PatchIsCrop(aug, source, width, height, effect, draws, black, c);
        CropAtCell(source, x, y, cols, pw, ph, black);
      }
      Extensionality(out, expected);
    }
  }

  /** With no patches the reassembly is the blank canvas. */
  lemma EmptyGridReassembly<T, P>(aug: Augmentation<T>, patches: seq<Image<P>>, width: nat, height: nat, black: P)
    requires aug.patchWidth != 0 && aug.patchHeight != 0 && |patches| == 0
    ensures Reassemble(aug, patches, width, height, black) == Ok(Blank(width, height, black))
  {
  }

  /** The cells of the reassembly tile its canvas: each pixel lies in the cell
      of exactly one patch index, and that index is below `rows * cols`. */
  lemma CellsTile(rows: nat, cols: nat, pw: nat, ph: nat, x: nat, y: nat)
    requires pw > 0 && ph > 0 && x < cols * pw && y < rows * ph
    ensures cols > 0
    ensures CellIndex(x, y, cols, pw, ph) < rows * cols
    ensures InCell(CellIndex(x, y, cols, pw, ph), cols, pw, ph, x, y)
    ensures forall i: nat :: InCell(i, cols, pw, ph, x, y) ==> i == CellIndex(x, y, cols, pw, ph)
  {
    QuotientBound(x, cols, pw);
    CellIndexInRange(x, y, rows, cols, pw, ph);
    CellMembership(CellIndex(x, y, cols, pw, ph), cols, pw, ph, x, y);
    forall i: nat | InCell(i, cols, pw, ph, x, y)
      ensures i == CellIndex(x, y, cols, pw, ph)
    {
      CellMembership(i, cols, pw, ph, x, y);
    }
  }

  /** Every rectangle the partition loop crops lies inside the resized size,
      and so inside the original image it is cropped from. */
  lemma CropsInBounds<T, P>(aug: Augmentation<T>, img: Image<P>, k: nat)
    requires aug.patchWidth > 0 && aug.patchHeight > 0 && img.Valid()
    requires k < |PatchOrigins(TruncatedDim(img.width, aug.patchWidth), TruncatedDim(img.height, aug.patchHeight),
                               aug.patchWidth, aug.patchHeight)|
    ensures var width, height := TruncatedDim(img.width, aug.patchWidth), TruncatedDim(img.height, aug.patchHeight);
      var (x, y) := PatchOrigins(width, height, aug.patchWidth, aug.patchHeight)[k];
      && 0 <= x && x + aug.patchWidth <= width <= img.width
      && 0 <= y && y + aug.patchHeight <= height <= img.height
  {
    var pw, ph := aug.patchWidth, aug.patchHeight;
    var width, height := TruncatedDim(img.width, pw), TruncatedDim(img.height, ph);
    PartitionMatchesReassembly(width, height, pw, ph, k);
    DivMod(width, pw);
    DivMod(height, ph);
    CellInsideCanvas(k, height / ph, width / pw, pw, ph);
  }

  /** With unchanged patches the augmentation returns the resized image. */
  lemma RoundTrip<T(!new), P(!new)>(aug: Augmentation<T>, img: Image<P>, effect: Effect<T, P>, draws: nat -> seq<nat>, black: P)
    requires img.Valid() && aug.patchWidth > 0 && aug.patchHeight > 0
    requires ResizeImage(aug, img).Ok?
    requires aug.numTransformations == 0 || (IsIdentity(effect) && aug.CountInRange())
    ensures Augment(aug, img, effect, draws, black) == ResizeImage(aug, img)
  {
    var resized := ResizeImage(aug, img).value;
    ReassemblePartition(aug, resized, resized.width, resized.height, effect, draws, black);
    Extensionality(Crop(resized, 0, 0, resized.width, resized.height, black), resized);
  }

  /** When both dimensions are already whole numbers of patches nothing is
      truncated, and with unchanged patches the augmentation returns its input. */
  lemma AlignedRoundTrip<T(!new), P(!new)>(aug: Augmentation<T>, img: Image<P>, effect: Effect<T, P>,
                                           draws: nat -> seq<nat>, black: P)
    requires img.Valid() && aug.patchWidth > 0 && aug.patchHeight > 0
    requires img.width % aug.patchWidth == 0 && img.height % aug.patchHeight == 0
    requires aug.numTransformations == 0 || (IsIdentity(effect) && aug.CountInRange())
    ensures Augment(aug, img, effect, draws, black) == Ok(img)
  {
    RoundTrip(aug, img, effect, draws, black);
  }

  /** How the augmentation ends: a zero patch dimension divides by zero; a
      resize to an empty size is refused; an aligned, non-empty grid needs a
      transformation count the list can supply; a negative patch dimension
      leaves the grid empty and the output blank. Otherwise the output has the
      truncated size. */
  lemma AugmentOutcome<T, P>(aug: Augmentation<T>, img: Image<P>, effect: Effect<T, P>, draws: nat -> seq<nat>, black: P)
    requires img.Valid()
    ensures aug.patchWidth == 0 || aug.patchHeight == 0 ==> Augment(aug, img, effect, draws, black) == Err(ZeroDivision)
    ensures aug.patchWidth != 0 && aug.patchHeight != 0 && ResizeImage(aug, img).Err? ==>
      Augment(aug, img, effect, draws, black) == Err(ResizeRefused)
    ensures aug.patchWidth > 0 && aug.patchHeight > 0 ==>
      var width, height := TruncatedDim(img.width, aug.patchWidth), TruncatedDim(img.height, aug.patchHeight);
      && (ResizeImage(aug, img).Err? <==>
            (width != img.width || height != img.height) && (width == 0 || height == 0))
      && (ResizeImage(aug, img).Ok? ==>
            && (Augment(aug, img, effect, draws, black).Ok? <==> aug.CountInRange() || width == 0 || height == 0)
            && (Augment(aug, img, effect, draws, black).Err? ==>
                  Augment(aug, img, effect, draws, black).failure == SampleOutOfRange))
    ensures aug.patchWidth != 0 && aug.patchHeight != 0 && (aug.patchWidth < 0 || aug.patchHeight < 0) ==>
      ResizeImage(aug, img).Ok? ==>
        Augment(aug, img, effect, draws, black)
          == Ok(Blank(ResizeImage(aug, img).value.width, ResizeImage(aug, img).value.height, black))
  {
    var pw, ph := aug.patchWidth, aug.patchHeight;
    if pw > 0 && ph > 0 && ResizeImage(aug, img).Ok? {
      var resized := ResizeImage(aug, img).value;
      var width, height := resized.width, resized.height;
      var rows, cols := height / ph, width / pw;
      PartitionMatchesReassembly(width, height, pw, ph, 0);
      DivMod(width, pw);
      DivMod(height, ph);
      assert width == cols * pw && height == rows * ph;
      assert rows * cols == 0 <==> width == 0 || height == 0 by {
        if rows > 0 && cols > 0 { MulMonotone(1, rows, cols); }
      }
      FloorAgreesForPositive(width, pw);
    }
  }

  /** The pair unpacking in the reassembly as written: whenever the grid has
      a patch and the sampling succeeds, the augmentation as written raises,
      while the augmentation that reads each patch as an image succeeds. */
  lemma UnpackFails<T, P>(aug: Augmentation<T>, img: Image<P>, effect: Effect<T, P>, draws: nat -> seq<nat>, black: P)
    requires img.Valid() && aug.patchWidth > 0 && aug.patchHeight > 0 && aug.CountInRange()
    requires img.width >= aug.patchWidth && img.height >= aug.patchHeight
    ensures AugmentAsWritten(aug, img, effect, draws, black) == Err(CannotUnpack)
    ensures Augment(aug, img, effect, draws, black).Ok?
  {
    var pw, ph := aug.patchWidth, aug.patchHeight;
    var width, height := TruncatedDim(img.width, pw), TruncatedDim(img.height, ph);
    assert width > 0 && height > 0;
    AugmentOutcome(aug, img, effect, draws, black);
    var resized := ResizeImage(aug, img).value;
    assert resized.width == width && resized.height == height;
    NonEmptyGrid(width, height, pw, ph);
    var parts := Partition(aug, img, width, height, effect, draws, black);
    assert parts.Ok? && |parts.value| > 0;
    assert AugmentAsWritten(aug, img, effect, draws, black)
      == ReassembleAsWritten(aug, parts.value, width, height, black);
  }

  /** A grid at least one patch wide and high has a patch. */
  lemma NonEmptyGrid(width: nat, height: nat, pw: int, ph: int)
    requires pw > 0 && ph > 0 && width % pw == 0 && height % ph == 0 && width > 0 && height > 0
    ensures |PatchOrigins(width, height, pw, ph)| > 0
  {
    PartitionMatchesReassembly(width, height, pw, ph, 0);
    DivMod(width, pw);
    DivMod(height, ph);
    MulMonotone(1, height / ph, width / pw);
  }

  /** The crop source as written: patches cropped from the original image
      along the resized grid reassemble into the original's top-left region,
      whatever the resize produced. */
  lemma OriginalCropOutput<T(!new), P(!new)>(aug: Augmentation<T>, img: Image<P>, effect: Effect<T, P>,
                                             draws: nat -> seq<nat>, black: P)
    requires img.Valid() && aug.patchWidth > 0 && aug.patchHeight > 0
    requires aug.numTransformations == 0 || (IsIdentity(effect) && aug.CountInRange())
    ensures var width, height := TruncatedDim(img.width, aug.patchWidth), TruncatedDim(img.height, aug.patchHeight);
      && Partition(aug, img, width, height, effect, draws, black).Ok?
      && Reassemble(aug, Partition(aug, img, width, height, effect, draws, black).value, width, height, black)
           == Ok(Crop(img, 0, 0, width, height, black))
  {
    var width, height := TruncatedDim(img.width, aug.patchWidth), TruncatedDim(img.height, aug.patchHeight);
    ReassemblePartition(aug, img, width, height, effect, draws, black);
  }

  /** Pixel (`x`, `y`) of the first patch, left unchanged, is that pixel of the source. */
  lemma FirstPatchPixel<T(!new), P(!new)>(aug: Augmentation<T>, source: Image<P>, width: nat, height: nat,
                                          effect: Effect<T, P>, draws: nat -> seq<nat>, black: P, x: nat, y: nat)
    requires aug.patchWidth > 0 && aug.patchHeight > 0
    requires width % aug.patchWidth == 0 && height % aug.patchHeight == 0 && source.Valid()
    requires aug.numTransformations == 0 || (IsIdentity(effect) && aug.CountInRange())
    requires x < aug.patchWidth <= width && y < aug.patchHeight <= height && source.Contains(x, y)
    ensures Partition(aug, source, width, height, effect, draws, black).Ok?
    ensures |Partition(aug, source, width, height, effect, draws, black).value| > 0
    ensures Partition(aug, source, width, height, effect, draws, black).value[0].Contains(x, y)
    ensures Partition(aug, source, width, height, effect, draws, black).value[0].At(x, y) == source.At(x, y)
  {
    var pw, ph := aug.patchWidth, aug.patchHeight;
    var cols := width / pw;
    GridNotEmpty(width, height, pw, ph);
    PatchIsCrop(aug, source, width, height, effect, draws, black, 0);
    FloorAgreesForPositive(0, cols);
    assert CellOrigin(0, cols, pw, ph) == (0, 0);
    CropFromOrigin(source, pw, ph, black, x, y);
  }

  lemma GridNotEmpty(width: nat, height: nat, pw: int, ph: int)
    requires 0 < pw <= width && 0 < ph <= height
    ensures 0 < (height / ph) * (width / pw)
  {
    DivMod(width, pw);
    DivMod(height, ph);
    MulMonotone(1, height / ph, width / pw);
  }

  lemma CropFromOrigin<P>(source: Image<P>, w: nat, h: nat, black: P, x: nat, y: nat)
    requires source.Valid() && source.Contains(x, y) && x < w && y < h
    ensures Crop(source, 0, 0, w, h, black).Contains(x, y)
    ensures Crop(source, 0, 0, w, h, black).At(x, y) == source.At(x, y)
  {
    assert source.Contains(0 + x, 0 + y);
  }

  /** A five-pixel row cut into patches three pixels wide: the resized row is
      `[0, 1, 3]`, but the patch cropped from the original is `[0, 1, 2]`. */
  lemma CropSourceCounterexample(aug: Augmentation<Transform>, img: Image<int>,
                                 effect: Effect<Transform, int>, draws: nat -> seq<nat>)
    requires aug == NewAugmentation(3, 1, 0) && img == Image(5, 1, [[0, 1, 2, 3, 4]])
    ensures ResizeImage(aug, img).Ok?
    ensures var resized := ResizeImage(aug, img).value;
      && Partition(aug, img, resized.width, resized.height, effect, draws, 0).Ok?
      && Partition(aug, resized, resized.width, resized.height, effect, draws, 0).Ok?
      && Partition(aug, img, resized.width, resized.height, effect, draws, 0).value
           != Partition(aug, resized, resized.width, resized.height, effect, draws, 0).value
  {
    var resized := ResizedRow(aug, img);
    var width, height := resized.width, resized.height;
    assert img.Valid() && img.Contains(2, 0) && img.At(2, 0) == 2;
    FirstPatchPixel(aug, img, width, height, effect, draws, 0, 2, 0);
    FirstPatchPixel(aug, resized, width, height, effect, draws, 0, 2, 0);
  }

  /** The resize of the five-pixel row to three pixels. */
  lemma ResizedRow(aug: Augmentation<Transform>, img: Image<int>) returns (resized: Image<int>)
    requires aug == NewAugmentation(3, 1, 0) && img == Image(5, 1, [[0, 1, 2, 3, 4]])
    ensures ResizeImage(aug, img) == Ok(resized)
    ensures resized.Valid() && resized.width == 3 && resized.height == 1 && resized.At(2, 0) == 3
  {
    assert img.Valid();
    assert TruncatedDim(5, 3) == 3 && TruncatedDim(1, 1) == 1;
    resized := Resize(img, 3, 1).value;
    assert LeftEdgeSample(2, 3, 5) == 3 && LeftEdgeSample(0, 1, 1) == 0;
  }
}
