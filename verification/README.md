# Patch augmentation, modelled in Dafny

`PatchAugmentation` (image_to_patches.py) is an image augmentation. It does four things in order:

1. It truncates each dimension of the image to a whole number of patches and resizes the image to that size.
2. It walks the grid in row-major order and crops one patch per cell.
3. It transforms each patch with a random ordered choice of `num_transformations` distinct photometric transformations.
4. It pastes patch `i` onto a fresh black canvas at `(i % cols * pw, i // cols * ph)`.

The model follows the code's own control flow and its Python semantics:

- `//` and `%` are floor division. `FloorDiv` and `FloorMod` write them out for negative operands.
- A zero patch dimension fails where Python fails. `range(0, n, 0)` gives `ZeroRangeStep`; `//` and `%` by zero give `ZeroDivision`.
- A negative patch dimension makes an empty grid. When the resize succeeds, the augmentation returns a blank canvas, whose side along that dimension is rounded up to a multiple of it (5 pixels with -3 gives 6). When the other dimension truncates to zero, the resize is refused instead.
- `random.sample` with a count outside `[0, len]` fails with `SampleOutOfRange`. This only happens when a patch is actually transformed.

Modules, one file each:

- `Outcomes` (outcomes.dfy): the failures Python or Pillow raise, a `Result` type, and `Collect`, which is a loop that stops at the first failing step.
- `Images` (images.dfy): an image is its width, its height and its rows of pixels. The pixel type is generic. `black` stands for Pillow's zero fill. This module defines crop (padded with the fill outside the source), paste (clipped to the canvas) and resize.
- `Grid` (grid.dfy): Python's floor division, the truncation, `range`, the row-major grid of patch origins, and the reassembly's index-to-offset map.
- `Selection` (selection.dfy): `random.sample` followed by `random.shuffle`, as a choice of distinct positions driven by a sequence of draws.
- `Transforms` (transforms.dfy): the four configured transformations and their composition. A transformation's pixel arithmetic is a parameter `effect`.
- `PatchAugmentation` (patch_augmentation.dfy): the four methods of the class and `__call__`.
- `RoundTrip` (round_trip.dfy): what partition and reassembly promise together, and the two discrepancies listed under Findings.

Randomness is a parameter. Patch number `i` consumes the draws `draws(i)`, and each draw picks one of the remaining items (`draw % remaining`). `Selection.Sample` is sound: it always gives `k` distinct positions below `n`. It is also complete: every such selection comes out for some draws.

Bad configurations fail in different ways, and the model follows the code in each:

- A zero patch size raises Python's own errors.
- A negative patch size silently produces a blank image, unless the other dimension truncates to zero and the resize is refused.
- A grid that collapses to zero size fails only through Pillow's refusal to resize.
- An out-of-range transformation count fails only when there is a patch to transform. With an empty grid it does not fail at all.

## Model

| member | source | states |
|---|---|---|
| Grid.FloorDiv | image_to_patches.py:26-27 | Python's `//`: for a positive divisor, `q * b <= a < q * b + b`; for a negative one, the mirrored bounds |
| Grid.FloorMod | image_to_patches.py:58 | Python's `%`: `a == (a // b) * b + m`, with `m` in `[0, b)` for a positive divisor and in `(b, 0]` for a negative one |
| Grid.TruncatedDim | image_to_patches.py:26-27 | the truncated dimension is a multiple of the patch dimension, at most the original and less than one patch below it; an aligned dimension is not changed |
| Grid.Range | image_to_patches.py:39-40 | `range(0, stop, step)`: element `i` is `i * step` and lies in `[0, stop)`; with a positive step the next multiple is at least `stop`, so no origin below `stop` is missing; a negative step gives nothing |
| Grid.RangeLength | image_to_patches.py:39-40 | on an aligned dimension the loop runs `stop / step` times |
| Grid.RowMajorIndex | image_to_patches.py:39-40 | the nested loops visit `(xs[k % len(xs)], ys[k // len(xs)])` at step `k`: row-major order |
| Grid.PatchOrigins | image_to_patches.py:39-40 | a negative patch dimension gives an empty grid |
| Grid.CellOrigin | image_to_patches.py:57-60 | the paste offset of patch `i` lies on the canvas's first `cols` columns of patches, and the cell index of that offset is `i` again: the offset map is inverted by the cell index |
| Grid.PartitionMatchesReassembly | image_to_patches.py:39-60 | on an aligned size the grid has `rows * cols` cells, and the `k`-th origin cropped is the offset at which reassembly pastes patch `k`: reassembly inverts the enumeration |
| Grid.CellMembership | image_to_patches.py:57-61 | a pixel lies in the cell pasted for index `i` exactly when `i` is the pixel's cell index |
| Grid.CellInsideCanvas | image_to_patches.py:52-61 | every cell with an index below `rows * cols` lies inside the canvas |
| Grid.CellIndexInRange | image_to_patches.py:52-60 | every canvas pixel's cell index is below `rows * cols` |
| Grid.CellOffset | image_to_patches.py:57-60 | the cell of a pixel starts at the pixel rounded down to whole patches |
| RoundTrip.CellsTile | image_to_patches.py:52-61 | the cells tile the canvas: each pixel lies in exactly one cell, and its index is in range |
| Images.Blank | image_to_patches.py:54 | `Image.new`: a canvas of the given size with every pixel the fill |
| Images.Crop | image_to_patches.py:41 | the crop has the box's size; inside the source it shows the source pixel, outside it shows the fill |
| Images.Paste | image_to_patches.py:61 | the canvas keeps its size; a covered pixel shows the patch at its offset, and every other pixel is unchanged |
| Images.Resize | image_to_patches.py:30 | the result has the requested size; the same size returns the image itself; a change to an empty size is refused, and so (by this model's choice) is a change from an empty image; nothing else is refused |
| Outcomes.Collect | image_to_patches.py:39-45 | the loop succeeds exactly when every step does and returns each step's value in order; otherwise it fails with the first failing step's failure |
| Selection.RemoveAt | image_to_patches.py:67-68 | removing one position keeps every other item and adds none; a distinct pool loses exactly the removed item |
| Selection.Pick | image_to_patches.py:67-68 | `k` items, all from the pool, distinct when the pool is |
| Selection.Sample | image_to_patches.py:67-68 | succeeds exactly when `0 <= k <= n`, with `k` distinct positions below `n`; otherwise it raises |
| Selection.PickReachesEverySelection | image_to_patches.py:67-68 | every ordered choice of distinct pool items comes out of `Pick` for some draws |
| Selection.SampleReachesEverySelection | image_to_patches.py:67-68 | every ordered selection of distinct positions is a possible outcome of sample-then-shuffle |
| Selection.Choose | image_to_patches.py:67-68 | succeeds exactly when the count is in range, giving that many list items, distinct when the list is |
| Transforms.DefaultTransformationsDistinct | image_to_patches.py:9-13 | the four configured transformations are different from one another |
| Transforms.ApplyOne | image_to_patches.py:70-71 | one transformation keeps the patch's size |
| Transforms.Compose | image_to_patches.py:70-71 | the composition keeps the patch's size and validity |
| Transforms.ComposeAppend | image_to_patches.py:70-71 | composing `ts + us` applies `ts` first, then `us` |
| Transforms.ComposeIdentity | image_to_patches.py:70-71 | under an effect that changes no pixel, every composition returns its input |
| PatchAugmentation.NewAugmentation | image_to_patches.py:8-19 | `__init__` keeps the patch size and count and configures four different transformations; the count can be sampled exactly when it is from 0 to 4 |
| PatchAugmentation.DefaultTransformPatch | image_to_patches.py:9-13 | with the default list and a count from 0 to 4, each patch gets that many different configured transformations, composed in some order |
| PatchAugmentation.ResizeImage | image_to_patches.py:21-32 | a zero patch dimension divides by zero; otherwise the result has the truncated size, and an aligned image comes back unchanged |
| PatchAugmentation.TransformPatch | image_to_patches.py:65-73 | succeeds exactly when the count is in range; the result is the chosen transformations (that many list items, distinct when the list is, in the drawn order) composed over the patch; it keeps the patch's size, and a zero count returns the patch |
| PatchAugmentation.TransformPatchSelection | image_to_patches.py:66-71 | every transformed patch is the composition, in some order, of `numTransformations` list items, distinct when the list is |
| PatchAugmentation.CropAndTransform | image_to_patches.py:41-43 | the transformed crop is a valid `pw` x `ph` image exactly when the count is in range |
| PatchAugmentation.Partition | image_to_patches.py:34-47 | a zero patch height is a zero `range` step; a zero width is one only when the outer loop runs (a nonzero height), and gives no patches otherwise; a negative dimension gives no patches; otherwise patch `i` is the transformed crop at the `i`-th origin, and the call fails only when a patch exists and the count is out of range |
| PatchAugmentation.PasteAll | image_to_patches.py:56-61 | pasting keeps the canvas's size and validity |
| PatchAugmentation.Reassemble | image_to_patches.py:49-63 | fails with `ZeroDivision` exactly for a zero patch dimension, or a zero column count with patches to place; otherwise gives a valid canvas of the requested size |
| PatchAugmentation.ReassembleAsWritten | image_to_patches.py:49-63 | with the pair unpacking, only an empty patch list succeeds, and it gives the blank canvas |
| PatchAugmentation.Augment | image_to_patches.py:75-86 | a successful augmentation has nonzero patch dimensions and the truncated size |
| PatchAugmentation.AugmentAsWritten | image_to_patches.py:75-86 | the code as written, when it succeeds at all, returns a blank canvas of the truncated size |
| RoundTrip.PasteAllPixel | image_to_patches.py:56-61 | after `n` pastes a pixel shows its cell's patch if that patch was pasted, and the canvas otherwise: pastes never overlap |
| RoundTrip.ReassemblePixels | image_to_patches.py:49-63 | on a full grid every output pixel is the pixel of its cell's patch at its offset in the cell |
| RoundTrip.TransformPatchUnchanged | image_to_patches.py:65-73 | with no transformations, or identity effects, the transformed patch is the patch |
| RoundTrip.PatchIsCrop | image_to_patches.py:39-45 | on an aligned grid with unchanged patches, patch `i` is the crop at the reassembly's offset for `i` |
| RoundTrip.CropAtCell | image_to_patches.py:41 | the crop at a pixel's cell, read at the pixel's offset in the cell, shows that pixel |
| RoundTrip.ReassemblePartition | image_to_patches.py:34-63 | partitioning an aligned region and reassembling the unchanged patches reproduces the region pixel for pixel |
| RoundTrip.EmptyGridReassembly | image_to_patches.py:54-63 | with no patches the reassembly is the blank canvas |
| RoundTrip.CropsInBounds | image_to_patches.py:35-41 | every crop box lies within the truncated size, hence within the original image |
| RoundTrip.RoundTrip | image_to_patches.py:75-86 | with unchanged patches the augmentation returns exactly the resized image |
| RoundTrip.AlignedRoundTrip | image_to_patches.py:75-86 | on an aligned image with unchanged patches the augmentation returns its input |
| RoundTrip.AugmentOutcome | image_to_patches.py:75-86 | every way the augmentation can end: division by zero, a refused resize, an out-of-range count (only with a non-empty grid), a blank result for negative patch sizes, or success |
| RoundTrip.UnpackFails | image_to_patches.py:56 | for every image of at least one patch with an in-range count, the code as written raises, while reading patches as images succeeds |
| RoundTrip.OriginalCropOutput | image_to_patches.py:41 | cropping from the original along the resized grid reassembles the original's top-left region, whatever the resize produced |
| RoundTrip.FirstPatchPixel | image_to_patches.py:39-41 | a pixel of the first unchanged patch is the source's pixel at the same place |
| RoundTrip.CropSourceCounterexample | image_to_patches.py:41 | for a five-pixel row and three-pixel patches, the patches cut from the original differ from those cut from the resized row |
| RoundTrip.ResizedRow | image_to_patches.py:26-30 | the five-pixel row resizes to three pixels, the last of which is source pixel 3 under the left-edge stand-in |

## Left out

- Pillow's resampling filter is not modelled (the default for RGB is bicubic). `Images.Resize` takes the source pixel under each output pixel's left edge instead (`Images.LeftEdgeSample`), which is not Pillow's NEAREST either: NEAREST samples pixel centres. Its refusal of an empty requested size follows Pillow's rule that height and width must be positive; Pillow is not part of this model.
- Images.Resize: only the result's size, the same-size copy and the refusal of an empty requested size hold for the real library. The pixel values are the left-edge stand-in's. The refusal to resize an empty image to another size is this model's choice, not Pillow's; the augmentation never asks for it, because an empty dimension truncates to an empty one.
- The four torchvision transformations (ColorJitter, GaussianBlur, RandomAdjustSharpness, RandomPosterize) are floating-point pixel operations. They are the parameter `effect`, and the model relies only on their keeping the patch's size. Their constructor arguments are kept as data.
- The transformations' own randomness is not modelled: `effect` is one fixed function of the transformation and the patch, so ColorJitter's random factors, GaussianBlur's random sigma and the coin that RandomAdjustSharpness and RandomPosterize toss cannot change from call to call.
- Failures inside a transformation are not modelled: `effect` is total. For example, GaussianBlur with kernel size (1, 5) reflect-pads two rows, and torchvision raises on a patch two pixels high or less when that transformation is drawn.
- The distribution of `random.sample` and `random.shuffle` is not modelled. The model covers which selections are possible, not how likely each one is.
- The image mode ('RGB' at line 54) and pixel representation are not modelled; pixels are of a generic type.
- The instance attributes that `__call__` stores (`self.image`, `self.resized_image`, `self.original_size`, `self.patches`, `self.transformed_image`) are not modelled. They are passed as values instead. The `(width, height)` returned at line 32 is not used by the output and is not modelled.
- `__repr__` and the commented-out example at the end of the file are left out, because neither affects the augmentation.
- The `rv` component unpacked at line 56 is not modelled beyond the unpacking failure. `apply_random_transformations` returns no such value.
- Pillow's `paste` clips a patch that hangs off the canvas, and `crop` pads with zeros. In the model, crop pads with the fill pixel, and paste drops whatever falls off the canvas. Pillow's other `paste` arguments (masks, modes) are left out.

## Findings

| source | as written | input that shows it | evidently intended | confidence | as-written member | corrected member |
|---|---|---|---|---|---|---|
| image_to_patches.py:56 | each patch is unpacked as a `(patch, rv)` pair, but `apply_random_transformations` returns a plain image | any image at least one patch wide and high, with `0 <= num_transformations <= 4` | iterate over the patch images themselves | high; not executed | RoundTrip.UnpackFails | RoundTrip.ReassemblePixels |
| image_to_patches.py:41 | patches are cropped from the original image, while the grid comes from the resized image | a row `[0, 1, 2, 3, 4]`, patches 3 x 1, no transformations: the patch cropped from the original is `[0, 1, 2]`, but the resized row of this model's left-edge stand-in ends in pixel 3 (Pillow's own filters give other values) | crop from the resized image, so the output is the resized image when nothing is transformed | medium; not executed | RoundTrip.CropSourceCounterexample | RoundTrip.RoundTrip |

`PatchAugmentation.AugmentAsWritten` is the pipeline exactly as written. It crops from the original and unpacks pairs. `PatchAugmentation.Augment` is the corrected pipeline: it crops from the resized image and pastes the patches as images. The second finding's counterexample depends on the resized pixels, which come from the left-edge stand-in, not from Pillow. Any resampler that changes the row shows the same discrepancy.
