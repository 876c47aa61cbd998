/** The photometric transformations of the augmentation and their
    composition. What a transformation does to the pixels is left abstract:
    an `Effect` gives the pixel at (x, y) of the transformed image, so every
    transformation keeps the size of the patch it is applied to. */
module Transforms {
  import opened Images
  import opened Selection

  /** The four transformations an augmentation is configured with, with the
      parameters it passes them. */
  datatype Transform =
    | ColorJitter(brightness: real, hue: real)
    | GaussianBlur(kernelWidth: nat, kernelHeight: nat, sigmaMin: real, sigmaMax: real)
    | RandomAdjustSharpness(sharpnessFactor: real)
    | RandomPosterize(bits: nat)

  const DefaultTransformations: seq<Transform> := [
    ColorJitter(0.1, 0.1),
    GaussianBlur(1, 5, 0.1, 2.0),
    RandomAdjustSharpness(2.0),
    RandomPosterize(3)
  ]

  /** The four configured transformations are different from one another, so
      a selection of distinct positions is a selection of distinct transformations. */
  lemma DefaultTransformationsDistinct()
    ensures |DefaultTransformations| == 4 && Distinct(DefaultTransformations)
  {
  }

  /** `effect(t, img, x, y)` is the pixel at (x, y) of `img` transformed by `t`;
      it stands for the library's pixel arithmetic. It is one fixed function,
      so the random factors a transformation draws afresh on each call are not
      modelled, and neither is a transformation that raises. */
  type Effect<!T, !P> = (T, Image<P>, nat, nat) -> P

  /** `img` transformed by `t`: an image of the same size. */
  function ApplyOne<T, P>(effect: Effect<T, P>, t: T, img: Image<P>): (r: Image<P>)
    ensures r.Valid() && r.SameSize(img)
  {
    Image(img.width, img.height, seq(img.height, y requires 0 <= y < img.height =>
      seq(img.width, x requires 0 <= x < img.width => effect(t, img, x, y))))
  }

  /** The transformations of `ts` applied one after another, each to the
      previous one's output, as a composition of transforms does. */
  function Compose<T, P>(effect: Effect<T, P>, ts: seq<T>, img: Image<P>): (r: Image<P>)
    ensures r.SameSize(img)
    ensures img.Valid() ==> r.Valid()
    decreases |ts|
  {
    if |ts| == 0 then img else Compose(effect, ts[1..], ApplyOne(effect, ts[0], img))
  }

  /** Composing two lists applies the first list, then the second. */
  lemma {:induction false} ComposeAppend<T, P>(effect: Effect<T, P>, ts: seq<T>, us: seq<T>, img: Image<P>)
    ensures Compose(effect, ts + us, img) == Compose(effect, us, Compose(effect, ts, img))
    decreases |ts|
  {
    if |ts| == 0 {
      assert ts + us == us;
    } else {
      assert (ts + us)[1..] == ts[1..] + us;
      ComposeAppend(effect, ts[1..], us, ApplyOne(effect, ts[0], img));
    }
  }

  /** An effect that leaves every pixel of every valid image as it was. */
  ghost predicate IsIdentity<T(!new), P(!new)>(effect: Effect<T, P>) {
    forall t, img: Image<P>, x: nat, y: nat :: img.Valid() && img.Contains(x, y) ==>
      effect(t, img, x, y) == img.At(x, y)
  }

  /** Under the identity effect every composition returns its input. */
  lemma {:induction false} ComposeIdentity<T(!new), P(!new)>(effect: Effect<T, P>, ts: seq<T>, img: Image<P>)
    requires IsIdentity(effect) && img.Valid()
    ensures Compose(effect, ts, img) == img
    decreases |ts|
  {
    if |ts| > 0 {
      var once := ApplyOne(effect, ts[0], img);
      Extensionality(once, img);
      ComposeIdentity(effect, ts[1..], once);
    }
  }
}
