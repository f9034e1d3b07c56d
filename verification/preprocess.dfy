/** Thresholding of the greyscale source image (`preprocess_source`). */
module Preprocess {
  import opened Raster

  /** A pixel stays background when its normalised intensity exceeds the
      threshold; otherwise it becomes ink. */
  function ThresholdPixel(p: Pixel, trsh: real): (q: Pixel)
    ensures q == Ink || q == Paper
    ensures q == Ink <==> p as real / 255.0 <= trsh
  {
    if p as real / 255.0 > trsh then Paper else Ink
  }

  /** `(img / 255.0 > TRSH).astype(uint8) * 255`. */
  function Threshold(img: Grid, trsh: real): (b: Grid)
    ensures SameShape(b, img)
    ensures IsBinary(b)
    ensures forall i, j :: 0 <= i < |img| && 0 <= j < |img[i]| ==>
      (b[i][j] == Ink <==> img[i][j] as real / 255.0 <= trsh)
  {
    seq(|img|, i requires 0 <= i < |img| =>
      seq(|img[i]|, j requires 0 <= j < |img[i]| => ThresholdPixel(img[i][j], trsh)))
  }

  /** Raising the threshold only turns background into ink, never the reverse. */
  lemma ThresholdMonotone(img: Grid, t: real, t': real)
    requires t <= t'
    ensures forall i, j :: 0 <= i < |img| && 0 <= j < |img[i]| && Threshold(img, t)[i][j] == Ink ==>
      Threshold(img, t')[i][j] == Ink
  {
  }

  /** Every threshold in [0, 1) leaves a binary image unchanged. */
  lemma ThresholdFixesBinary(b: Grid, t: real)
    requires IsBinary(b) && 0.0 <= t < 1.0
    ensures Threshold(b, t) == b
  {
    var r := Threshold(b, t);
    forall i | 0 <= i < |b|
      ensures r[i] == b[i]
    {
      assert forall j :: 0 <= j < |b[i]| ==> r[i][j] == b[i][j];
    }
  }

  /** Thresholding is idempotent: a second pass with any threshold in [0, 1)
      changes nothing. */
  lemma ThresholdIdempotent(img: Grid, t: real, t': real)
    requires 0.0 <= t' < 1.0
    ensures Threshold(Threshold(img, t), t') == Threshold(img, t)
  {
    ThresholdFixesBinary(Threshold(img, t), t');
  }
}
