/** One character's pass through the extraction pipeline (`pipeline`):
    reference ratio, window sampling, ranking. */
module Extraction {
  import opened Results
  import opened Raster
  import opened Random
  import opened Sampler
  import opened Scorer

  /** The reference ratio of `render_glyph`: ink cells of the rendered mask
      over the box area. The mask itself comes from a font renderer that is
      not part of this model and is anti-aliased, so only cells of value
      exactly 0 count as ink. */
  function GlyphRatio(ref: Grid, rectH: nat, rectW: nat): (r: real)
    requires rectH > 0 && rectW > 0 && IsGrid(ref, rectH, rectW)
    ensures 0.0 <= r <= 1.0
  {
    InkRatio(ref, rectH, rectW)
  }

  /** Sample the thresholded image for windows whose ink ratio is close to the
      reference's and return the best-scoring one: when the window fits, the
      result is `BestMatch` of exactly the kept windows, so
      `BestMatchIsFirstMinimum` applies to it. It raises when the window does
      not fit the image and when no window was kept. */
  method Pipeline(nsamp: nat, rectW: nat, rectH: nat, dev: real, ref: Grid,
                  img: Grid, hImg: nat, wImg: nat, draw: Stream)
    returns (r: Result<Scored>)
    requires rectW > 0 && rectH > 0 && IsGrid(ref, rectH, rectW) && IsGrid(img, hImg, wImg)
    ensures var p := Params(nsamp, rectW, rectH, GlyphRatio(ref, rectH, rectW), dev);
      r.Failure? <==> nsamp == 0 || !Fits(hImg, wImg, p) || Accepted(Windows(img, hImg, wImg, p, draw, nsamp), p) == []
    ensures var p := Params(nsamp, rectW, rectH, GlyphRatio(ref, rectH, rectW), dev);
      r.Failure? ==> r.error == (if nsamp > 0 && !Fits(hImg, wImg, p) then TooLarge(hImg, wImg, p) else NoSamples)
    ensures r.Success? ==>
      var b := r.value;
      && 0.0 <= b.score <= 1.0
      && 0 <= b.origin.x0 <= wImg - rectW && 0 <= b.origin.y0 <= hImg - rectH
      && IsGrid(b.crop, rectH, rectW)
      && b.score == Score(b.crop, ref, rectH, rectW)
      && Accepts(InkRatio(b.crop, rectH, rectW), GlyphRatio(ref, rectH, rectW), dev)
    ensures var p := Params(nsamp, rectW, rectH, GlyphRatio(ref, rectH, rectW), dev);
      Fits(hImg, wImg, p) ==>
        var kept := Accepted(Windows(img, hImg, wImg, p, draw, nsamp), p);
        WellShaped(kept, rectH, rectW) && r == BestMatch(kept, ref, rectH, rectW)
  {
    var p := Params(nsamp, rectW, rectH, GlyphRatio(ref, rectH, rectW), dev);
    var samples :- SelectSamples(p, img, hImg, wImg, draw);
    r := ComputeSimilarity(samples, ref, rectH, rectW);
    if r.Success? {
      var all := ScoreAll(samples, ref, rectH, rectW);
      var k :| 0 <= k < |all| && all[k] == r.value;
      assert samples[k] in samples;
    }
  }
}
