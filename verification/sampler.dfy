/** Random sampling of candidate windows whose ink ratio is close to the
    reference glyph's (`select_smples`). */
module Sampler {
  import opened Results
  import opened Numbers
  import opened Random
  import opened Raster

  /** Top-left corner of a window: column `x0`, row `y0`. */
  datatype Origin = Origin(x0: int, y0: int)

  /** An accepted window and where it was cut from. */
  datatype Sample = Sample(crop: Grid, origin: Origin)

  /** The sampling parameters: NSAMP, RECT_W, RECT_H, the reference ratio and BLACK_DEV. */
  datatype Params = Params(nsamp: nat, rectW: nat, rectH: nat, glyphRatio: real, dev: real)

  predicate ValidParams(p: Params) {
    p.rectW > 0 && p.rectH > 0
  }

  /** A window of ink ratio `ratio` is kept unless it deviates by more than `dev`. */
  predicate Accepts(ratio: real, glyphRatio: real, dev: real) {
    !(Abs(ratio - glyphRatio) > dev)
  }

  predicate AcceptedSample(s: Sample, p: Params)
    requires ValidParams(p)
  {
    IsGrid(s.crop, p.rectH, p.rectW)
    && Accepts(InkRatio(s.crop, p.rectH, p.rectW), p.glyphRatio, p.dev)
  }

  /** Both origin ranges are non-empty, so `randint` cannot fail. */
  predicate Fits(hImg: nat, wImg: nat, p: Params) {
    p.rectW <= wImg && p.rectH <= hImg
  }

  predicate InRange(o: Origin, hImg: nat, wImg: nat, p: Params) {
    0 <= o.x0 <= wImg - p.rectW && 0 <= o.y0 <= hImg - p.rectH
  }

  /** The `randint` error of a window that does not fit: the column range is
      drawn first. */
  function TooLarge(hImg: nat, wImg: nat, p: Params): Error {
    if wImg < p.rectW then EmptyRange(0, wImg - p.rectW) else EmptyRange(0, hImg - p.rectH)
  }

  /** glyp_ref_gen.py:50-52 for the i-th draw: the column comes from call 2i and the row
      from call 2i+1; `randint` fails when the window is larger than the image. */
  function Draw(img: Grid, hImg: nat, wImg: nat, p: Params, draw: Stream, i: nat): (r: Result<Sample>)
    requires IsGrid(img, hImg, wImg)
    ensures r.Success? <==> Fits(hImg, wImg, p)
    ensures r.Failure? ==> r.error == TooLarge(hImg, wImg, p)
    ensures r.Success? ==> InRange(r.value.origin, hImg, wImg, p) && IsGrid(r.value.crop, p.rectH, p.rectW)
    ensures r.Success? ==> forall y, x :: 0 <= y < p.rectH && 0 <= x < p.rectW ==>
      r.value.crop[y][x] == img[r.value.origin.y0 + y][r.value.origin.x0 + x]
  {
    var x0 :- RandInt(0, wImg - p.rectW, draw(2 * i));
    var y0 :- RandInt(0, hImg - p.rectH, draw(2 * i + 1));
    Success(Sample(Crop(img, x0, y0, p.rectW, p.rectH), Origin(x0, y0)))
  }

  /** The first n candidate windows, in generation order. */
  function Windows(img: Grid, hImg: nat, wImg: nat, p: Params, draw: Stream, n: nat): (ws: seq<Sample>)
    requires IsGrid(img, hImg, wImg) && Fits(hImg, wImg, p)
    ensures |ws| == n
  {
    if n == 0 then [] else Windows(img, hImg, wImg, p, draw, n - 1) + [Draw(img, hImg, wImg, p, draw, n - 1).value]
  }

  /** The accepted windows of `ws`, in their order. */
  function Accepted(ws: seq<Sample>, p: Params): seq<Sample>
    requires ValidParams(p)
  {
    if ws == [] then []
    else
      var last := ws[|ws| - 1];
      Accepted(ws[..|ws| - 1], p) + (if AcceptedSample(last, p) then [last] else [])
  }

  lemma AcceptedSnoc(ws: seq<Sample>, s: Sample, p: Params)
    requires ValidParams(p)
    ensures Accepted(ws + [s], p) == Accepted(ws, p) + (if AcceptedSample(s, p) then [s] else [])
  {
    assert (ws + [s])[..|ws|] == ws;
  }

  lemma {:induction false} AcceptedMembers(ws: seq<Sample>, p: Params)
    requires ValidParams(p)
    ensures |Accepted(ws, p)| <= |ws|
    ensures forall s :: s in Accepted(ws, p) <==> s in ws && AcceptedSample(s, p)
  {
    if ws != [] {
      var pre := ws[..|ws| - 1];
      AcceptedMembers(pre, p);
      assert ws == pre + [ws[|ws| - 1]];
    }
  }

  lemma AcceptedWindows(img: Grid, hImg: nat, wImg: nat, p: Params, draw: Stream, n: nat)
    requires ValidParams(p) && IsGrid(img, hImg, wImg) && Fits(hImg, wImg, p)
    ensures var acc := Accepted(Windows(img, hImg, wImg, p, draw, n), p);
      && |acc| <= n
      && forall s :: s in acc ==> InRange(s.origin, hImg, wImg, p) && AcceptedSample(s, p)
  {
    AcceptedMembers(Windows(img, hImg, wImg, p, draw, n), p);
    WindowsInRange(img, hImg, wImg, p, draw, n);
  }

  lemma {:induction false} WindowsInRange(img: Grid, hImg: nat, wImg: nat, p: Params, draw: Stream, n: nat)
    requires IsGrid(img, hImg, wImg) && Fits(hImg, wImg, p)
    ensures forall i :: 0 <= i < n ==> Windows(img, hImg, wImg, p, draw, n)[i] == Draw(img, hImg, wImg, p, draw, i).value
    ensures forall s :: s in Windows(img, hImg, wImg, p, draw, n) ==> InRange(s.origin, hImg, wImg, p)
  {
    if n > 0 {
      WindowsInRange(img, hImg, wImg, p, draw, n - 1);
    }
  }

  /** `select_smples`: NSAMP draws, keeping the windows whose ink ratio is
      within BLACK_DEV of the reference, in the order they were drawn. */
  method SelectSamples(p: Params, img: Grid, hImg: nat, wImg: nat, draw: Stream)
    returns (r: Result<seq<Sample>>)
    requires ValidParams(p) && IsGrid(img, hImg, wImg)
    ensures r.Failure? <==> p.nsamp > 0 && !Fits(hImg, wImg, p)
    ensures r.Failure? ==> r.error == TooLarge(hImg, wImg, p)
    ensures r.Success? ==> |r.value| <= p.nsamp
    ensures r.Success? ==> forall s :: s in r.value ==>
      InRange(s.origin, hImg, wImg, p) && AcceptedSample(s, p)
    ensures r.Success? && Fits(hImg, wImg, p) ==>
      r.value == Accepted(Windows(img, hImg, wImg, p, draw, p.nsamp), p)
  {
    var selected: seq<Sample> := [];
    var i := 0;
    while i < p.nsamp
      invariant 0 <= i <= p.nsamp
      invariant |selected| <= i
      invariant i > 0 ==> Fits(hImg, wImg, p)
      invariant Fits(hImg, wImg, p) ==> selected == Accepted(Windows(img, hImg, wImg, p, draw, i), p)
    {
      var s :- Draw(img, hImg, wImg, p, draw, i);
      AcceptedSnoc(Windows(img, hImg, wImg, p, draw, i), s, p);
      // `abs(crop_black_ratio - glyph_black_ratio) > BLACK_DEV`: skip the window
      if !AcceptedSample(s, p) {
      } else {
        selected := selected + [s];
      }
      i := i + 1;
    }
    if Fits(hImg, wImg, p) {
      AcceptedWindows(img, hImg, wImg, p, draw, p.nsamp);
    }
    r := Success(selected);
  }

  /** Acceptance is monotone in the tolerance: a larger BLACK_DEV keeps every
      window a smaller one keeps, and so never fewer windows. */
  lemma {:induction false} AcceptedMonotone(ws: seq<Sample>, p: Params, dev': real)
    requires ValidParams(p) && p.dev <= dev'
    ensures forall s :: s in Accepted(ws, p) ==> s in Accepted(ws, p.(dev := dev'))
    ensures |Accepted(ws, p)| <= |Accepted(ws, p.(dev := dev'))|
  {
    if ws != [] {
      AcceptedMonotone(ws[..|ws| - 1], p, dev');
    }
  }
}
