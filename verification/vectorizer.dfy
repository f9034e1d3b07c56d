/** Conversion of traced contours into a glyph outline
    (`draw_glyph_from_bitmap`, from the contours onward). */
module Vectorizer {
  import opened Results
  import opened Numbers
  import opened Pen

  /** A traced point as the tracer reports it: `(row, col)` in pixels. */
  datatype SrcPoint = SrcPoint(row: real, col: real)

  /** A traced polyline. The tracer never reports a contour without points. */
  type Contour = c: seq<SrcPoint> | c != [] witness [SrcPoint(0.0, 0.0)]

  /** The union bounding box of all traced points. */
  datatype Box = Box(minRow: real, minCol: real, maxRow: real, maxCol: real)

  /** Uniform scale and centring offsets of the box inside the target. */
  datatype Placement = Placement(box: Box, scale: real, xOff: real, yOff: real)

  /** `np.vstack(contours)`: every point, contour after contour. The stack
      holds exactly the points of the contours, and nothing else. */
  function Flatten(cs: seq<Contour>): (ps: seq<SrcPoint>)
    ensures |ps| == 0 <==> cs == []
    ensures forall q :: q in ps <==> exists k :: 0 <= k < |cs| && q in cs[k]
  {
    if cs == [] then []
    else
      var pre := cs[..|cs| - 1];
      assert forall k :: 0 <= k < |pre| ==> pre[k] == cs[k];
      Flatten(pre) + cs[|cs| - 1]
  }

  lemma {:induction false} FlattenContains(cs: seq<Contour>, k: nat, q: SrcPoint)
    requires k < |cs| && q in cs[k]
    ensures q in Flatten(cs)
  {
    if k < |cs| - 1 {
      FlattenContains(cs[..|cs| - 1], k, q);
    }
  }

  function MinRow(ps: seq<SrcPoint>): (m: real)
    requires ps != []
    ensures forall q :: q in ps ==> m <= q.row
    ensures exists q :: q in ps && q.row == m
  {
    if |ps| == 1 then ps[0].row
    else MinReal(MinRow(ps[..|ps| - 1]), ps[|ps| - 1].row)
  }

  function MinCol(ps: seq<SrcPoint>): (m: real)
    requires ps != []
    ensures forall q :: q in ps ==> m <= q.col
    ensures exists q :: q in ps && q.col == m
  {
    if |ps| == 1 then ps[0].col
    else MinReal(MinCol(ps[..|ps| - 1]), ps[|ps| - 1].col)
  }

  function MaxRow(ps: seq<SrcPoint>): (m: real)
    requires ps != []
    ensures forall q :: q in ps ==> q.row <= m
    ensures exists q :: q in ps && q.row == m
  {
    if |ps| == 1 then ps[0].row
    else var m := MaxRow(ps[..|ps| - 1]); if m < ps[|ps| - 1].row then ps[|ps| - 1].row else m
  }

  function MaxCol(ps: seq<SrcPoint>): (m: real)
    requires ps != []
    ensures forall q :: q in ps ==> q.col <= m
    ensures exists q :: q in ps && q.col == m
  {
    if |ps| == 1 then ps[0].col
    else var m := MaxCol(ps[..|ps| - 1]); if m < ps[|ps| - 1].col then ps[|ps| - 1].col else m
  }

  predicate InBox(q: SrcPoint, b: Box) {
    b.minRow <= q.row <= b.maxRow && b.minCol <= q.col <= b.maxCol
  }

  /** `all_pts.min(axis=0)` and `all_pts.max(axis=0)`: the smallest box that
      holds every point. With no point at all numpy raises ValueError. */
  function BoundingBox(cs: seq<Contour>): (r: Result<Box>)
    ensures r.Failure? <==> cs == []
    ensures r.Failure? ==> r.error == NoContours
    ensures r.Success? ==> forall k, q :: 0 <= k < |cs| && q in cs[k] ==> InBox(q, r.value)
    ensures r.Success? ==>
      (exists k, q :: 0 <= k < |cs| && q in cs[k] && q.row == r.value.minRow) &&
      (exists k, q :: 0 <= k < |cs| && q in cs[k] && q.col == r.value.minCol) &&
      (exists k, q :: 0 <= k < |cs| && q in cs[k] && q.row == r.value.maxRow) &&
      (exists k, q :: 0 <= k < |cs| && q in cs[k] && q.col == r.value.maxCol)
  {
    var ps := Flatten(cs);
    if ps == [] then Failure(NoContours)
    else
      var b := Box(MinRow(ps), MinCol(ps), MaxRow(ps), MaxCol(ps));
      assert forall k, q :: 0 <= k < |cs| && q in cs[k] ==> InBox(q, b) by {
        forall k, q | 0 <= k < |cs| && q in cs[k]
          ensures InBox(q, b)
        {
          FlattenContains(cs, k, q);
        }
      }
      Success(b)
  }

  function Width(b: Box): real {
    b.maxCol - b.minCol
  }

  function Height(b: Box): real {
    b.maxRow - b.minRow
  }

  predicate WellFormed(b: Box) {
    b.minRow <= b.maxRow && b.minCol <= b.maxCol
  }

  lemma MulMono(a: real, b: real, s: real)
    requires 0.0 <= a <= b && 0.0 <= s
    ensures 0.0 <= a * s <= b * s
  {
  }

  /** `scale = min(glyph_w / w, glyph_h / h)` and the offsets that centre the
      scaled box. An extent of 0 makes its ratio infinite in numpy, so the
      other ratio is the minimum; two zero extents give NaN, modelled as a
      failure. */
  function Place(b: Box, gw: real, gh: real): (r: Result<Placement>)
    requires WellFormed(b) && gw > 0.0 && gh > 0.0
    ensures r.Failure? <==> Width(b) == 0.0 && Height(b) == 0.0
    ensures r.Failure? ==> r.error == DegenerateBox
    ensures r.Success? ==> r.value.box == b && r.value.scale > 0.0
    ensures r.Success? ==> Width(b) * r.value.scale <= gw && Height(b) * r.value.scale <= gh
    ensures r.Success? ==> Width(b) * r.value.scale == gw || Height(b) * r.value.scale == gh
    ensures r.Success? ==> r.value.xOff == (gw - Width(b) * r.value.scale) / 2.0
    ensures r.Success? ==> r.value.yOff == (gh - Height(b) * r.value.scale) / 2.0
  {
    var w := Width(b);
    var h := Height(b);
    if w == 0.0 && h == 0.0 then Failure(DegenerateBox)
    else
      var s :=
        if w == 0.0 then gh / h
        else if h == 0.0 then gw / w
        else MinReal(gw / w, gh / h);
      assert w > 0.0 ==> w * (gw / w) == gw;
      assert h > 0.0 ==> h * (gh / h) == gh;
      assert w > 0.0 && s <= gw / w ==> w * s <= gw by {
        if w > 0.0 && s <= gw / w { MulMono(s, gw / w, w); }
      }
      assert h > 0.0 && s <= gh / h ==> h * s <= gh by {
        if h > 0.0 && s <= gh / h { MulMono(s, gh / h, h); }
      }
      Success(Placement(b, s, (gw - w * s) / 2.0, (gh - h * s) / 2.0))
  }

  /** The point in glyph space as png_to_gyph.py:38-41 computes it: the
      column becomes x and the row, which grows downwards in the image,
      becomes y, which grows upwards in a font. */
  function MapAsWritten(q: SrcPoint, pl: Placement): Point {
    Point((q.col - pl.box.minCol) * pl.scale + pl.xOff, (q.row - pl.box.minRow) * pl.scale + pl.yOff)
  }

  /** The point in glyph space with the vertical axis turned upright: the top
      row of the box lands at the top of the scaled box. */
  function Map(q: SrcPoint, pl: Placement): Point {
    Point((q.col - pl.box.minCol) * pl.scale + pl.xOff, (pl.box.maxRow - q.row) * pl.scale + pl.yOff)
  }

  /** Which vertical axis a trace uses: the program's own, or the upright one. */
  datatype Axis = AsWritten | Upright

  function Project(q: SrcPoint, pl: Placement, axis: Axis): Point {
    match axis
    case AsWritten => MapAsWritten(q, pl)
    case Upright => Map(q, pl)
  }

  /** A placement computed by `Place` for a target of gw by gh. */
  predicate Placed(pl: Placement, gw: real, gh: real) {
    gw > 0.0 && gh > 0.0 && WellFormed(pl.box) && Place(pl.box, gw, gh) == Success(pl)
  }

  /** As written, a point higher in the image (smaller row) lands lower in the
      glyph: the outline comes out upside down. */
  lemma AsWrittenIsUpsideDown(q1: SrcPoint, q2: SrcPoint, pl: Placement, gw: real, gh: real)
    requires Placed(pl, gw, gh) && q1.row < q2.row
    ensures MapAsWritten(q1, pl).y < MapAsWritten(q2, pl).y
  {
    assert MapAsWritten(q2, pl).y - MapAsWritten(q1, pl).y == (q2.row - q1.row) * pl.scale;
  }

  lemma VerticalStrokeBox()
    ensures BoundingBox([[SrcPoint(0.0, 0.0), SrcPoint(10.0, 0.0)]]) == Success(Box(0.0, 0.0, 10.0, 0.0))
  {
    var top := SrcPoint(0.0, 0.0);
    var ps := [top, SrcPoint(10.0, 0.0)];
    var cs: seq<Contour> := [ps];
    assert Flatten(cs) == ps by {
      assert cs[..0] == [];
    }
    assert ps[..1] == [top];
    assert MinRow(ps) == MinReal(MinRow([top]), 10.0) == 0.0;
    assert MaxRow(ps) == 10.0;
    assert MinCol(ps) == MinReal(MinCol([top]), 0.0) == 0.0;
    assert MaxCol(ps) == 0.0;
  }

  /** A two-point vertical contour, traced at 600 by 500: its top end, at
      row 0, is drawn at the bottom of the glyph (y = 0) and its bottom end at
      the top (y = 500). */
  lemma AsWrittenFlipsVerticalStroke()
    ensures BoundingBox([[SrcPoint(0.0, 0.0), SrcPoint(10.0, 0.0)]]) == Success(Box(0.0, 0.0, 10.0, 0.0))
    ensures Place(Box(0.0, 0.0, 10.0, 0.0), 600.0, 500.0) == Success(Placement(Box(0.0, 0.0, 10.0, 0.0), 50.0, 300.0, 0.0))
    ensures var pl := Placement(Box(0.0, 0.0, 10.0, 0.0), 50.0, 300.0, 0.0);
      MapAsWritten(SrcPoint(0.0, 0.0), pl) == Point(300.0, 0.0)
      && MapAsWritten(SrcPoint(10.0, 0.0), pl) == Point(300.0, 500.0)
  {
    VerticalStrokeBox();
    var box := Box(0.0, 0.0, 10.0, 0.0);
    var r := Place(box, 600.0, 500.0);
    assert Width(box) == 0.0 && Height(box) == 10.0;
    assert r.Success?;
    var pl := r.value;
    assert 10.0 * pl.scale == 500.0;
    assert pl.scale == 50.0;
    assert pl.xOff == 300.0 && pl.yOff == 0.0;
  }

  /** The upright map mirrors the written one about the middle of the
      target: x is unchanged and y becomes gh - y. */
  lemma MapMirrorsAsWritten(q: SrcPoint, pl: Placement, gw: real, gh: real)
    requires Placed(pl, gw, gh)
    ensures Map(q, pl).x == MapAsWritten(q, pl).x
    ensures Map(q, pl).y == gh - MapAsWritten(q, pl).y
  {
  }

  /** Upright: a point higher in the image lands higher in the glyph. */
  lemma MapIsUpright(q1: SrcPoint, q2: SrcPoint, pl: Placement, gw: real, gh: real)
    requires Placed(pl, gw, gh) && q1.row < q2.row
    ensures Map(q1, pl).y > Map(q2, pl).y
  {
    assert Map(q1, pl).y - Map(q2, pl).y == (q2.row - q1.row) * pl.scale;
  }

  /** Every point of the box lands inside the target rectangle [0, gw] x [0, gh]. */
  lemma AsWrittenInTarget(q: SrcPoint, pl: Placement, gw: real, gh: real)
    requires Placed(pl, gw, gh) && InBox(q, pl.box)
    ensures 0.0 <= MapAsWritten(q, pl).x <= gw
    ensures 0.0 <= MapAsWritten(q, pl).y <= gh
  {
    MulMono(q.col - pl.box.minCol, Width(pl.box), pl.scale);
    MulMono(q.row - pl.box.minRow, Height(pl.box), pl.scale);
  }

  /** The upright map stays in the target too, being the written one mirrored. */
  lemma MapInTarget(q: SrcPoint, pl: Placement, gw: real, gh: real)
    requires Placed(pl, gw, gh) && InBox(q, pl.box)
    ensures 0.0 <= Map(q, pl).x <= gw
    ensures 0.0 <= Map(q, pl).y <= gh
  {
    AsWrittenInTarget(q, pl, gw, gh);
    MapMirrorsAsWritten(q, pl, gw, gh);
  }

  lemma ProjectInTarget(q: SrcPoint, pl: Placement, axis: Axis, gw: real, gh: real)
    requires Placed(pl, gw, gh) && InBox(q, pl.box)
    ensures 0.0 <= Project(q, pl, axis).x <= gw
    ensures 0.0 <= Project(q, pl, axis).y <= gh
  {
    match axis
    case AsWritten => AsWrittenInTarget(q, pl, gw, gh);
    case Upright => MapInTarget(q, pl, gw, gh);
  }

  /** The scaled box is centred: its corner with the smallest row and column
      lands at (xOff, yOff) and the opposite corner at (gw - xOff, gh - yOff). */
  lemma AsWrittenCentres(pl: Placement, gw: real, gh: real)
    requires Placed(pl, gw, gh)
    ensures MapAsWritten(SrcPoint(pl.box.minRow, pl.box.minCol), pl) == Point(pl.xOff, pl.yOff)
    ensures MapAsWritten(SrcPoint(pl.box.maxRow, pl.box.maxCol), pl) == Point(gw - pl.xOff, gh - pl.yOff)
  {
  }

  /** Upright, the top-left corner in the image lands at (xOff, gh - yOff) and
      the bottom-right corner at (gw - xOff, yOff). */
  lemma MapCentres(pl: Placement, gw: real, gh: real)
    requires Placed(pl, gw, gh)
    ensures Map(SrcPoint(pl.box.minRow, pl.box.minCol), pl) == Point(pl.xOff, gh - pl.yOff)
    ensures Map(SrcPoint(pl.box.maxRow, pl.box.maxCol), pl) == Point(gw - pl.xOff, pl.yOff)
  {
  }

  /** One scale for both axes: every displacement is scaled by the same factor,
      with columns going to x and rows to y. The mapped corners therefore span
      the box's width and height times that factor, and the mapped box fills
      the target along at least one side. */
  lemma AsWrittenPreservesAspect(q1: SrcPoint, q2: SrcPoint, pl: Placement, gw: real, gh: real)
    requires Placed(pl, gw, gh)
    ensures MapAsWritten(q2, pl).x - MapAsWritten(q1, pl).x == (q2.col - q1.col) * pl.scale
    ensures MapAsWritten(q2, pl).y - MapAsWritten(q1, pl).y == (q2.row - q1.row) * pl.scale
    ensures var lo := MapAsWritten(SrcPoint(pl.box.minRow, pl.box.minCol), pl);
      var hi := MapAsWritten(SrcPoint(pl.box.maxRow, pl.box.maxCol), pl);
      hi.x - lo.x == Width(pl.box) * pl.scale && hi.y - lo.y == Height(pl.box) * pl.scale
      && (hi.x - lo.x == gw || hi.y - lo.y == gh)
  {
  }

  /** The same for the upright map, whose vertical displacements change sign. */
  lemma MapPreservesAspect(q1: SrcPoint, q2: SrcPoint, pl: Placement, gw: real, gh: real)
    requires Placed(pl, gw, gh)
    ensures Map(q2, pl).x - Map(q1, pl).x == (q2.col - q1.col) * pl.scale
    ensures Map(q1, pl).y - Map(q2, pl).y == (q2.row - q1.row) * pl.scale
    ensures var top := Map(SrcPoint(pl.box.minRow, pl.box.minCol), pl);
      var bottom := Map(SrcPoint(pl.box.maxRow, pl.box.maxCol), pl);
      bottom.x - top.x == Width(pl.box) * pl.scale && top.y - bottom.y == Height(pl.box) * pl.scale
      && (bottom.x - top.x == gw || top.y - bottom.y == gh)
  {
  }

  /** The mapping is invertible: the traced point is recovered from its image. */
  lemma AsWrittenInvertible(q: SrcPoint, pl: Placement, gw: real, gh: real)
    requires Placed(pl, gw, gh)
    ensures (MapAsWritten(q, pl).x - pl.xOff) / pl.scale + pl.box.minCol == q.col
    ensures (MapAsWritten(q, pl).y - pl.yOff) / pl.scale + pl.box.minRow == q.row
  {
  }

  lemma MapInvertible(q: SrcPoint, pl: Placement, gw: real, gh: real)
    requires Placed(pl, gw, gh)
    ensures (Map(q, pl).x - pl.xOff) / pl.scale + pl.box.minCol == q.col
    ensures pl.box.maxRow - (Map(q, pl).y - pl.yOff) / pl.scale == q.row
  {
  }

  /** `np.linalg.norm(c[0] - c[-1]) < 1.0`, squared on both sides. */
  predicate Closes(c: Contour)
  {
    var a := c[0];
    var z := c[|c| - 1];
    (a.row - z.row) * (a.row - z.row) + (a.col - z.col) * (a.col - z.col) < 1.0
  }

  /** Comparing squares is the norm test: for the distance `d >= 0` between
      the end points, the contour closes exactly when `d < 1`. */
  lemma ClosesIsNormTest(c: Contour, d: real)
    requires d >= 0.0
    requires d * d == (c[0].row - c[|c| - 1].row) * (c[0].row - c[|c| - 1].row)
                      + (c[0].col - c[|c| - 1].col) * (c[0].col - c[|c| - 1].col)
    ensures Closes(c) <==> d < 1.0
  {
    if d >= 1.0 {
      MulMono(1.0, d, d);
      MulMono(1.0, d, 1.0);
    }
  }

  /** png_to_gyph.py:37-48 for one contour: a moveTo, a lineTo for each further point,
      and a closePath when the raw end points are less than a pixel apart. */
  function ContourTrace(c: Contour, pl: Placement, axis: Axis): (t: seq<Cmd>)
    ensures |t| == |c| + (if Closes(c) then 1 else 0)
    ensures t[0] == MoveTo(Project(c[0], pl, axis))
    ensures forall k :: 1 <= k < |c| ==> t[k] == LineTo(Project(c[k], pl, axis))
    ensures Closes(c) <==> t[|t| - 1] == ClosePath
  {
    var head := [MoveTo(Project(c[0], pl, axis))];
    var lines := seq(|c| - 1, k requires 0 <= k < |c| - 1 => LineTo(Project(c[k + 1], pl, axis)));
    head + lines + (if Closes(c) then [ClosePath] else [])
  }

  /** Each contour is one sub-path. */
  lemma ContourTraceMoves(c: Contour, pl: Placement, axis: Axis)
    ensures CountMoves(ContourTrace(c, pl, axis)) == 1
  {
    var head := [MoveTo(Project(c[0], pl, axis))];
    var lines := seq(|c| - 1, k requires 0 <= k < |c| - 1 => LineTo(Project(c[k + 1], pl, axis)));
    var tail: seq<Cmd> := if Closes(c) then [ClosePath] else [];
    assert ContourTrace(c, pl, axis) == head + lines + tail;
    CountMovesLines(lines);
    CountMovesAppend(head, lines);
    CountMovesAppend(head + lines, tail);
    assert CountMoves(head) == 1 by {
      assert head[..0] == [];
    }
    assert CountMoves(tail) == 0 by {
      if tail != [] {
        assert tail[..0] == [];
      }
    }
  }

  lemma {:induction false} CountMovesLines(t: seq<Cmd>)
    requires forall k :: 0 <= k < |t| ==> t[k].LineTo?
    ensures CountMoves(t) == 0
  {
    if t != [] {
      CountMovesLines(t[..|t| - 1]);
    }
  }

  /** Every coordinate a command carries lies in the target rectangle. */
  predicate CmdInTarget(cmd: Cmd, gw: real, gh: real) {
    match cmd
    case MoveTo(p) => 0.0 <= p.x <= gw && 0.0 <= p.y <= gh
    case LineTo(p) => 0.0 <= p.x <= gw && 0.0 <= p.y <= gh
    case CurveTo(c1, c2, e) =>
      0.0 <= c1.x <= gw && 0.0 <= c1.y <= gh && 0.0 <= c2.x <= gw && 0.0 <= c2.y <= gh
      && 0.0 <= e.x <= gw && 0.0 <= e.y <= gh
    case ClosePath => true
  }

  /** The contours' traces one after the other, in input order. */
  function Traces(cs: seq<Contour>, pl: Placement, axis: Axis): (t: seq<Cmd>)
    ensures CountMoves(t) == |cs|
  {
    if cs == [] then []
    else
      var first := ContourTrace(cs[0], pl, axis);
      var rest := Traces(cs[1..], pl, axis);
      ContourTraceMoves(cs[0], pl, axis);
      CountMovesAppend(first, rest);
      first + rest
  }

  /** The trace of a list of contours is the concatenation of the traces of
      its parts: no contour is dropped or reordered. */
  lemma {:induction false} TracesAppend(a: seq<Contour>, b: seq<Contour>, pl: Placement, axis: Axis)
    ensures Traces(a + b, pl, axis) == Traces(a, pl, axis) + Traces(b, pl, axis)
  {
    if a == [] {
      assert a + b == b;
    } else {
      assert (a + b)[1..] == a[1..] + b;
      TracesAppend(a[1..], b, pl, axis);
    }
  }

  lemma {:induction false} TracesInTarget(cs: seq<Contour>, pl: Placement, axis: Axis, gw: real, gh: real)
    requires Placed(pl, gw, gh)
    requires forall k, q :: 0 <= k < |cs| && q in cs[k] ==> InBox(q, pl.box)
    ensures forall cmd :: cmd in Traces(cs, pl, axis) ==> CmdInTarget(cmd, gw, gh)
  {
    if cs != [] {
      TracesInTarget(cs[1..], pl, axis, gw, gh);
      var c := cs[0];
      var t := ContourTrace(c, pl, axis);
      forall k | 0 <= k < |c|
        ensures CmdInTarget(if k == 0 then MoveTo(Project(c[k], pl, axis)) else LineTo(Project(c[k], pl, axis)), gw, gh)
      {
        ProjectInTarget(c[k], pl, axis, gw, gh);
      }
      forall cmd | cmd in t
        ensures CmdInTarget(cmd, gw, gh)
      {
        var i :| 0 <= i < |t| && t[i] == cmd;
      }
    }
  }

  /** `draw_glyph_from_bitmap` from the traced contours on: the trace the pen
      records for a target of `gw` by `gh` (GLYPH_WIDTH by X_HEIGHT). With
      `AsWritten` it is the program's trace; with `Upright` it is the corrected
      one (see `AsWrittenIsUpsideDown`). With no contour numpy raises, and when
      every point is the same numpy yields NaN offsets. */
  function DrawGlyph(cs: seq<Contour>, gw: real, gh: real, axis: Axis): (r: Result<seq<Cmd>>)
    requires gw > 0.0 && gh > 0.0
    ensures r.Failure? ==> r.error == (if cs == [] then NoContours else DegenerateBox)
    ensures r.Success? ==> CountMoves(r.value) == |cs|
  {
    var box :- BoundingBox(cs);
    var pl :- Place(box, gw, gh);
    Success(Traces(cs, pl, axis))
  }

  /** What the pen receives: every contour, in order, one sub-path each, all
      inside the target rectangle. */
  lemma DrawGlyphTrace(cs: seq<Contour>, gw: real, gh: real, axis: Axis)
    requires gw > 0.0 && gh > 0.0
    ensures var r := DrawGlyph(cs, gw, gh, axis);
      && (r.Success? <==>
            cs != [] && (Width(BoundingBox(cs).value) != 0.0 || Height(BoundingBox(cs).value) != 0.0))
      && (r.Success? ==> forall cmd :: cmd in r.value ==> CmdInTarget(cmd, gw, gh))
  {
    var r := DrawGlyph(cs, gw, gh, axis);
    if r.Success? {
      var box := BoundingBox(cs).value;
      var pl := Place(box, gw, gh).value;
      TracesInTarget(cs, pl, axis, gw, gh);
    }
  }

  /** One contour traces as itself. */
  lemma TracesSingle(c: Contour, pl: Placement, axis: Axis)
    ensures Traces([c], pl, axis) == ContourTrace(c, pl, axis)
  {
    assert [c][1..] == [];
  }

  /** The vertical contour's commands under each axis. */
  lemma VerticalStrokeCommands()
    ensures var pl := Placement(Box(0.0, 0.0, 10.0, 0.0), 50.0, 300.0, 0.0);
      var c: Contour := [SrcPoint(0.0, 0.0), SrcPoint(10.0, 0.0)];
      && ContourTrace(c, pl, AsWritten) == [MoveTo(Point(300.0, 0.0)), LineTo(Point(300.0, 500.0))]
      && ContourTrace(c, pl, Upright) == [MoveTo(Point(300.0, 500.0)), LineTo(Point(300.0, 0.0))]
  {
    var c: Contour := [SrcPoint(0.0, 0.0), SrcPoint(10.0, 0.0)];
    assert !Closes(c);
  }

  /** Once the box and its placement are known, the glyph is their trace. */
  lemma DrawGlyphSteps(cs: seq<Contour>, gw: real, gh: real, axis: Axis, box: Box, pl: Placement)
    requires gw > 0.0 && gh > 0.0
    ensures BoundingBox(cs) == Success(box) && WellFormed(box) && Place(box, gw, gh) == Success(pl) ==>
      DrawGlyph(cs, gw, gh, axis) == Success(Traces(cs, pl, axis))
  {
  }

  /** The vertical contour is boxed and placed as `AsWrittenFlipsVerticalStroke` says. */
  lemma VerticalStrokePlaced(c: Contour, axis: Axis)
    requires c == [SrcPoint(0.0, 0.0), SrcPoint(10.0, 0.0)]
    ensures DrawGlyph([c], 600.0, 500.0, axis)
      == Success(Traces([c], Placement(Box(0.0, 0.0, 10.0, 0.0), 50.0, 300.0, 0.0), axis))
  {
    VerticalStrokeBox();
    AsWrittenFlipsVerticalStroke();
    DrawGlyphSteps([c], 600.0, 500.0, axis, Box(0.0, 0.0, 10.0, 0.0), Placement(Box(0.0, 0.0, 10.0, 0.0), 50.0, 300.0, 0.0));
  }

  /** The whole trace for the vertical contour at 600 by 500: as written the
      stroke is drawn from the bottom of the glyph up, upright from the top
      down. */
  lemma VerticalStrokeTrace(c: Contour)
    requires c == [SrcPoint(0.0, 0.0), SrcPoint(10.0, 0.0)]
    ensures DrawGlyph([c], 600.0, 500.0, AsWritten) == Success([MoveTo(Point(300.0, 0.0)), LineTo(Point(300.0, 500.0))])
    ensures DrawGlyph([c], 600.0, 500.0, Upright) == Success([MoveTo(Point(300.0, 500.0)), LineTo(Point(300.0, 0.0))])
  {
    var pl := Placement(Box(0.0, 0.0, 10.0, 0.0), 50.0, 300.0, 0.0);
    VerticalStrokePlaced(c, AsWritten);
    VerticalStrokePlaced(c, Upright);
    TracesSingle(c, pl, AsWritten);
    TracesSingle(c, pl, Upright);
    VerticalStrokeCommands();
  }
}
