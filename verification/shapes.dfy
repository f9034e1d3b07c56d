/** The two closed shapes the procedural generators draw (`draw_circle`,
    `draw_line_with_stroke`). */
module Shapes {
  import opened Pen

  /** Control-point ratio of the four-arc cubic Bezier circle. */
  const Kappa: real := 0.552284749831

  predicate OnCircle(p: Point, centre: Point, r: real) {
    SqDist(p, centre) == r * r
  }

  /** `c` lies on the tangent to the circle at `p`. */
  predicate OnTangent(c: Point, p: Point, centre: Point) {
    Dot(Sub(c, p), Sub(p, centre)) == 0.0
  }

  /** A quarter turn about `centre`, the one that takes the right-hand point
      (xc + r, yc) to (xc, yc - r). */
  function Turn(p: Point, centre: Point): Point {
    Point(centre.x + (p.y - centre.y), centre.y - (p.x - centre.x))
  }

  /** The cubic `arc`, started at `a`, is a tangent quarter arc of the circle:
      it ends on the circle and each control point lies on the tangent at its
      end of the arc, `c` away from that end and on the side facing the other
      end, so that the curve bulges along the circle and not against it. */
  predicate TangentArc(a: Point, arc: Cmd, centre: Point, r: real, c: real)
    requires arc.CurveTo?
  {
    && OnCircle(arc.end, centre, r)
    && OnTangent(arc.c1, a, centre) && OnTangent(arc.c2, arc.end, centre)
    && SqDist(arc.c1, a) == c * c && SqDist(arc.c2, arc.end) == c * c
    && Dot(Sub(arc.c1, a), Sub(arc.end, a)) >= 0.0
    && Dot(Sub(arc.c2, arc.end), Sub(a, arc.end)) >= 0.0
  }

  /** `draw_circle`: a moveTo at the right-hand point, four quarter arcs and
      a closePath. */
  function DrawCircle(xc: real, yc: real, r: real): (t: seq<Cmd>)
    ensures |t| == 6 && t[0].MoveTo? && t[5] == ClosePath
    ensures forall k :: 1 <= k <= 4 ==> t[k].CurveTo?
    ensures t[0].p == Point(xc + r, yc) && t[4].end == t[0].p
    ensures t[1].end == Point(xc, yc - r) && t[2].end == Point(xc - r, yc) && t[3].end == Point(xc, yc + r)
    ensures forall k :: 2 <= k <= 4 ==>
      && t[k].c1 == Turn(t[k - 1].c1, Point(xc, yc))
      && t[k].c2 == Turn(t[k - 1].c2, Point(xc, yc))
      && t[k].end == Turn(t[k - 1].end, Point(xc, yc))
  {
    var c := Kappa * r;
    [ MoveTo(Point(xc + r, yc)),
      CurveTo(Point(xc + r, yc - c), Point(xc + c, yc - r), Point(xc, yc - r)),
      CurveTo(Point(xc - c, yc - r), Point(xc - r, yc - c), Point(xc - r, yc)),
      CurveTo(Point(xc - r, yc + c), Point(xc - c, yc + r), Point(xc, yc + r)),
      CurveTo(Point(xc + c, yc + r), Point(xc + r, yc + c), Point(xc + r, yc)),
      ClosePath ]
  }

  /** A quarter turn keeps the differences of points up to rotation, and so
      keeps dot products. */
  lemma TurnKeepsDot(p: Point, q: Point, p': Point, q': Point, centre: Point)
    ensures Dot(Sub(Turn(p, centre), Turn(q, centre)), Sub(Turn(p', centre), Turn(q', centre)))
         == Dot(Sub(p, q), Sub(p', q'))
  {
    var u := Sub(p, q);
    var v := Sub(p', q');
    assert Sub(Turn(p, centre), Turn(q, centre)) == Point(u.y, -u.x);
    assert Sub(Turn(p', centre), Turn(q', centre)) == Point(v.y, -v.x);
  }

  lemma TurnKeepsArc(a: Point, arc: Cmd, centre: Point, r: real, c: real)
    requires arc.CurveTo? && TangentArc(a, arc, centre, r, c)
    ensures TangentArc(Turn(a, centre), CurveTo(Turn(arc.c1, centre), Turn(arc.c2, centre), Turn(arc.end, centre)), centre, r, c)
  {
    assert Turn(centre, centre) == centre;
    TurnKeepsDot(arc.end, centre, arc.end, centre, centre);
    TurnKeepsDot(arc.c1, a, a, centre, centre);
    TurnKeepsDot(arc.c2, arc.end, arc.end, centre, centre);
    TurnKeepsDot(arc.c1, a, arc.c1, a, centre);
    TurnKeepsDot(arc.c2, arc.end, arc.c2, arc.end, centre);
    TurnKeepsDot(arc.c1, a, arc.end, a, centre);
    TurnKeepsDot(arc.c2, arc.end, a, arc.end, centre);
  }

  /** Every arc ends on the circle, and its control points lie on the
      tangents at its two ends, Kappa * r away from them and pointing along
      the arc. */
  lemma CircleArcs(xc: real, yc: real, r: real)
    ensures var t := DrawCircle(xc, yc, r);
      var o := Point(xc, yc);
      && TangentArc(t[0].p, t[1], o, r, Kappa * r)
      && TangentArc(t[1].end, t[2], o, r, Kappa * r)
      && TangentArc(t[2].end, t[3], o, r, Kappa * r)
      && TangentArc(t[3].end, t[4], o, r, Kappa * r)
  {
    var t := DrawCircle(xc, yc, r);
    var o := Point(xc, yc);
    var c := Kappa * r;
    // The first arc, from (xc + r, yc) to (xc, yc - r), by hand.
    assert Sub(t[1].end, o) == Point(0.0, -r);
    assert Sub(t[0].p, o) == Point(r, 0.0);
    assert Sub(t[1].c1, t[0].p) == Point(0.0, -c);
    assert Sub(t[1].c2, t[1].end) == Point(c, 0.0);
    assert c * r == Kappa * (r * r);
    assert Dot(Sub(t[1].c1, t[0].p), Sub(t[1].end, t[0].p)) == c * r;
    assert Dot(Sub(t[1].c2, t[1].end), Sub(t[0].p, t[1].end)) == c * r;
    assert TangentArc(t[0].p, t[1], o, r, c);
    // Each further arc is the previous one turned a quarter about the centre.
    assert t[1].end == Turn(t[0].p, o);
    TurnKeepsArc(t[0].p, t[1], o, r, c);
    assert t[2] == CurveTo(Turn(t[1].c1, o), Turn(t[1].c2, o), Turn(t[1].end, o));
    TurnKeepsArc(t[1].end, t[2], o, r, c);
    assert t[3] == CurveTo(Turn(t[2].c1, o), Turn(t[2].c2, o), Turn(t[2].end, o));
    TurnKeepsArc(t[2].end, t[3], o, r, c);
    assert t[4] == CurveTo(Turn(t[3].c1, o), Turn(t[3].c2, o), Turn(t[3].end, o));
  }

  function Scale(k: real, p: Point): Point {
    Point(k * p.x, k * p.y)
  }

  /** `draw_line_with_stroke` with the perpendicular direction
      (cos(angle + pi/2), sin(angle + pi/2)) supplied as `perp`: the
      quadrilateral p1 + d, p2 + d, p2 - d, p1 - d with d = perp * width / 2. */
  function DrawLineWithStroke(p1: Point, p2: Point, width: real, perp: Point): (t: seq<Cmd>)
    ensures |t| == 5 && t[0].MoveTo? && t[1].LineTo? && t[2].LineTo? && t[3].LineTo? && t[4] == ClosePath
    ensures Mid(t[0].p, t[3].p) == p1 && Mid(t[1].p, t[2].p) == p2
    ensures Sub(t[1].p, t[0].p) == Sub(p2, p1) && Sub(t[2].p, t[3].p) == Sub(p2, p1)
    ensures Sub(t[0].p, t[3].p) == Sub(t[1].p, t[2].p) == Scale(width, perp)
  {
    var d := Scale(width / 2.0, perp);
    [ MoveTo(Add(p1, d)), LineTo(Add(p2, d)), LineTo(Sub(p2, d)), LineTo(Sub(p1, d)), ClosePath ]
  }

  /** With a unit perpendicular the quadrilateral is a rectangle of the stroke
      width around the segment. */
  lemma StrokeIsRectangle(p1: Point, p2: Point, width: real, perp: Point)
    requires Dot(perp, perp) == 1.0 && Dot(perp, Sub(p2, p1)) == 0.0
    ensures var t := DrawLineWithStroke(p1, p2, width, perp);
      && Dot(Sub(t[1].p, t[0].p), Sub(t[0].p, t[3].p)) == 0.0
      && SqDist(t[0].p, t[3].p) == width * width
      && SqDist(t[0].p, t[1].p) == SqDist(p1, p2)
  {
    var t := DrawLineWithStroke(p1, p2, width, perp);
    var v := Sub(p2, p1);
    assert Dot(v, Scale(width, perp)) == width * Dot(perp, v);
    assert Dot(Scale(width, perp), Scale(width, perp)) == width * width * Dot(perp, perp);
  }
}
