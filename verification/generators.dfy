/** The procedural glyph generators (`create_multi_circle_glyph`,
    `create_random_stroked_lines_glyph`): a character class picks a vertical
    band and a base size, and the generator, reseeded from the character,
    places its shapes with random draws. */
module Generators {
  import opened Results
  import opened Numbers
  import opened Random
  import opened Pen
  import opened Shapes

  /** The font metrics the generators read. */
  datatype Config = Config(glyphWidth: int, xHeight: int, capHeight: int)

  /** The metrics the font is set up with. */
  const Defaults: Config := Config(600, 500, 700)

  datatype CharClass = Upper | Lower | Digit | Symbol

  /** What Python's `isupper`, `islower`, `isalpha` and `isdigit` report for a
      character. Unicode's tables are not modelled; `AsciiProps` gives the
      answers for ASCII. */
  datatype CharProps = CharProps(isUpper: bool, isLower: bool, isAlpha: bool, isDigit: bool)

  function AsciiProps(c: char): CharProps {
    CharProps('A' <= c <= 'Z', 'a' <= c <= 'z', 'A' <= c <= 'Z' || 'a' <= c <= 'z', '0' <= c <= '9')
  }

  /** Uppercase is checked first, then lowercase, then digit: a letter is
      never a digit or a symbol, and only a non-letter digit is a digit. */
  function ClassOf(p: CharProps): (cls: CharClass)
    ensures cls == Upper ==> p.isUpper && p.isAlpha
    ensures cls == Lower ==> p.isLower && p.isAlpha
    ensures (cls == Upper || cls == Lower) <==> p.isAlpha && (p.isUpper || p.isLower)
    ensures cls == Digit <==> p.isDigit && !(p.isAlpha && (p.isUpper || p.isLower))
  {
    if p.isUpper && p.isAlpha then Upper
    else if p.isLower && p.isAlpha then Lower
    else if p.isDigit then Digit
    else Symbol
  }

  /** For ASCII the classes are the letter ranges and the digit range;
      everything else is a symbol. */
  lemma AsciiClasses(c: char)
    ensures ClassOf(AsciiProps(c)) == Upper <==> 'A' <= c <= 'Z'
    ensures ClassOf(AsciiProps(c)) == Lower <==> 'a' <= c <= 'z'
    ensures ClassOf(AsciiProps(c)) == Digit <==> '0' <= c <= '9'
    ensures ClassOf(AsciiProps(c)) == Symbol <==> !('A' <= c <= 'Z' || 'a' <= c <= 'z' || '0' <= c <= '9')
  {
  }

  /** Vertical band, base radius (circles) and base stroke (lines) of a class. */
  datatype Band = Band(yMin: int, yMax: int, baseRadius: real, baseStroke: int)

  function BandOf(cls: CharClass, cfg: Config): (b: Band)
    ensures 100 <= b.yMin
  {
    match cls
    case Upper => Band(200, cfg.capHeight, cfg.capHeight as real / 5.0, 25)
    case Lower => Band(100, cfg.xHeight, cfg.xHeight as real / 5.0, 20)
    case Digit => Band(150, 650, 100.0, 22)
    case Symbol => Band(150, 550, 80.0, 18)
  }

  /** With the font's own metrics every band is non-empty and every base size
      positive, so no draw of a generator can fail. */
  lemma DefaultBands(cls: CharClass)
    ensures var b := BandOf(cls, Defaults);
      b.yMin < b.yMax && b.baseRadius > 0.0 && b.baseStroke > 0
  {
  }

  /** `random.seed(ord(char) * 1000)`, done afresh by each generator. */
  function Seed(c: char): int {
    (c as int) * 1000
  }

  // ---------------------------------------------------------------------
  // Circles
  // ---------------------------------------------------------------------

  datatype Circle = Circle(xc: int, yc: int, radius: int)

  /** `base * variance` for a variance in [lo, hi]. */
  function Scaled(base: real, variance: real, lo: real, hi: real): (s: real)
    requires lo <= variance <= hi
    ensures s == base * variance
    ensures base >= 0.0 ==> base * lo <= s <= base * hi
  {
    assert base * variance - base * lo == base * (variance - lo);
    assert base * hi - base * variance == base * (hi - variance);
    base * variance
  }

  /** `min(int(base_radius * (0.5 + random.random())), 200)`: at most 200,
      and otherwise between half and one and a half times the base radius,
      up to the truncation. */
  function Radius(base: real, raw: nat): (radius: int)
    ensures radius <= 200
    ensures base >= 0.0 ==> 0 <= radius && radius as real <= base * 1.5
    ensures base >= 0.0 && radius < 200 ==> base * 0.5 < radius as real + 1.0
  {
    MinInt(Trunc(Scaled(base, 0.5 + RandFloat(raw), 0.5, 1.5)), 200)
  }

  /** Circle i of the loop in `create_multi_circle_glyph` (art_utils.py:73-86),
      from the three raw draws it uses. */
  function CircleFrom(cfg: Config, b: Band, rx: nat, ry: nat, rr: nat): (r: Result<Circle>)
    ensures r.Success? <==> 200 <= cfg.glyphWidth && b.yMin <= b.yMax
    ensures r.Success? ==> 100 <= r.value.xc <= cfg.glyphWidth - 100 && b.yMin <= r.value.yc <= b.yMax
    ensures r.Success? ==> r.value.radius == Radius(b.baseRadius, rr)
  {
    var xc :- RandInt(100, cfg.glyphWidth - 100, rx);
    var yc :- RandInt(b.yMin, b.yMax, ry);
    Success(Circle(xc, yc, Radius(b.baseRadius, rr)))
  }

  /** Circle i uses calls 3i, 3i+1 and 3i+2 after the seed. */
  function CircleAt(cfg: Config, b: Band, mt: Seeded, seed: int, i: nat): Result<Circle> {
    CircleFrom(cfg, b, mt(seed, 3 * i), mt(seed, 3 * i + 1), mt(seed, 3 * i + 2))
  }

  function CircleTrace(c: Circle): (t: seq<Cmd>)
    ensures |t| == 6
  {
    DrawCircle(c.xc as real, c.yc as real, c.radius as real)
  }

  /** The first n circles of the loop, in drawing order. */
  function DrawnCircles(cfg: Config, b: Band, mt: Seeded, seed: int, n: nat): Result<seq<Circle>> {
    Collect(i => CircleAt(cfg, b, mt, seed, i), n)
  }

  /** Each circle is drawn as soon as it is placed; placing draws nothing on
      the pen, so the trace is the circles' traces one after the other. */
  function Circles(cfg: Config, b: Band, mt: Seeded, seed: int, n: nat): Result<seq<Cmd>> {
    var cs :- DrawnCircles(cfg, b, mt, seed, n);
    Success(Join(seq(|cs|, i requires 0 <= i < |cs| => CircleTrace(cs[i]))))
  }

  /** `create_multi_circle_glyph` (num_circles defaults to 3): six commands
      per circle. It raises only when a range is empty, which the font's own
      metrics rule out. */
  function MultiCircleGlyph(c: char, props: CharProps, cfg: Config, mt: Seeded, n: nat): (r: Result<seq<Cmd>>)
    ensures var b := BandOf(ClassOf(props), cfg);
      r.Success? <==> n == 0 || (200 <= cfg.glyphWidth && b.yMin <= b.yMax)
    ensures r.Success? ==> |r.value| == 6 * n
    ensures cfg == Defaults ==> r.Success?
  {
    var b := BandOf(ClassOf(props), cfg);
    DrawnCirclesSpec(cfg, b, mt, Seed(c), n);
    CirclesLayout(cfg, b, mt, Seed(c), n);
    DefaultBands(ClassOf(props));
    Circles(cfg, b, mt, Seed(c), n)
  }

  /** Every circle is drawn exactly when the x range and the band are
      non-empty, and circle i comes from draws 3i to 3i+2. */
  lemma DrawnCirclesSpec(cfg: Config, b: Band, mt: Seeded, seed: int, n: nat)
    ensures DrawnCircles(cfg, b, mt, seed, n).Success? <==> n == 0 || (200 <= cfg.glyphWidth && b.yMin <= b.yMax)
    ensures var r := DrawnCircles(cfg, b, mt, seed, n);
      r.Success? ==> |r.value| == n && forall i :: 0 <= i < n ==> CircleAt(cfg, b, mt, seed, i) == Success(r.value[i])
  {
    CollectSpec(i => CircleAt(cfg, b, mt, seed, i), n);
    if n > 0 {
      assert CircleAt(cfg, b, mt, seed, 0).Success? <==> 200 <= cfg.glyphWidth && b.yMin <= b.yMax;
    }
  }

  /** The trace holds exactly six commands per drawn circle, block i being
      the Bezier circle of circle i. */
  lemma CirclesLayout(cfg: Config, b: Band, mt: Seeded, seed: int, n: nat)
    ensures Circles(cfg, b, mt, seed, n).Success? <==> DrawnCircles(cfg, b, mt, seed, n).Success?
    ensures var d := DrawnCircles(cfg, b, mt, seed, n);
      d.Success? ==>
        var t := Circles(cfg, b, mt, seed, n).value;
        && |t| == 6 * |d.value|
        && forall i :: 0 <= i < |d.value| ==> 6 * i + 6 <= |t| && t[6 * i..6 * i + 6] == CircleTrace(d.value[i])
  {
    var d := DrawnCircles(cfg, b, mt, seed, n);
    if d.Success? {
      var blocks := seq(|d.value|, i requires 0 <= i < |d.value| => CircleTrace(d.value[i]));
      JoinLayout(blocks, 6);
    }
  }

  lemma CircleAtDeterministic(cfg: Config, b: Band, mt: Seeded, mt': Seeded, seed: int, i: nat)
    requires forall k :: mt(seed, k) == mt'(seed, k)
    ensures CircleAt(cfg, b, mt, seed, i) == CircleAt(cfg, b, mt', seed, i)
  {
    assert mt(seed, 3 * i) == mt'(seed, 3 * i);
    assert mt(seed, 3 * i + 1) == mt'(seed, 3 * i + 1);
    assert mt(seed, 3 * i + 2) == mt'(seed, 3 * i + 2);
  }

  /** The circles depend on the generator only through the stream of the seed
      they were given: whatever was drawn before, the same seed yields the same
      trace. */
  lemma CirclesDeterministic(cfg: Config, b: Band, mt: Seeded, mt': Seeded, seed: int, n: nat)
    requires forall k :: mt(seed, k) == mt'(seed, k)
    ensures DrawnCircles(cfg, b, mt, seed, n) == DrawnCircles(cfg, b, mt', seed, n)
    ensures Circles(cfg, b, mt, seed, n) == Circles(cfg, b, mt', seed, n)
  {
    forall i | 0 <= i < n
      ensures CircleAt(cfg, b, mt, seed, i) == CircleAt(cfg, b, mt', seed, i)
    {
      CircleAtDeterministic(cfg, b, mt, mt', seed, i);
    }
    CollectCongruent(i => CircleAt(cfg, b, mt, seed, i), i => CircleAt(cfg, b, mt', seed, i), n);
  }

  /** Same character and same stream for its seed give an identical trace. */
  lemma MultiCircleDeterministic(c: char, props: CharProps, cfg: Config, mt: Seeded, mt': Seeded, n: nat)
    requires forall k :: mt(Seed(c), k) == mt'(Seed(c), k)
    ensures MultiCircleGlyph(c, props, cfg, mt, n) == MultiCircleGlyph(c, props, cfg, mt', n)
  {
    CirclesDeterministic(cfg, BandOf(ClassOf(props), cfg), mt, mt', Seed(c), n);
  }

  // ---------------------------------------------------------------------
  // Stroked lines
  // ---------------------------------------------------------------------

  /** The generator's own glyph width (art_utils.py:166), not the configured one. */
  const LineGlyphWidth: int := 600

  /** The trigonometry the line generator needs: `polar(raw)` is
      (cos a, sin a) for the angle `random.uniform(0, 2 pi)` draws from `raw`,
      and `perp(dx, dy)` is (cos, sin) of atan2(dy, dx) + pi/2. */
  datatype Trig = Trig(polar: nat -> Point, perp: (real, real) -> Point)

  datatype Stroke = Stroke(x1: int, y1: int, x2: int, y2: int, width: int, perp: Point)

  /** `int(base_stroke * (0.6 + random.random() * 0.8))`: between 0.6 and
      1.4 times the base stroke, up to the truncation. */
  function StrokeWidth(base: int, raw: nat): (width: int)
    ensures base >= 0 ==> 0 <= width && width as real <= base as real * 1.4
    ensures base >= 0 ==> base as real * 0.6 < width as real + 1.0
  {
    var u := RandFloat(raw);
    var variance := 0.6 + u * 0.8;
    Trunc(Scaled(base as real, variance, 0.6, 1.4))
  }

  /** `int(start + length * trig)` clamped by `max(20, min(end, hi))`. */
  function EndCoord(start: int, length: int, trig: real, hi: int): (e: int)
    ensures 20 <= hi ==> 20 <= e <= hi
  {
    Clamp(20, Trunc(start as real + length as real * trig), hi)
  }

  /** Line i of the loop in `create_random_stroked_lines_glyph`
      (art_utils.py:169-191), from the five raw draws it uses.
      `randint(50, 550)` and `randint(100, 400)` cannot fail. */
  function StrokeFrom(b: Band, trig: Trig, r0: nat, r1: nat, r2: nat, r3: nat, r4: nat): (r: Result<Stroke>)
    ensures r.Success? <==> b.yMin <= b.yMax
    ensures r.Success? ==> 50 <= r.value.x1 <= LineGlyphWidth - 50 && b.yMin <= r.value.y1 <= b.yMax
    ensures r.Success? ==> 20 <= r.value.x2 <= LineGlyphWidth - 20
    ensures r.Success? && 20 <= b.yMax ==> 20 <= r.value.y2 <= b.yMax
    ensures r.Success? ==> r.value.width == StrokeWidth(b.baseStroke, r4)
  {
    var x1 := RandInt(50, LineGlyphWidth - 50, r0).value;
    var y1 :- RandInt(b.yMin, b.yMax, r1);
    var length := RandInt(100, 400, r2).value;
    var dir := trig.polar(r3);
    var x2 := EndCoord(x1, length, dir.x, LineGlyphWidth - 20);
    var y2 := EndCoord(y1, length, dir.y, b.yMax);
    var width := StrokeWidth(b.baseStroke, r4);
    Success(Stroke(x1, y1, x2, y2, width, trig.perp((x2 - x1) as real, (y2 - y1) as real)))
  }

  /** Line i uses calls 5i to 5i+4 after the seed. */
  function StrokeAt(b: Band, mt: Seeded, seed: int, trig: Trig, i: nat): Result<Stroke> {
    StrokeFrom(b, trig, mt(seed, 5 * i), mt(seed, 5 * i + 1), mt(seed, 5 * i + 2), mt(seed, 5 * i + 3), mt(seed, 5 * i + 4))
  }

  function StrokeTrace(s: Stroke): (t: seq<Cmd>)
    ensures |t| == 5
  {
    DrawLineWithStroke(Point(s.x1 as real, s.y1 as real), Point(s.x2 as real, s.y2 as real), s.width as real, s.perp)
  }

  /** The first n lines of the loop, in drawing order. */
  function DrawnStrokes(b: Band, mt: Seeded, seed: int, trig: Trig, n: nat): Result<seq<Stroke>> {
    Collect(i => StrokeAt(b, mt, seed, trig, i), n)
  }

  function StrokedLines(b: Band, mt: Seeded, seed: int, trig: Trig, n: nat): Result<seq<Cmd>> {
    var ss :- DrawnStrokes(b, mt, seed, trig, n);
    Success(Join(seq(|ss|, i requires 0 <= i < |ss| => StrokeTrace(ss[i]))))
  }

  /** `create_random_stroked_lines_glyph` (num_lines defaults to 4): five
      commands per line. It raises only when the band is empty, which the
      font's own metrics rule out. */
  function StrokedLinesGlyph(c: char, props: CharProps, cfg: Config, mt: Seeded, trig: Trig, n: nat): (r: Result<seq<Cmd>>)
    ensures var b := BandOf(ClassOf(props), cfg);
      r.Success? <==> n == 0 || b.yMin <= b.yMax
    ensures r.Success? ==> |r.value| == 5 * n
    ensures cfg == Defaults ==> r.Success?
  {
    var b := BandOf(ClassOf(props), cfg);
    DrawnStrokesSpec(b, mt, Seed(c), trig, n);
    StrokedLinesLayout(b, mt, Seed(c), trig, n);
    DefaultBands(ClassOf(props));
    StrokedLines(b, mt, Seed(c), trig, n)
  }

  /** Every line is drawn exactly when the band is non-empty, and line i
      comes from draws 5i to 5i+4. */
  lemma DrawnStrokesSpec(b: Band, mt: Seeded, seed: int, trig: Trig, n: nat)
    ensures DrawnStrokes(b, mt, seed, trig, n).Success? <==> n == 0 || b.yMin <= b.yMax
    ensures var r := DrawnStrokes(b, mt, seed, trig, n);
      r.Success? ==> |r.value| == n && forall i :: 0 <= i < n ==> StrokeAt(b, mt, seed, trig, i) == Success(r.value[i])
  {
    CollectSpec(i => StrokeAt(b, mt, seed, trig, i), n);
    if n > 0 {
      assert StrokeAt(b, mt, seed, trig, 0).Success? <==> b.yMin <= b.yMax;
    }
  }

  /** Five commands per drawn line, block i being the quadrilateral of
      line i. */
  lemma StrokedLinesLayout(b: Band, mt: Seeded, seed: int, trig: Trig, n: nat)
    ensures StrokedLines(b, mt, seed, trig, n).Success? <==> DrawnStrokes(b, mt, seed, trig, n).Success?
    ensures var d := DrawnStrokes(b, mt, seed, trig, n);
      d.Success? ==>
        var t := StrokedLines(b, mt, seed, trig, n).value;
        && |t| == 5 * |d.value|
        && forall i :: 0 <= i < |d.value| ==> 5 * i + 5 <= |t| && t[5 * i..5 * i + 5] == StrokeTrace(d.value[i])
  {
    var d := DrawnStrokes(b, mt, seed, trig, n);
    if d.Success? {
      var blocks := seq(|d.value|, i requires 0 <= i < |d.value| => StrokeTrace(d.value[i]));
      JoinLayout(blocks, 5);
    }
  }

  lemma StrokeAtDeterministic(b: Band, mt: Seeded, mt': Seeded, seed: int, trig: Trig, i: nat)
    requires forall k :: mt(seed, k) == mt'(seed, k)
    ensures StrokeAt(b, mt, seed, trig, i) == StrokeAt(b, mt', seed, trig, i)
  {
    assert mt(seed, 5 * i) == mt'(seed, 5 * i);
    assert mt(seed, 5 * i + 1) == mt'(seed, 5 * i + 1);
    assert mt(seed, 5 * i + 2) == mt'(seed, 5 * i + 2);
    assert mt(seed, 5 * i + 3) == mt'(seed, 5 * i + 3);
    assert mt(seed, 5 * i + 4) == mt'(seed, 5 * i + 4);
  }

  /** Likewise for the lines. */
  lemma StrokedLinesDeterministic(b: Band, mt: Seeded, mt': Seeded, seed: int, trig: Trig, n: nat)
    requires forall k :: mt(seed, k) == mt'(seed, k)
    ensures DrawnStrokes(b, mt, seed, trig, n) == DrawnStrokes(b, mt', seed, trig, n)
    ensures StrokedLines(b, mt, seed, trig, n) == StrokedLines(b, mt', seed, trig, n)
  {
    forall i | 0 <= i < n
      ensures StrokeAt(b, mt, seed, trig, i) == StrokeAt(b, mt', seed, trig, i)
    {
      StrokeAtDeterministic(b, mt, mt', seed, trig, i);
    }
    CollectCongruent(i => StrokeAt(b, mt, seed, trig, i), i => StrokeAt(b, mt', seed, trig, i), n);
  }

  /** Same character and same stream for its seed give an identical trace,
      however many values were drawn from the generator before the reseed. */
  lemma StrokedLinesGlyphDeterministic(c: char, props: CharProps, cfg: Config, mt: Seeded, mt': Seeded, trig: Trig, n: nat)
    requires forall k :: mt(Seed(c), k) == mt'(Seed(c), k)
    ensures StrokedLinesGlyph(c, props, cfg, mt, trig, n) == StrokedLinesGlyph(c, props, cfg, mt', trig, n)
  {
    StrokedLinesDeterministic(BandOf(ClassOf(props), cfg), mt, mt', Seed(c), trig, n);
  }
}
