# GlyphWhisperer, modelled in Dafny

GlyphWhisperer builds glyphs in two independent ways.

Extraction and vectorisation take a glyph from a photograph or section image, in two steps:
1. **Extraction** (`glyp_ref_gen.py`). The source image is thresholded to black and white. Random `RECT_W` by `RECT_H` windows are then sampled. A window is kept only when its share of ink pixels is within `BLACK_DEV` of the share in a rendered reference glyph. The kept windows are ranked by mean absolute pixel difference from that reference, and the best one is returned.
2. **Vectorisation** (`png_to_gyph.py`, `draw_glyph_from_bitmap`). Traced contours are scaled uniformly into the glyph box (`GLYPH_WIDTH` by `X_HEIGHT`) and centred there. Each contour is then drawn as a pen path.

**Procedural glyphs** (`art_utils.py`, driven by the separate script `pof_script.py`, which shares no state with extraction) are Bézier circles and stroked lines. A character class chooses a vertical band and a base size. The generator is reseeded from the character, so every character always gets the same pattern.

The model has one module per component:
- `Results`: the result wrapper, and the errors the code raises.
- `Numbers`: Python's `int()`, `min`/`max` and clamping.
- `Random`: `randint` and `random()` over a stream of raw values.
- `Pen`: a pen trace, i.e. a sequence of moveTo/lineTo/curveTo/closePath commands.
- `Raster`: grids, ink counts and crops.
- `Preprocess`, `Sampler`, `Scorer` and `Extraction`: the steps of extraction.
- `Vectorizer`: the vectorisation step.
- `Shapes` and `Generators`: the procedural glyphs.

Every operation is a pure function, or a method with loop invariants, over exact reals and unbounded integers. An exception in Python is a `Failure` carrying the matching `Error`.

## Model

| member | source | states |
|---|---|---|
| `Random.RandInt` | glyp_ref_gen.py:50-51 | `randint(lo, hi)` succeeds exactly when `lo <= hi`. The value then lies in `[lo, hi]`. Otherwise it raises `ValueError` for that range. |
| `Random.RandIntReachesRange` | glyp_ref_gen.py:50-51 | Every value of `[lo, hi]` is drawn for some raw value, so the model rules out no window position. |
| `Random.RandFloat` | art_utils.py:79 | `random()` lies in `[0, 1)`. |
| `Random.RandFloatReachesRange` | art_utils.py:79 | Every `k / 2^53` that CPython's `random()` can return is drawn for some raw value. |
| `Numbers.Trunc` | art_utils.py:80 | `int()` of a float truncates toward zero. The result is the unique integer within 1 of `r` on the side of 0. |
| `Numbers.Clamp` | art_utils.py:183-184 | `max(lo, min(v, hi))` lies in `[lo, hi]` when that range is non-empty. It is `v` inside the range, `lo` below it and `hi` above it. |
| `Raster.RowInkIsMultiplicity` | glyp_ref_gen.py:54 | The ink count of a row is the number of cells equal to 0, i.e. the multiplicity of 0 in the row. |
| `Raster.GridInk` | glyp_ref_gen.py:54 | `np.sum(g == 0)` (also at line 31 for the reference), kept as a definition with no contract of its own. Its properties are stated by `RowInkIsMultiplicity`, `GridInkBound`, `GridInkZero`, `GridInkFull` and `InkRatio`. |
| `Raster.GridInkBound` | glyp_ref_gen.py:54 | A grid of `h` by `w` cells holds at most `h * w` ink cells. |
| `Raster.GridInkZero` | glyp_ref_gen.py:54 | The ink count is 0 exactly when no cell is 0. |
| `Raster.GridInkFull` | glyp_ref_gen.py:54 | The ink count is `h * w` exactly when every cell is 0. |
| `Raster.InkRatio` | glyp_ref_gen.py:54 | `np.sum(crop == 0) / (RECT_W * RECT_H)` lies in `[0, 1]`. It is 0 exactly when the grid has no ink, and 1 exactly when every cell is ink. |
| `Raster.Crop` | glyp_ref_gen.py:52 | `img_bin[y0:y0+RECT_H, x0:x0+RECT_W]` is an `h` by `w` grid whose cell `(i, j)` is image cell `(y0+i, x0+j)`. |
| `Preprocess.Threshold` | glyp_ref_gen.py:38-39 | The result has the input's shape and holds only 0 and 255. A cell is ink (0) exactly when its intensity over 255 is at most `TRSH`. |
| `Preprocess.ThresholdPixel` | glyp_ref_gen.py:38-39 | One pixel becomes 0 or 255, and it becomes ink (0) exactly when its intensity over 255 is at most `TRSH`. |
| `Preprocess.ThresholdMonotone` | glyp_ref_gen.py:39 | Raising the threshold never turns an ink cell back to background. |
| `Preprocess.ThresholdFixesBinary` | glyp_ref_gen.py:38-39 | Any threshold in `[0, 1)` leaves a black-and-white image unchanged. |
| `Preprocess.ThresholdIdempotent` | glyp_ref_gen.py:35-42 | Thresholding an already thresholded image again, with any threshold in `[0, 1)`, changes nothing. |
| `Sampler.Accepts` | glyp_ref_gen.py:55 | The ratio test: a window is kept unless `abs(crop_black_ratio - glyph_black_ratio) > BLACK_DEV`. Kept as a definition with no contract of its own. Its properties are stated by `AcceptedMembers`, `AcceptedWindows` and `AcceptedMonotone`. |
| `Sampler.Windows` | glyp_ref_gen.py:49-53 | The `NSAMP` candidate windows in draw order, kept as a reference definition whose only contract is its length. Its properties are stated by `WindowsInRange`, and `SelectSamples` and `Pipeline` are stated against it. |
| `Sampler.Accepted` | glyp_ref_gen.py:54-59 | The order-keeping filter of the draw loop, kept as a reference definition with no contract of its own. Its properties are stated by `AcceptedMembers`, `AcceptedWindows` and `AcceptedMonotone`, and `SelectSamples` and `Pipeline` are stated against it. |
| `Sampler.Draw` | glyp_ref_gen.py:50-52 | The i-th candidate exists exactly when the window fits the image. The column draw comes first, so its `ValueError` wins when the window is too wide; otherwise the row draw raises. When the window fits, the origin lies in the legal range, and the crop is the image cut at that origin. |
| `Sampler.AcceptedMembers` | glyp_ref_gen.py:55-59 | A window is kept exactly when it is a candidate and its ink ratio is within `BLACK_DEV` of the reference. There are never more kept windows than candidates. |
| `Sampler.AcceptedWindows` | glyp_ref_gen.py:49-59 | Of `NSAMP` candidates, at most `NSAMP` are kept. Each kept window lies inside the image and passes the ratio test. |
| `Sampler.WindowsInRange` | glyp_ref_gen.py:50-52 | Every candidate origin lies in `[0, w_img - RECT_W] x [0, h_img - RECT_H]`, and every crop is `RECT_H` by `RECT_W`. |
| `Sampler.SelectSamples` | glyp_ref_gen.py:45-64 | `select_smples` raises exactly when `NSAMP > 0` and the window is larger than the image. Otherwise it returns, in draw order, exactly the accepted candidates of the `NSAMP` draws: at most `NSAMP` of them, all in range and within `BLACK_DEV`. |
| `Sampler.AcceptedMonotone` | glyp_ref_gen.py:55 | A larger `BLACK_DEV` keeps every window a smaller one keeps, and so never keeps fewer. |
| `Scorer.RowDiff` | glyp_ref_gen.py:73 | The summed absolute difference of two rows is at most `255 * width`. It is 0 exactly when the rows are equal. |
| `Scorer.GridDiff` | glyp_ref_gen.py:73 | The summed absolute difference of two same-shaped grids is 0 exactly when they are equal. |
| `Scorer.GridDiffBound` | glyp_ref_gen.py:73 | For `h` by `w` grids, the summed difference is at most `255 * h * w`. |
| `Scorer.Score` | glyp_ref_gen.py:73 | `np.mean(np.abs(crop/255 - glyph_bin/255))` lies in `[0, 1]`. It is 0 exactly when the window equals the reference. |
| `Scorer.ScoreAll` | glyp_ref_gen.py:72-74 | There is one `(sim, crop, pos)` entry per sample, in sample order, carrying that sample's crop and origin. Its `sim` is `Score` of that crop against the reference, so it lies in `[0, 1]`. |
| `Scorer.InsertIsPermutation` | glyp_ref_gen.py:75 | Inserting an entry adds it to the list and loses nothing. |
| `Scorer.InsertKeepsSorted` | glyp_ref_gen.py:75 | Inserting into a list sorted by score keeps it sorted. |
| `Scorer.Sort` | glyp_ref_gen.py:75 | `scores.sort(key=...)` returns a permutation of its input, sorted by score. |
| `Scorer.InsertLargest` | glyp_ref_gen.py:75 | An entry scoring no lower than every entry already present goes to the end, after the entries of equal score (stability). |
| `Scorer.SortOfSorted` | glyp_ref_gen.py:75 | Sorting a list already sorted by score changes nothing. |
| `Scorer.ResortIsSortOnce` | glyp_ref_gen.py:74-75 | Appending to the sorted list and sorting again gives the same list as sorting everything appended so far, once. |
| `Scorer.FirstMin` | glyp_ref_gen.py:76-78 | Reference definition: the index of the minimal score that comes before every other entry of that score. |
| `Scorer.SortHeadIsFirstMin` | glyp_ref_gen.py:75-78 | The head of the stable sort is the earliest entry of minimal score. |
| `Scorer.BestMatch` | glyp_ref_gen.py:67-78 | With no sample, `scores[0]` raises `IndexError`. Otherwise the result is one of the scored samples, with a score in `[0, 1]`. |
| `Scorer.BestMatchIsFirstMinimum` | glyp_ref_gen.py:67-78 | The best match has the minimal score of all samples. Among samples with that score, it is the one sampled first. |
| `Scorer.ScoreAllSnoc` | glyp_ref_gen.py:72-74 | Scoring one more sample appends exactly its entry. |
| `Scorer.ComputeSimilarity` | glyp_ref_gen.py:67-78 | `compute_similarity` appends, re-sorts and takes the head on every iteration. It returns exactly the single-sort best match, and raises on an empty list. |
| `Extraction.GlyphRatio` | glyp_ref_gen.py:31 | The reference ink ratio lies in `[0, 1]`. |
| `Extraction.Pipeline` | glyp_ref_gen.py:81-94 | `pipeline` raises exactly when `NSAMP > 0` and the window does not fit (`ValueError`), or when no window is kept (`IndexError`). Otherwise it returns a kept window: inside the image, within `BLACK_DEV` of the reference ratio, and with score `Score(crop, reference)` in `[0, 1]`. When the window fits, the result is exactly `BestMatch` of the kept windows of the `NSAMP` draws, so `BestMatchIsFirstMinimum` applies: the earliest kept window of minimal score. |
| `Vectorizer.Flatten` | png_to_gyph.py:22 | `np.vstack(contours)` holds no point exactly when there is no contour. A point is in the stack exactly when it is a point of some contour. |
| `Vectorizer.FlattenContains` | png_to_gyph.py:22 | Every point of every contour is in the stacked array. |
| `Vectorizer.MinRow` | png_to_gyph.py:23 | The row minimum is at most every row and is attained. |
| `Vectorizer.MinCol` | png_to_gyph.py:23 | The column minimum is at most every column and is attained. |
| `Vectorizer.MaxRow` | png_to_gyph.py:24 | The row maximum is at least every row and is attained. |
| `Vectorizer.MaxCol` | png_to_gyph.py:24 | The column maximum is at least every column and is attained. |
| `Vectorizer.BoundingBox` | png_to_gyph.py:22-24 | With no contour numpy raises. Otherwise the box holds every traced point, and each of its four sides touches a point of some contour. |
| `Vectorizer.Place` | png_to_gyph.py:26-35 | Fails exactly when both extents are 0. Otherwise: the scale is positive; the scaled box fits the `GLYPH_WIDTH` by `X_HEIGHT` target and fills it along at least one side; the offsets centre it. |
| `Vectorizer.MapAsWritten` | png_to_gyph.py:38-41 | The program's point mapping, kept as a reference definition with no contract of its own: column to x and row to y, each `(v - min) * scale + offset`. The `AsWritten` lemmas state its properties. |
| `Vectorizer.AsWrittenIsUpsideDown` | png_to_gyph.py:38-41 | As written, a point higher in the image lands lower in the glyph. |
| `Vectorizer.AsWrittenFlipsVerticalStroke` | png_to_gyph.py:22-41 | A concrete two-point vertical contour at 600 by 500: its top end is drawn at y = 0 and its bottom end at y = 500. |
| `Vectorizer.AsWrittenInTarget` | png_to_gyph.py:32-41 | Every traced point lands inside `[0, GLYPH_WIDTH] x [0, X_HEIGHT]`. |
| `Vectorizer.AsWrittenCentres` | png_to_gyph.py:34-41 | The corner with the smallest row and column lands at `(x_off, y_off)`, and the opposite corner at the target size minus the offsets, so the glyph is centred. |
| `Vectorizer.AsWrittenPreservesAspect` | png_to_gyph.py:32-41 | One scale for both axes: every displacement is scaled by `scale`. The mapped corners span the box's width and height times `scale`, so the glyph keeps the traced width-to-height ratio, and it fills at least one side of the target. |
| `Vectorizer.AsWrittenInvertible` | png_to_gyph.py:38-41 | The traced point is recovered from its image, so no two points merge. |
| `Vectorizer.Map` | png_to_gyph.py:38-41 | The corrected, upright mapping, kept as a definition with no contract of its own: y is `(max_y - row) * scale + y_off`. The `Map` lemmas state its properties. |
| `Vectorizer.MapMirrorsAsWritten` | png_to_gyph.py:38-41 | The upright map keeps x and mirrors y about the middle of the target (`y' = X_HEIGHT - y`). |
| `Vectorizer.MapIsUpright` | png_to_gyph.py:38-41 | With the upright map, a point higher in the image lands higher in the glyph. |
| `Vectorizer.MapInTarget` | png_to_gyph.py:32-41 | The upright map also keeps every traced point inside the target. |
| `Vectorizer.MapCentres` | png_to_gyph.py:34-41 | Upright, the box's top-left corner lands at `(x_off, X_HEIGHT - y_off)` and its bottom-right corner at `(GLYPH_WIDTH - x_off, y_off)`. |
| `Vectorizer.MapPreservesAspect` | png_to_gyph.py:32-41 | Upright, x displacements scale by `scale` and y displacements by `-scale`. The mapped corners span the box's width and height times `scale`, and the glyph fills at least one side of the target. |
| `Vectorizer.MapInvertible` | png_to_gyph.py:38-41 | The upright map is invertible too. |
| `Vectorizer.Closes` | png_to_gyph.py:47 | The closing test, with no contract of its own: the squared end-to-end distance is below 1. |
| `Vectorizer.ClosesIsNormTest` | png_to_gyph.py:47 | For the non-negative distance `d` between the end points, `Closes` holds exactly when `np.linalg.norm(c[0] - c[-1]) < 1.0`, i.e. `d < 1`. |
| `Vectorizer.ContourTrace` | png_to_gyph.py:43-48 | A contour is drawn as a moveTo to its first point and a lineTo for each further point, in order, through the chosen map (`AsWritten` is the program's). A closePath is added exactly when its end points are less than one pixel apart. |
| `Vectorizer.ContourTraceMoves` | png_to_gyph.py:43-48 | Each contour starts exactly one sub-path. |
| `Vectorizer.Traces` | png_to_gyph.py:37-48 | The glyph starts one sub-path per contour. |
| `Vectorizer.TracesAppend` | png_to_gyph.py:37 | The trace of a list of contours is the trace of its first part followed by the trace of the rest, so no contour is dropped or reordered. |
| `Vectorizer.TracesInTarget` | png_to_gyph.py:37-48 | Under either map, every command's coordinates lie inside the target rectangle. |
| `Vectorizer.DrawGlyph` | png_to_gyph.py:22-48 | `draw_glyph_from_bitmap` from the contours on; with `AsWritten` it is the program's trace. It raises `ValueError` with no contour and fails on a single-point box (NaN in numpy), and otherwise starts one sub-path per contour. |
| `Vectorizer.DrawGlyphTrace` | png_to_gyph.py:22-48 | Drawing succeeds exactly when there is a contour and the box is not a single point. Every command then lies inside the target. |
| `Vectorizer.VerticalStrokeTrace` | png_to_gyph.py:22-48 | For the vertical contour at 600 by 500, the program's pen receives `moveTo((300, 0))`, `lineTo((300, 500))`; the upright trace is the reverse. |
| `Shapes.DrawCircle` | art_utils.py:6-42 | A moveTo at `(xc + r, yc)`, four curveTos and a closePath. The quadrants end at `(xc, yc - r)`, `(xc - r, yc)`, `(xc, yc + r)` and back at the start. Each quadrant is the previous one turned a quarter about the centre. |
| `Shapes.TurnKeepsDot` | art_utils.py:9-40 | A quarter turn about the centre preserves dot products of differences. |
| `Shapes.TurnKeepsArc` | art_utils.py:9-40 | A quarter turn maps a tangent Bézier arc of the circle to another one. |
| `Shapes.CircleArcs` | art_utils.py:9-40 | Every quadrant starts and ends on the circle of radius `r`. Its control points lie on the tangents at those ends, at distance `0.552284749831 * r`, each on the side facing the arc's other end. |
| `Shapes.DrawLineWithStroke` | art_utils.py:89-129 | A moveTo, three lineTos and a closePath. The corners' midpoints are the two end points, the long sides are the segment, and the short sides are `stroke_width` times the perpendicular. |
| `Shapes.StrokeIsRectangle` | art_utils.py:100-123 | With a unit perpendicular, the quadrilateral is a rectangle whose sides are the segment's length and the stroke width. |
| `Generators.AsciiClasses` | art_utils.py:50-65 | For ASCII the classes are exactly the upper-case letters, the lower-case letters, the digits, and everything else. |
| `Generators.ClassOf` | art_utils.py:50-65 | Upper-case is checked first, then lower-case, then digit: a letter is never a digit or a symbol, and a digit class means a non-letter digit. |
| `Generators.BandOf` | art_utils.py:49-65 | Every class's band starts at row 100 or higher. |
| `Generators.DefaultBands` | utils.py:8-17 | With the font's metrics (600, 500, 700) every band is non-empty and every base size positive, so no draw can fail. |
| `Generators.Radius` | art_utils.py:79-83 | The radius is at most 200. For a non-negative base it lies between `0.5 * base` and `1.5 * base`, up to the truncation. |
| `Generators.Seed` | art_utils.py:69-70 | `ord(char) * 1000`, the seed of both generators (again at lines 162-163), kept as a definition with no contract of its own. Its properties are stated by `MultiCircleDeterministic` and `StrokedLinesGlyphDeterministic`. |
| `Generators.Circles` | art_utils.py:73-86 | The pen output of the circle loop, kept as a definition with no contract of its own. Its properties are stated by `CirclesLayout`, `CirclesDeterministic` and `MultiCircleGlyph`. |
| `Generators.CircleFrom` | art_utils.py:75-83 | A circle is placed exactly when `GLYPH_WIDTH >= 200` and the band is non-empty. Its centre lies in `[100, GLYPH_WIDTH - 100] x [y_min, y_max]`. |
| `Generators.DrawnCirclesSpec` | art_utils.py:67-86 | All `num_circles` circles are drawn exactly when `num_circles` is 0 or both ranges are non-empty. Circle i comes from draws `3i` to `3i+2` after the seed. |
| `Generators.CirclesLayout` | art_utils.py:73-86 | The glyph has six commands per circle, and block i is circle i's Bézier circle. |
| `Generators.CirclesDeterministic` | art_utils.py:67-86 | The circles depend on the generator only through the stream of the seed. |
| `Generators.MultiCircleGlyph` | art_utils.py:46-86 | `create_multi_circle_glyph` succeeds exactly when `num_circles` is 0 or both ranges are non-empty, which always holds with the font's metrics. Its trace has six commands per circle. |
| `Generators.MultiCircleDeterministic` | art_utils.py:46-86 | Two generators that agree on the stream of `ord(char) * 1000` give the same glyph. The reseed itself is built into the `Seeded` type, a stream per seed; so "whatever was drawn before" holds by that modelling choice, and the lemma adds only that nothing but that seed's stream is read. |
| `Generators.StrokeWidth` | art_utils.py:187-188 | For a non-negative base the stroke width lies between `0.6 * base` and `1.4 * base`, up to the truncation. |
| `Generators.EndCoord` | art_utils.py:179-184 | The clamped end coordinate lies in `[20, hi]`. |
| `Generators.StrokeFrom` | art_utils.py:170-191 | A line exists exactly when the band is non-empty. Its start lies in `[50, 550] x [y_min, y_max]`, its end x in `[20, 580]`, and its end y in `[20, y_max]`. |
| `Generators.DrawnStrokesSpec` | art_utils.py:160-191 | All `num_lines` lines are drawn exactly when `num_lines` is 0 or the band is non-empty. Line i comes from draws `5i` to `5i+4` after the seed. |
| `Generators.StrokedLines` | art_utils.py:169-191 | The pen output of the line loop, kept as a definition with no contract of its own. Its properties are stated by `StrokedLinesLayout`, `StrokedLinesDeterministic` and `StrokedLinesGlyph`. |
| `Generators.StrokedLinesLayout` | art_utils.py:169-191 | The glyph has five commands per line, and block i is line i's quadrilateral. |
| `Generators.StrokedLinesDeterministic` | art_utils.py:160-191 | The lines depend on the generator only through the stream of the seed. |
| `Generators.StrokedLinesGlyph` | art_utils.py:132-191 | `create_random_stroked_lines_glyph` succeeds exactly when `num_lines` is 0 or the band is non-empty, which always holds with the font's metrics. Its trace has five commands per line. |
| `Generators.StrokedLinesGlyphDeterministic` | art_utils.py:132-191 | Two generators that agree on the stream of `ord(char) * 1000` give the same glyph. As for circles, the reseed is built into `Seeded`, and the lemma adds only that nothing but that seed's stream is read. |

## Left out

- Font rendering in `render_glyph` (glyp_ref_gen.py:8-30) is not modelled. PIL's font rasteriser is a foreign library, so the reference mask is an input; only its ink ratio (line 31) is modelled.
- Image loading, saving, printing and directory creation are not modelled. These are I/O outside the computation (glyp_ref_gen.py:40, 61-63, 68-69, 77). The load at glyp_ref_gen.py:37, `Image.open(...).convert("L")`, produces the greyscale pixels that the model takes as its input image `img`.
- `imread` and `measure.find_contours` (png_to_gyph.py:18-19) are not modelled. They are foreign code, so the traced contours are an input. The tracer never returns an empty contour; the `Contour` type carries that guarantee.
- The Mersenne Twister is not modelled. Each `randint`/`random()` call is one raw value from a stream, and `randint(lo, hi) = lo + raw mod (hi - lo + 1)`. CPython's rejection sampling may use several 32-bit words per call; the call index abstracts over that. The generators' reseeding is a stream indexed by seed and call number.
- Extraction never calls `random.seed`, so the window draws of one character continue the global generator from the characters before it. The model takes those draws as the stream `draw`, with no claim about which values come out. The procedural generators differ: each reseeds with `ord(char) * 1000` first, which `Seeded` builds in.
- `random.uniform(0, 2 pi)`, `cos`, `sin` and `atan2` are function inputs (`Generators.Trig`), because transcendental functions have no exact model over the reals.
- IEEE floating point is not modelled. Arithmetic is exact over the reals. `int()` truncation is modelled. When every traced point is the same, numpy's `inf`/NaN offsets become a `DegenerateBox` failure. When only one extent is 0, its infinite ratio loses `min` to the other, as in numpy.
- Unicode `isupper`/`islower`/`isalpha`/`isdigit` are an input (`CharProps`); `AsciiProps` gives the answers for ASCII only.
- utils.py (font set-up, required glyphs, UFO/OTF writing), pof_script.py, and the module-level driver loops (glyp_ref_gen.py:97-117, png_to_gyph.py:51-65) are not modelled. They are configuration and I/O around the core.
- Empty contour lists and empty sample lists raise in the code: `np.vstack([])` raises `ValueError`, and `scores[0]` on an empty list raises `IndexError`. The model makes both a `Failure`. The driver loops (glyp_ref_gen.py:113-117, png_to_gyph.py:54-62) do not catch these exceptions, so one such character ends the whole run.
- `Sampler.ValidParams` requires positive window sizes: `RECT_W * RECT_H` is a divisor in glyp_ref_gen.py:54, and the configuration at glyp_ref_gen.py:102 never uses a zero window.
- `Vectorizer.Closes` compares the squared distance with 1 instead of the norm; `ClosesIsNormTest` shows the two tests agree.
- `Extraction.GlyphRatio` states only the range of the ratio; its exact value is `Raster.InkRatio` of the reference, whose contract gives the rest.
- `Generators.BandOf` states only the bound common to all bands; the per-class values are the table at art_utils.py:49-65 and 142-158, which `DefaultBands` checks for the font's metrics.

## Findings

| source | as written | input that shows it | evidently intended | confidence | as-written member | corrected member |
|---|---|---|---|---|---|---|
| png_to_gyph.py:38-41 | `y = (row - min_y) * scale + y_off`: the image row, which grows downwards, becomes the font's y, which grows upwards, so every glyph is drawn upside down | a vertical contour from row 0 to row 10 at 600 by 500: the pen receives `moveTo((300, 0))`, `lineTo((300, 500))`, so its top end goes to y = 0 and its bottom end to y = 500 | `y = (max_y - row) * scale + y_off`, keeping the image's top at the top of the glyph | medium, not executed | `Vectorizer.AsWrittenIsUpsideDown` | `Vectorizer.MapIsUpright` |

`Vectorizer.MapAsWritten` is the code as written, and `Vectorizer.DrawGlyph` with `AsWritten` is the program's trace. `Vectorizer.AsWrittenFlipsVerticalStroke` and `Vectorizer.VerticalStrokeTrace` give the concrete input above. `Vectorizer.Map` is the corrected map, used by `Vectorizer.DrawGlyph` with `Upright`. `Vectorizer.MapMirrorsAsWritten` shows that the two maps differ only by the mirror `y' = X_HEIGHT - y`.
