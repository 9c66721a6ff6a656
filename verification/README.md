# fontdone: integer geometry and the compression fixtures, verified

This project models the integer core of `fontdone`, a Rust port of FreeType, in Dafny and proves what its code is meant to achieve:

- **The smooth rasterizer** (`src/grays.rs`). A `Worker` flattens tagged contours, walks every line cell by cell, accumulates cover and area in sorted scanlines and sweeps them into bytes or spans. The end result is one statement: every byte of a rendered bitmap is the fill rule of the signed trapezoid area that the flattened, cell-rounded outline has in the pixel, in 32-bit arithmetic, and nothing else is written. In the outline's own coordinates: a rectangle shows its overlap with each pixel, a translation by whole pixels moves the image, and the drawn path and the exact lines, conics and cubics stay within a fraction of a pixel of each other.
- **Outline and bitmap synthesis** (`src/api.rs`). The three-cursor emboldening walk and where every point ends up, outline reversal and orientation, and in-place emboldening of gray and packed mono bitmaps as dilations.
- **Fixed-point arithmetic** (`src/fixed.rs`). Rounding products and quotients, CORDIC rotation with its angle, its gain and its direction, unit vectors of any angle, angle differences, and the integer Newton iteration behind vector normalization.
- **Unix-compress data** (`scripts/build_compressed_fixtures.py` and the decoder in `src/ffi/handles.rs`). The decoder returns what a word-table specification says for every input. The encoder is modelled with all of its settings, and the round trip is decided for each: block mode without CLEAR always survives; with a CLEAR it survives up to 257 codes behind it, or always at nine bits; without block mode it survives when no pair of bytes repeats one that has an entry. Outside of these it fails, but for data with certain runs of zero bytes. Literal files are right exactly up to 257 bytes.

## How the model is built

Code that updates state is imperative Dafny: `GrayWorker.Worker`, `RenderedBitmaps.RenderedBitmap` and `UnixDecoder.CodeReader` are classes, and the loops over arrays stay loops. A method is proved against a specification function, and the lemmas say what that function means. Machine widths are written out (`Wrap32`, `Wrap64`, `Is32`) wherever the code relies on wrapping.

The worker carries one ghost field, `ink`: the segments accumulated so far that lie in the band. `Valid` says that every cell holds exactly the wrapped sums of the segments of its pixel column, so each drawing method only has to say which segments it adds. A curve is drawn as the segments of its flattened points (`DrawnConic`, `CubicPoints`), a glyph as the segments of its contours (`GlyphSegments`).

| file | content |
|---|---|
| `Ints`, `Bits`, `Sequences`, `Options` | machine integers, bits of bytes, reversed sequences, optional values |
| `Segments`, `LineWalk`, `Cells`, `Curves`, `Cubics`, `Contours`, `Sweep` | the specification side of the rasterizer |
| `CubicAccuracy`, `OutlineAccuracy` | the distance between the drawn path and the exact lines and curves of the outline, in both directions |
| `GrayWorker`, `Glyph` | the worker, and whole-glyph statements |
| `Rectangles`, `Translation` | images without the rasterizer's notions: what a rectangle shows, and what moving an outline does |
| `Fixed`, `Cordic`, `CordicGain`, `CordicAngle`, `Newton`, `TrueNorm` | fixed-point arithmetic; `CordicGain` states what the rotation does to lengths, `CordicAngle` what it does to directions and what the table entries are worth, `TrueNorm` what a normalized vector is worth against the given one |
| `Outlines`, `Embolden`, `RectangleOutlines` | reversal, orientation, emboldening of outlines, and where the points of an emboldened outline end up |
| `Bitmaps`, `RenderedBitmaps` | emboldening of bitmaps, unpacking of packed gray |
| `CodeStream`, `BlockPacking`, `LiteralPacking` | codes in bytes: the reader of codes of given widths, the block writer, the plain bit packers |
| `Lzw`, `UnixDecoder` | what Unix-compress data means, and the decoder with its arrays and its stack |
| `LzwEncoder`, `LzwLockstep`, `LzwClear`, `LzwNonBlock`, `LzwLimits`, `LzwAccident`, `LzwEdgeAccident` | the encoder, encoder and decoder in step, and when the round trip holds |

## Model

| member | source | states |
|---|---|---|
| `LineWalk.UDivInPixel` | src/grays.rs:50-62 | for every crossing inside a cell the reciprocal division lands in 0..255 and is never above the true quotient, and below it by less than one unit plus the relative error of the reciprocal |
| `LineWalk.ProdFromTarget` | src/grays.rs:580-582 | the running cross product equals `dx*(toY - 256*ey) - dy*(toX - 256*ex)` |
| `LineWalk.ExitFacesTarget` | src/grays.rs:590-632 | the side by which a line leaves a cell always faces the target cell, so the reciprocal used there was prepared and its operand lies in the cell |
| `LineWalk.StepKeepsCourse` | src/grays.rs:590-637 | one step keeps the loop invariant of the line walk, its segment runs from the old entry point to the new one inside the cell, the crossing is close to the true line, and the cell distance to the target drops by exactly one |
| `LineWalk.WalkReachesTarget` | src/grays.rs:580-642 | the walk takes exactly the cell distance in steps, its segments connect the entry point with the target without a gap, every corner is close to the true line, and no cell outside the box of the two ends is touched |
| `LineWalk.LineIsTrail` | src/grays.rs:533-646 | every line gives an unbroken trail of in-cell segments from its start to its end; only horizontal lines between cells are dropped |
| `LineWalk.LineCover` | src/grays.rs:533-646 | a line adds to scanline s exactly `clamp(toY - 256*s, 0, 256) - clamp(fromY - 256*s, 0, 256)`, whatever the reciprocal rounding |
| `LineWalk.OffBandLine` | src/grays.rs:541-545 | a line that the early return skips has no segment in the band |
| `LineWalk.PathCover` | src/grays.rs:533-646 | the cover of a path on a scanline depends on its two end points only |
| `Cells.PixelFromCells` | src/grays.rs:1010-1011 | twice the pixel scale times the cover at or left of x, minus the area at x, is the pixel's trapezoid area, with everything left of the box collected in one column |
| `Cells.WithCellHolds` | src/grays.rs:480-530 | finding or inserting a cell keeps the scanline strictly sorted and every other cell's sums, and yields the cell of the wanted column |
| `Cells.WithSegmentHolds` | src/grays.rs:470-477 | adding a segment's cover and area to its cell, wrapping, keeps all cells equal to the sums of their segments |
| `Cells.OtherSegmentHolds` | src/grays.rs:470-474 | segments of other scanlines or right of the box may go to the dumpster |
| `Segments.PixelAreaAnyOrder` | src/grays.rs:470-477 | the totals of a pixel do not depend on the order in which segments arrive |
| `Segments.UprightShare` | src/grays.rs:470-477 | an upright piece at offset fx gives the pixel of its cell `2*cover*(256-fx)`: the part that lies to its right |
| `Segments.CutShare` | src/grays.rs:470-477 | cutting a piece at a point in its cell changes the area of its pixel by exactly the doubled triangle between the piece and the point, and that of no other pixel: a cut on the piece changes nothing |
| `Segments.RowInkIsArea` | src/grays.rs:470-477 | no area is lost or invented: the pixels of a scanline have together twice the area between its pieces and the right end, summed as trapezoids |
| `GrayWorker.Worker.Integrate` | src/grays.rs:470-477 | accumulating into the current cell or the dumpster adds exactly that segment to the band's ink; what its area is worth say `UprightShare`, `CutShare` and `RectangleImage` |
| `GrayWorker.Worker.SetCell` | src/grays.rs:480-530 | afterwards the current index names the cell of the pixel, or is the dumpster exactly outside the box, and no sum has changed |
| `GrayWorker.Worker.RenderLine` | src/grays.rs:533-646 | the drawing loops accumulate exactly the in-band segments of the line and end at its end point |
| `GrayWorker.Worker.RenderSlanted` | src/grays.rs:580-638 | the general-line loop ends, and its segments with the closing one are those of the line |
| `GrayWorker.Worker.RenderColumn` | src/grays.rs:563-579 | the vertical-line loop ends, and its segments with the closing one are those of the line |
| `GrayWorker.Worker.MoveTo` | src/grays.rs:788-794 | moves to the upscaled position without changing any sum |
| `Curves.HalvingsLeast` | src/grays.rs:670-684 | the number of halvings is the least that brings the deviation to the quarter-pixel bound |
| `Curves.DifferencesStep` | src/grays.rs:698-702 | one wrapping 64-bit forward difference keeps the registers equal to the scaled curve value and slope |
| `Curves.DifferencesRead` | src/grays.rs:687-703 | the high half of the register is the wrapped curve value, so no error accumulates |
| `Curves.ConicValueExact` | src/grays.rs:665-704 | for control points in 32-bit subpixels every step is the exact quadratic Bezier value rounded down, and the last one is the end point |
| `Curves.DrawnConicEnds` | src/grays.rs:649-704 | the drawn conic ends at its end point if and only if it is skipped as a whole, or that point fits 32-bit subpixels, or the conic is flat enough to be drawn as a line |
| `Curves.MissedEnd` | src/grays.rs:649-704 | an end point that is missed: the conic over (0, 0), (2^30, 256), (2^31, 0) ends at (-2^31, 0) |
| `Curves.ConicStepFlat` | src/grays.rs:670-685 | the chosen number of steps bounds the second difference of the whole curve by 65 times its square, a quarter pixel per step |
| `Curves.ChordDeviation` | src/grays.rs:665-704 | the mid-chord deviation of a step is a quarter of the per-step second difference |
| `Curves.OffBandConic` | src/grays.rs:657-663 | for control points in 32-bit subpixels, all flattened points of a conic that the early return skips lie off the band on the same side |
| `Curves.SkippingIsInvisible` | src/grays.rs:657-663 | for control points in 32-bit subpixels the early return cannot be seen in any pixel of the band |
| `Curves.SkippingShows` | src/grays.rs:657-663 | without that limit, skipping changes the cover of a scanline if and only if the conic is subdivided and its end point, wrapped to 32 bits, fills that scanline differently |
| `Curves.SkippingCanBeSeen` | src/grays.rs:657-663 | beyond 32-bit subpixels it can be seen: a conic that is skipped above the band whose wrapped points would have covered half of the first scanline |
| `GrayWorker.Worker.RenderConic` | src/grays.rs:649-704 | for all 32-bit outlines, draws exactly the path of the drawn conic and reaches its end point exactly in the three cases of `DrawnConicEnds` |
| `GrayWorker.Worker.RenderConicSteps` | src/grays.rs:685-704 | the forward-difference loop draws exactly the path through the flattened conic points |
| `Cubics.SplitRounding` | src/grays.rs:715-730 | the halves are the de Casteljau halves, every coordinate rounded down |
| `Cubics.SplitShrinks` | src/grays.rs:715-782 | splitting leaves less than half the largest flatness deviation plus three, hence strictly less above the flatness limit |
| `Cubics.SplitJoins` | src/grays.rs:715-730 | the halves meet in one point and keep both ends |
| `Cubics.SplitTop` | src/grays.rs:733-785 | splitting the top arc keeps the stack a left-to-right chain from the current point to the end, keeps the points it stands for, and leaves less work |
| `Cubics.OffBandCubic` | src/grays.rs:749-761 | a cubic that the early return skips has no segment in the band |
| `CubicAccuracy.CurveNearLines` | src/grays.rs:733-785 | no part of a cubic is missed: every point of the exact Bezier curve lies, in both coordinates, within 32/256 pixel of a point on one of the drawn lines, and 1/256 more for every halving |
| `CubicAccuracy.LinesNearCurve` | src/grays.rs:733-785 | nothing else is drawn: every point on every drawn line is as close to the exact curve |
| `CubicAccuracy.DepthBounded` | src/grays.rs:762-782 | an arc is halved at most n times if its flatness deviation is at most 122 * 2^n + 6 |
| `CubicAccuracy.SmallDepth` | src/grays.rs:762-782 | arcs within a thousand pixels are halved at most 13 times: their path stays within 45/256 pixel of the curve |
| `GrayWorker.Worker.RenderCubic` | src/grays.rs:733-785 | the stack loop ends for every cubic, draws exactly the path through the flattened points, and lands on the end point |
| `Contours.CommandsUseAllPoints` | src/grays.rs:864-965 | a contour that parses is closed, and its commands use each of its points exactly once and in order |
| `Contours.ContourCover` | src/grays.rs:804-965 | a contour adds to every scanline just the height from its start to where its drawing ends, however its curves and lines are rounded |
| `Contours.ClosedContourCover` | src/grays.rs:864-965 | a contour adds no cover to any scanline if and only if its drawing ends at the height of its start |
| `Contours.GlyphCover` | src/grays.rs:804-965 | the covers of every scanline of a glyph whose contours are closed by a line, a cubic, or a conic with a 32-bit end sum to zero |
| `Contours.ContoursFromFit` | src/grays.rs:804-862 | every point that is drawn to, implied midpoints and start points included, is a 32-bit number again |
| `Contours.MiddleBetween` | src/grays.rs:842-905 | an implied coordinate lies between the two it comes from if and only if their sum is a 32-bit number; otherwise it wraps away from them |
| `Contours.ContoursFromWithin` | src/grays.rs:804-965 | for an outline with coordinates below 2^30 in magnitude, all points and control points of all commands lie in every box that holds its own points |
| `Contours.MiddleIsHalfway` | src/grays.rs:842-843 | twice an implied coordinate is the sum of the two it comes from, rounded toward zero, whenever that sum is a 32-bit number |
| `Contours.ContourImplied` | src/grays.rs:804-965 | every implied point ends a conic that another conic follows and lies half-way between their control points in both coordinates; a contour whose first point is a control starts on its last point or, if that is a control too, half-way between the two |
| `Contours.ContoursImplied` | src/grays.rs:804-965 | the same for every contour of an outline |
| `OutlineAccuracy.ConicLine` | src/grays.rs:649-704 | the drawn conic stays within 18/256 pixel of the exact one: step k, s of the way to the next, is near the curve at (k + s) / n |
| `OutlineAccuracy.OutlineNearPath` | src/grays.rs:649-801 | nothing of the outline is missed: every point of the line, conic or cubic that a command stands for, in the translated coordinates of the outline's own points times four, lies on a drawn line, within 0, 18/256 and 32/256 pixel and 1/256 more for every halving |
| `OutlineAccuracy.PathNearOutline` | src/grays.rs:649-801 | nothing else is drawn: every point of every drawn line is as near to the exact line or curve of its command |
| `GrayWorker.Worker.WalkContour` | src/grays.rs:864-965 | the cursor loop draws exactly the commands that the tags spell, or returns their error |
| `GrayWorker.Worker.Decompose` | src/grays.rs:804-862 | draws the in-band segments of all contours, or returns the error of the first malformed one; where implied points lie says `ContoursImplied` |
| `Sweep.NonZeroIsCappedMagnitude` | src/grays.rs:69-88 | non-zero fill is the magnitude of the area in 1/512 steps, capped at 255, and symmetric |
| `Sweep.EvenOddIsTriangleWave` | src/grays.rs:69-88 | even-odd fill is a triangle wave of period 512 |
| `Sweep.GapPixel` | src/grays.rs:984-1008 | between two cells every pixel shows the fill rule of the running cover |
| `Sweep.CellPixel` | src/grays.rs:1010-1028 | the sweep's wrapped running cover and area give the pixel of a cell its own value |
| `Sweep.AddressesDiffer` | src/grays.rs:998-1006 | two pixels never share a byte in any layout that fits |
| `Sweep.AddressDecodes` | src/grays.rs:998-1006 | read back from its index, a byte is in the row `height-1-y` from the top, at place x in it, at the layout's offset in the pixel |
| `GrayWorker.WriteSpan` | src/grays.rs:1095-1122 | writes the coverage to exactly the bytes on the stride that lie in the buffer |
| `GrayWorker.RunHits` | src/grays.rs:998-1006 | a written run covers the addresses of its own pixels and of no other pixel |
| `GrayWorker.Worker.PutSpan` | src/grays.rs:985-1008 | changes exactly the pixels of the run, as target bytes or as a recorded 16-bit span |
| `GrayWorker.Worker.SweepRow` | src/grays.rs:978-1052 | a blank scanline ends up showing the fill rule of every pixel's area |
| `GrayWorker.Worker.SweepBand` | src/grays.rs:967-1053 | the sweep refines the pointwise fill function on the whole box and changes no other byte |
| `GrayWorker.Worker.ConvertGlyph` | src/grays.rs:1057-1089 | from any state of the worker: on success every pixel of the box shows its fill rule and no other byte changes, on error target and spans are unchanged |
| `Glyph.RasterizeShiftedInBox` | src/grays.rs:214-293 | end to end, for all 32-bit outlines: every byte of the returned bitmap is the fill rule of its pixel's trapezoid area, with the empty and malformed cases |
| `Glyph.ImageAt` | src/grays.rs:214-293 | each byte of the image by its place: pixel (x, y) is byte `(height-1-y)*width + x` |
| `Rectangles.UprightLine` | src/grays.rs:533-646 | an upright line gives every pixel the height it crosses of it, times twice the part of the pixel to the right of the line |
| `Rectangles.RectangleArea` | src/grays.rs:804-1053 | a four-point rectangle, translated, gives every pixel 32 times the product of the two overlaps in 1/64 pixel, positive if it runs clockwise |
| `Rectangles.RectangleImage` | src/grays.rs:214-293 | end to end, without any notion of the rasterizer: the byte of pixel (x, y) of an upright on-curve rectangle, under either fill rule, is `Min(255, ox*oy/16)` of the overlaps ox, oy of pixel and translated rectangle in 1/64 pixel, or the next lower reading `(ox*oy-1)/16` for a counterclockwise one |
| `Translation.GlyphMoved` | src/grays.rs:789-801 | translating in the renderer draws the same segments as moving all parsed commands first |
| `Translation.OutlineAlike` | src/grays.rs:804-965 | parsing the moved points gives the moved commands if and only if every implied point moves along |
| `Translation.MiddleMoves` | src/grays.rs:842-843 | an implied coordinate moves along with its two controls if and only if their sum is even or stays on its side of zero |
| `Translation.ImageMoved` | src/grays.rs:207-293 | rendering with a translation is rendering the outline with all its points moved, byte by byte, where implied points move along |
| `Translation.StayingMiddle` | src/grays.rs:842-843 | one that does not: half-way between -1 and 0 it is 0, and half-way between 0 and 1 again |
| `Translation.LineShifted` | src/grays.rs:533-646 | a line that is moved by whole pixels visits the moved cells with the same pieces |
| `Translation.CubicShifted` | src/grays.rs:733-785 | a cubic that is moved by whole pixels is flattened into the moved points |
| `Translation.GlyphShifted` | src/grays.rs:804-965 | an outline in 32-bit subpixels that is moved by whole pixels draws the same pieces in moved cells |
| `Translation.ImageShifted` | src/grays.rs:214-293 | translating by 64k and 64m more moves the image of an outline in 32-bit subpixels by k and m pixels: each byte reappears k places to the right and m rows up |
| `Glyph.NoInkRightOfGlyph` | src/grays.rs:804-1053 | nothing leaks: pixels right of everything drawn are blank for every outline whose contours land on their starts |
| `Glyph.ParsedLands` | src/grays.rs:864-965 | a contour that parses lands on its start if and only if its last command is no conic or the start fits 32-bit subpixels |
| `Glyph.BandIsInvisible` | src/grays.rs:804-1053 | an outline in 32-bit subpixels gives a pixel the same area in every band that contains it |
| `Glyph.ContourOrderIsIrrelevant` | src/grays.rs:804-862 | listing the contours in another order does not change a single byte |
| `Fixed.RoundedIsUnique` | src/fixed.rs:66-83 | rounding to nearest with ties away from zero determines the result |
| `Fixed.MulFixRounds` | src/fixed.rs:66-70 | the product is a*b / 2^16 rounded to nearest, ties away from zero |
| `Fixed.DivFixRounds` | src/fixed.rs:73-83 | the quotient is a*2^16 / b rounded to nearest, ties away from zero, whenever numerator plus half the divisor fits 64 unsigned bits and the result 63 |
| `Fixed.MulDivRounds` | src/fixed.rs:42-53 | a*b / c rounded to nearest, ties away from zero, under the same bound |
| `Fixed.MulFixOdd` | src/fixed.rs:66-70 | without overflow the product is odd in each argument |
| `Fixed.DivFixOdd` | src/fixed.rs:73-83 | without overflow the quotient is odd in each argument |
| `Fixed.MulAfterDiv` | src/fixed.rs:66-83 | multiplying a quotient back is off by at most \|b\|/2^17 + 1/2 |
| `Fixed.MulUndoesDiv` | src/fixed.rs:66-83 | for divisors up to 1.0 the round trip is exact |
| `Cordic.TableCovers` | src/fixed.rs:244-257 | no table entry is larger than what the later entries can undo, plus one unit |
| `Cordic.TableReachesEighth` | src/fixed.rs:230-257 | the whole table reaches every angle that the quarter turns leave |
| `Cordic.SensesConverge` | src/fixed.rs:244-257 | after n table steps no more of the angle is left than the remaining entries can turn, plus one unit |
| `Cordic.RotationAngle` | src/fixed.rs:230-258 | for every angle the quarter turns and the signed table entries add up to the requested angle within one unit |
| `Cordic.ToFirstEighth` | src/fixed.rs:231-242 | the quadrant loops end after exactly the quarter turns that leave at most an eighth turn, with the vector turned by as many |
| `Cordic.TableSteps` | src/fixed.rs:244-257 | the table loop performs one rounded, wrapping micro-rotation per entry, each against what is left of the angle |
| `Cordic.PseudoRotate` | src/fixed.rs:230-258 | the rotation is the quarter turns followed by the 22 micro-rotations of the angle; what each of them does say `MicroTurns` and `RotationDirection` |
| `CordicGain.MicrosGain` | src/fixed.rs:244-257 | n micro-rotations multiply the squared length of a vector by the product of (4^k + 1) / 4^k, whatever their senses, up to n roundings of their shifts |
| `CordicGain.GainOfAll` | src/fixed.rs:244-257 | for all 22 of them that factor lies between 1.355909673853 and 1.355909673872 |
| `CordicGain.ScaleIsReciprocal` | src/fixed.rs:187-187 | the scale constant is the reciprocal of the gain to the last of its 32 bits |
| `CordicGain.RotationGain` | src/fixed.rs:230-258 | a rotation by any angle multiplies the squared length by that factor, up to 22 roundings, and nothing wraps for vectors up to 2^60 |
| `CordicAngle.TableSlope` | src/fixed.rs:194-197 | every table entry is the angle whose tangent is 2^-i, within half a unit, where angles are measured by repeated exact turns |
| `CordicAngle.EighthTurn` | src/fixed.rs:190-193 | the unit is 1/65536 degree: the slope one is reached between one unit before and one unit behind 45 degrees |
| `CordicAngle.MicroTurns` | src/fixed.rs:244-257 | the left micro-rotation i of v gives w with v x w = v^2 / 2^i and v . w = v^2, up to the rounding of the two shifts; the right one is its mirror image |
| `CordicAngle.MicrosNear` | src/fixed.rs:244-257 | any series of micro-rotations of a vector of length 2^23 or more turns it by the signed sum of their table entries, within three units a step |
| `CordicAngle.RotationDirection` | src/fixed.rs:230-258 | a rotation turns every such vector, beyond its quarter turns, by the rest of the angle within 68/65536 degree |
| `CordicAngle.UnitNear` | src/fixed.rs:360-364 | the direction of (cosine, sine), turned back by the quarter turns, is the rest of the angle within 110/65536 degree |
| `CordicAngle.UnitSigns` | src/fixed.rs:360-364 | for every angle, up to whole turns: sine and cosine have the signs of their quadrant from 111/65536 degree on |
| `CordicAngle.VectorUnit` | src/fixed.rs:360-364 | sine and cosine of every angle: the vector has length 1 in 16.16 up to one unit, the direction of the angle within 110/65536 degree, and the signs of its quadrant |
| `Cordic.AngleDiff` | src/fixed.rs:348-357 | the result lies in (-PI, PI] and differs from the wrapped difference by full turns |
| `Cordic.AngleDiffIsUnique` | src/fixed.rs:348-357 | there is only one such result |
| `Newton.PrescaleWorks` | src/fixed.rs:474-486 | prescaling brings every vector with two non-zero components to an estimate between 40960 and 87381 that is at most a rounding too short |
| `Newton.FirstScale` | src/fixed.rs:488-493 | the first scale already makes the squared length readable as a signed difference from 2^32 |
| `Newton.NoOverflow` | src/fixed.rs:492-493 | the 32-bit products of the loop never overflow |
| `Newton.IncrementMeaning` | src/fixed.rs:494-499 | a positive increment is at most a Newton step below length one; without one the squared length is within 2^18 of 2^32 or above |
| `Newton.NextScale` | src/fixed.rs:494-500 | a Newton step keeps the squared length readable and at most 2^18 above 2^32 |
| `Newton.NewtonLoop` | src/fixed.rs:488-501 | the loop ends for every prescaled vector, with u^2 + v^2 within 2^18 of 2^32 |
| `Newton.Projection` | src/fixed.rs:515-516 | the projection onto the unit vector is the true length up to one part in 2^14 and the rounding of the unit vector, and lies where its wrapped reading is right |
| `Newton.VectorNormLen` | src/fixed.rs:449-523 | unit vector and length for every 32-bit vector, axis vectors exactly |
| `Newton.NormIsOdd` | src/fixed.rs:449-523 | turning a vector around turns its unit vector around and keeps its length |
| `Newton.NormIsUnit` | src/fixed.rs:449-523 | every vector but zero gets a vector of length one up to 2^-14 |
| `Newton.OnlyZeroHasNoLength` | src/fixed.rs:449-523 | the length is zero for the zero vector only |
| `TrueNorm.DirectionClose` | src/fixed.rs:449-523 | for every 32-bit vector the cross product of unit vector and vector is at most 3(\|vx\| + \|vy\|), and no component changes its sign |
| `TrueNorm.LengthIsTrue` | src/fixed.rs:449-523 | the length is within six grains of the root of vx^2 + vy^2, up to one part in 2^14 of the square; a grain is one, or below one part in 36634 of \|vx\| + \|vy\| |
| `Outlines.ReverseOutlineBuffers` | src/api.rs:1716-1733 | in place, every contour is turned around behind its first point, in points and tags alike |
| `Outlines.ReversalIsInvolution` | src/api.rs:1716-1733 | reversing twice restores every buffer |
| `Outlines.ToggleTwice` | src/api.rs:1732-1732 | the fill flag is toggled, and toggling twice restores it |
| `Outlines.ReversedContour` | src/api.rs:1726-1731 | each contour becomes its own turned copy: nothing crosses a contour border and first points stay |
| `Outlines.ReversedMultiset` | src/api.rs:1716-1733 | reversal is a permutation |
| `Outlines.AreaIsShoelace` | src/api.rs:2055-2066 | the summed edge products are the shoelace formula, twice the signed area of the contour |
| `Outlines.ReversalNegatesArea` | src/api.rs:2037-2067 | reversal negates the summed signed area exactly |
| `Outlines.OutlinePointCbox` | src/api.rs:1753-1768 | the tightest box around the points |
| `Outlines.CboxIsUnique` | src/api.rs:1753-1768 | there is only one such box |
| `Outlines.OutlineOrientation` | src/api.rs:2002-2077 | the orientation is the sign of the signed area of the shifted points, with the degenerate and invalid cases |
| `Outlines.AreaFits` | src/api.rs:2024-2067 | the shifts keep the area of up to 2^31 points below 2^63, so that wrapping additions come to the same |
| `Outlines.ReversalFlipsOrientation` | src/api.rs:2002-2077 | reversing an outline swaps TrueType and PostScript orientation and leaves none alone |
| `RectangleOutlines.RectangleOrientation` | src/api.rs:2002-2077 | an upright rectangle that runs counterclockwise has PostScript orientation and a clockwise one TrueType orientation; none is decided exactly if its upright sides coincide after the shift of the coordinates |
| `RectangleOutlines.SidesApart` | src/api.rs:2025-2026 | they do not for coordinates below 2^15, nor for a width of 16 pixels or more |
| `RectangleOutlines.TriangleOrientation` | src/api.rs:2037-2077 | a triangle of small coordinates has PostScript orientation if it turns left, TrueType if it turns right, none if it is flat |
| `Embolden.EdgeLength` | src/api.rs:1931-1937 | only an edge between equal points is skipped as having no length |
| `Embolden.RunEdges` | src/api.rs:1928-1944 | all points of a run at one place have the same two edges, to the nearest other places before and after, computed from unmoved points |
| `Embolden.StepReads` | src/api.rs:1928-1944 | while points remain to be moved the loop goes on; what it reads is unmoved, and the anchor is exactly the edge it replaces |
| `Embolden.StepTurns` | src/api.rs:1946-1994 | moving a run completes each of its points, and the last run completes the contour |
| `Embolden.EmboldenContourPoints` | src/api.rs:1911-1996 | the walk ends for every contour; if all points are at one place it changes nothing, otherwise it moves every point exactly once by the corner of the unmoved contour there |
| `Embolden.EmboldenOutline` | src/api.rs:1859-1909 | every contour is emboldened by half the strength, and nothing happens without a decided orientation; in coordinates, `RectangleEmboldened` and `FinalPlace` say what comes out |
| `Embolden.MitreOffset` | src/api.rs:1952-1982 | with room for both strengths, each edge of a corner is offset outwards by the strengths weighted with its own direction: an upright edge by the strength in x, a level one by the strength in y, any edge by the strength where the two are equal, up to the rounding of the shift and the tolerance of the unit vectors |
| `Embolden.LimitedOffset` | src/api.rs:1952-1982 | with room for neither strength, a corner moves back along its incoming edge and forward along its outgoing one by just the length of the shorter edge, up to the same tolerances |
| `Embolden.AxisOffset` | src/api.rs:1952-1982 | for all strengths, each with or without room by itself: the shift in its axis is the bisector's coordinate times strength / d or length / q, rounded to nearest |
| `RectangleOutlines.FinalPlace` | src/api.rs:1911-1996 | the final place of every point, relative to the point moved by just the half strengths: with room both of its edges lie outwards by the weighted half strengths as in `MitreOffset`, without it as in `LimitedOffset`, axis by axis as in `AxisOffset`, and not moved further where the contour turns back; nothing wraps |
| `RectangleOutlines.RectangleEmboldened` | src/api.rs:1859-1996 | what comes out for every upright rectangle, in either direction and from any corner, and all strengths: each corner moves by the half strengths, rounded toward zero, and by as much again away from the middle; shrinking stops at the shorter side |
| `RectangleOutlines.RectangleGrows` | src/api.rs:1859-1996 | for even strengths with room the lower left corner stays and the opposite one moves by exactly (xStrength, yStrength) |
| `Embolden.EdgeHasRoom` | src/api.rs:1928-1936 | within the coordinates of an outline that has an orientation, no edge is longer than the 2^27 units that the statements without room suppose |
| `Embolden.EdgeIsUnit` | src/api.rs:1929-1936 | every edge that is not skipped has a unit direction |
| `Embolden.CornerBackward` | src/api.rs:1952-1984 | coming the other way with the other orientation, a corner moves to the same place |
| `Embolden.ReversalCommutesWithEmbolden` | src/api.rs:1859-1996 | emboldening a reversed outline gives the reversed emboldened outline, for all strengths |
| `Bitmaps.SmearRow` | src/api.rs:1505-1517 | right to left in place, every pixel becomes the capped sum of its old self and its old left neighbours, although sums saturate and stop early |
| `Bitmaps.SmearIsCappedSum` | src/api.rs:1505-1517 | for pixels within the gray range this is the capped window sum at every pixel |
| `Bitmaps.EmboldenRows` | src/api.rs:1503-1524 | the row loop emboldens each row once and ors it into the rows above, in place |
| `Bitmaps.StackedIsDilation` | src/api.rs:1503-1524 | the bytes after the row loop are the ors of the emboldened source rows that reach them |
| `Bitmaps.LayoutsAgree` | src/api.rs:1475-1524 | with zero padding the in-place and the reallocated layout show the same image |
| `Bitmaps.MonoSmearColumns` | src/api.rs:1647-1655 | a column of a packed row is set after emboldening exactly when a column at most xPixels to its left was |
| `RenderedBitmaps.RenderedBitmap.Embolden8Bit` | src/api.rs:1456-1537 | succeeds exactly for a usable bitmap of representable size, and then every visible byte is the dilation; on failure the size stays, but a usable bitmap may be left with its new buffer, and with its old pitch if the new one is not representable |
| `RenderedBitmaps.GrayImage` | src/api.rs:1456-1537 | from the old buffer to the new one: with zero padding and pixels in the gray range, every visible byte is the or, over the source rows at most yPixels above, of the capped sums of the old pixels at most xPixels to the left, in either layout |
| `RenderedBitmaps.RenderedBitmap.EmboldenMono` | src/api.rs:1591-1675 | the same for packed mono bitmaps, failing calls included, for every strength that the caller's cap of eight lets through |
| `RenderedBitmaps.MonoDilation` | src/api.rs:1591-1675 | an output column is set exactly when in one of the source rows above it a column at most xPixels to its left was set |
| `RenderedBitmaps.MonoSourceColumns` | src/api.rs:1619-1642 | with clear padding both layouts start from exactly the old columns |
| `RenderedBitmaps.MonoImage` | src/api.rs:1591-1675 | from the old buffer to the new one: a column of an output row is set exactly when a column at most xPixels to its left was set in a source row at most yPixels above |
| `RenderedBitmaps.ZeroMonoPadding` | src/api.rs:1677-1690 | clears the row from the given column on, and nothing else |
| `RenderedBitmaps.ClearFromColumns` | src/api.rs:1677-1690 | exactly the columns before the given one survive |
| `RenderedBitmaps.ConvertPackedGray` | src/api.rs:1539-1589 | unpacks a usable bitmap to one byte per pixel, and otherwise leaves it alone |
| `RenderedBitmaps.ShiftAndMask` | src/api.rs:1577-1580 | the shift and mask of the inner loop pick the packed pixel |
| `RenderedBitmaps.RepackedByte` | src/api.rs:1573-1582 | packing the unpacked pixels again gives the byte |
| `LzwEncoder.EncodeRecords` | scripts/build_compressed_fixtures.py:158-198 | the coding loop with its dictionary, counters and CLEAR computes the recursion `RecordsOf`, and no dictionary lookup fails |
| `LzwEncoder.UnixCompress` | scripts/build_compressed_fixtures.py:135-239 | refuses bad widths and a CLEAR without block mode, and otherwise writes header and packed records, for all settings and the empty input |
| `LzwLockstep.PhraseDecodes` | scripts/build_compressed_fixtures.py:176-187 | the decoder understands the code of every phrase, including one it is only just defining and with a full dictionary |
| `LzwLockstep.CodingRecords` | scripts/build_compressed_fixtures.py:176-184 | while the widths agree, recording a code drives the decoder to the data read so far, the code fits its width, and `decoder_free` keeps its distance to the decoder's count: none before a CLEAR, one behind it |
| `LzwLockstep.CodingFollows` | scripts/build_compressed_fixtures.py:158-195 | in block mode, up to 256 codes behind a CLEAR, every round of the coding loop keeps encoder and decoder in step |
| `LzwLockstep.RecordsRise` | scripts/build_compressed_fixtures.py:158-198 | without a CLEAR, in either mode, the recorded widths start at nine, never fall and never exceed `max_bits` |
| `LzwClear.InStepSurvives` | scripts/build_compressed_fixtures.py:135-239 | block mode without CLEAR gives back every input, and so does a CLEAR while the widths agree |
| `LzwClear.LastCodeSurvives` | scripts/build_compressed_fixtures.py:189-239 | the 257th code behind a CLEAR, written with nine bits and read with ten, survives as the last one |
| `LzwClear.LateNeedsZeros` | scripts/build_compressed_fixtures.py:189-239 | with more than 257 codes behind a CLEAR the decoder reads six zero codes that nobody wrote, so that only data with six zero bytes in a row can come back |
| `LzwClear.BlockLimit` | scripts/build_compressed_fixtures.py:135-239 | block mode: the data comes back if `max_bits` is 9, no CLEAR was written or at most 257 codes follow it, and for data without six zeros in a row only then |
| `LzwNonBlock.WrongPair` | src/ffi/handles.rs:8056-8135 | without block mode the decoder takes the code of a repeated pair for another word or for none, since it numbers entries from 256 and the encoder from 257 |
| `LzwNonBlock.RepeatNeedsZeros` | scripts/build_compressed_fixtures.py:135-239 | data that comes back although a pair repeats has three zero bytes exactly where the codes outgrow a width |
| `LzwNonBlock.NonBlockLimit` | scripts/build_compressed_fixtures.py:135-239 | without block mode the data comes back if no pair of adjacent bytes repeats one that has an entry, and for data without three zeros at such a place only then |
| `LzwLimits.RoundTripCondition` | scripts/build_compressed_fixtures.py:135-239 | for all settings that are accepted: suitable data comes back, and but for runs of zero bytes no other does |
| `LzwLimits.RepeatedPair` | scripts/build_compressed_fixtures.py:135-239 | without block mode `abab` comes back as `abbb` |
| `LzwLimits.ClearAfterOne` | scripts/build_compressed_fixtures.py:189-239 | with a CLEAR after the first code and no pair twice, exactly up to 258 bytes come back |
| `LzwLimits.AlternatingLimit` | scripts/build_compressed_fixtures.py:189-239 | the inputs 1, 2, 1, 3, 1, 4, ...: 258 bytes come back and 259 do not |
| `LzwAccident.Accident` | scripts/build_compressed_fixtures.py:189-239 | runs of zeros can hide what the decoder misreads: data that comes back although 258 codes follow the CLEAR, so that the condition on zeros cannot be dropped |
| `LzwEdgeAccident.EdgeAccident` | scripts/build_compressed_fixtures.py:135-239 | without block mode, from ten bits on, there is data of 298 bytes with a repeated pair that comes back: the code of the pair is cut to zero at the edge, and 19 codes later the decoder has caught up, so that the condition on zeros cannot be dropped here either |
| `BlockPacking.FlushBlock` | scripts/build_compressed_fixtures.py:205-208 | appends the low bytes of the block |
| `BlockPacking.PutRecord` | scripts/build_compressed_fixtures.py:210-235 | one round of the writing loop: width change, full block, code, reset |
| `BlockPacking.PackRecords` | scripts/build_compressed_fixtures.py:200-239 | the output is the header and the packed bytes of the records, whatever the records are |
| `BlockPacking.PackingUnpacks` | scripts/build_compressed_fixtures.py:200-239 | a reader that is given the widths recovers exactly the codes of every list of codes that fit their widths, and nothing more can be read: padding never looks like a code |
| `BlockPacking.PackingIsInjective` | scripts/build_compressed_fixtures.py:200-239 | different codes of the same widths give different bytes |
| `BlockPacking.WidthsMatter` | scripts/build_compressed_fixtures.py:200-239 | without the widths the bytes do not determine the codes: a zero has the same bytes with any two widths from nine to sixteen |
| `BlockPacking.PrefixReads` | scripts/build_compressed_fixtures.py:200-239 | codes that fit are read back whatever is written behind them, and a last one that does not fit without its high bits |
| `BlockPacking.SpilledReads` | scripts/build_compressed_fixtures.py:210-235 | a code that does not fit, written first in a block before a change of width, is read without its high bits and disturbs no other code |
| `CodeStream.BlockReads` | src/ffi/handles.rs:8007-8029 | the codes in the low bits of a block are read one after the other, whatever is above and behind them |
| `Lzw.DrivesDecodes` | src/ffi/handles.rs:8074-8136 | where codes are read that drive the decoder, with its own width changes and discarded blocks, the decoding goes on behind them |
| `Lzw.DecodeGrows` | src/ffi/handles.rs:8074-8136 | decoded output is never taken back |
| `UnixDecoder.CodeReader.Code` | src/ffi/handles.rs:8007-8029 | the reader fetches a block when the bits run out or are to be discarded, and returns the next code of the block's number, or none |
| `UnixDecoder.Unwind` | src/ffi/handles.rs:8107-8126 | the stack loop yields the word of the code, through arbitrarily long prefix chains |
| `UnixDecoder.FollowsStep` | src/ffi/handles.rs:8106-8135 | one code keeps the prefix and suffix arrays equal to the decoder's table of words |
| `UnixDecoder.DecodeUnixCompress` | src/ffi/handles.rs:8032-8139 | on every input, malformed ones, CLEAR and non-block mode included, ends without leaving its arrays and returns what `Decompress` says |
| `UnixDecoder.RoundTrip` | scripts/build_compressed_fixtures.py:135-239 | the repository's encoder followed by its decoder, under the condition of `RoundTripCondition` |
| `LiteralPacking.UnixCompressCodes` | scripts/build_compressed_fixtures.py:242-266 | refuses codes that do not fit and otherwise writes the stream of the codes and the requested zero padding |
| `LiteralPacking.StreamReads` | scripts/build_compressed_fixtures.py:116-132 | a plain stream of codes of one width from eight bits on is read back in blocks as exactly its codes, and nothing more can be read |
| `LiteralPacking.CodeBits` | scripts/build_compressed_fixtures.py:116-132 | the stream is one of bits, lowest first: bit b of code k is bit i % 8 of byte i / 8 for i = k*w + b |
| `LiteralPacking.LiteralUnixCompress` | scripts/build_compressed_fixtures.py:116-132 | writes the stream of nine-bit literal codes |
| `LiteralPacking.LiteralLimit` | scripts/build_compressed_fixtures.py:116-132 | the comment's claim that literals suffice is true exactly up to 257 bytes: every input of length n survives if and only if n <= 257 |

## Where the code and its comments differ

- `literal_unix_compress` says that its small payload never widens beyond nine bits. Nothing checks the size. `LiteralPacking.LiteralLimit` gives the exact limit, 257 bytes, and `LiteralPacking.Awkward` an input for every greater length.
- `unix_compress` says that it follows the decoder's dictionary growth. In block mode without CLEAR it does. Behind a CLEAR it restarts `decoder_free` and `data_codes` at zero, while the decoder counts every code, so that it widens one code late (`LzwClear.BlockLimit`). Without block mode it numbers its entries from 257 and the decoder from 256 (`LzwNonBlock.NonBlockLimit`). There a code may also come to 2^width exactly, and is then written one bit too long (`LzwNonBlock.OutgrownCode`).
- `rasterize_shifted_in_box` says that its arithmetic matches translating every point. It does, but for implied points: a midpoint is rounded toward zero before the translation is applied, so that one with an odd sum that changes its sign comes out one unit elsewhere (`Translation.MiddleMoves`, `Translation.StayingMiddle`). `Translation.ImageMoved` is the translation where that does not happen.
- The conic loop is described as exact. It is, as long as the subpixel coordinates fit 32 bits; `Curves.DrawnConicEnds` gives the exact condition under which the end point is reached, and `Curves.MissedEnd` a conic that misses it.

## Left out

- Font parsing, hinting, scaling, the render-font cache, `Face` and `GlyphSlot` plumbing, logging, the C and WASM facades: their behaviour rests on code outside the modelled files.
- LzwLimits.RoundTripCondition: for the data it excludes in the failing modes, six zeros in a row behind a CLEAR and three zeros at an edge without block mode, only one direction is stated: there the misread codes may happen to decode to the right bytes, as `LzwAccident.Accident` shows for the one and `LzwEdgeAccident.EdgeAccident` for the other.
- RenderedBitmaps.RenderedBitmap.EmboldenMono: a horizontal strength of exactly eight shifts a byte by its full width. The model masks the shift count as a release build does; a build with overflow checks stops there.
- The dispatch of `embolden_rendered_bitmap` over pixel modes: it composes the modelled functions without a property of its own.
- RenderedBitmaps.RenderedBitmap.Embolden8Bit: overflow of `usize` in buffer sizes is not modelled, since no such buffer exists.
- GrayWorker.Worker.Decompose: outline points must be 32-bit numbers, also after the offset (`PointsFit`). Sums of two such coordinates, for implied midpoints, wrap as in a release build; a build with overflow checks stops there.
- Curves.OffBandConic: like `SkippingIsInvisible` stated for control points in 32-bit subpixels; beyond them it is false (`SkippingCanBeSeen`), and what is exact there is the cover of each scanline (`SkippingShows`), not the area of each pixel. `RenderConic` says what a skipped conic does.
- The true area of the outline in a pixel, as a real number: areas are those of the rounded cell trail, and how far the trail strays from the line is bounded point by point only.
- GrayWorker.Worker.ConvertGlyph: the output must be blank on the box beforehand; the sweep skips pixels without coverage, so a blank target is what the callers provide. For recorded spans the box must lie within 16-bit columns; beyond them the source wraps the columns it records.
- Cordic.PseudoRotate: polarization (`ft_trig_pseudo_polarize_long`) repeats the same steps driven by y and is left out, as are arctangent, tangent and the rotation of scaled vectors. Directions are measured by exact turns of 1/65536 degree (`CordicAngle.Ray`), not by a real-valued sine; the unit is off by one part in ten million, so that whole quarter turns are stated apart.
- Outlines.OutlineOrientation: the area is summed in unbounded integers; `AreaFits` shows that the wrapping sum is the same.
- Translation.ImageMoved: stated where implied points move along (`OutlineMoves`); `OutlineAlike` says that this is exactly when the moved points parse to the moved outline.
- Translation.ImageShifted: stated for control points in 32-bit subpixels; beyond them drawn conics wrap (`Curves.DrawnConicEnds`).
- OutlineAccuracy.OutlineNearPath: like `PathNearOutline` stated command by command, from where the drawing stands, and for conics in 32-bit subpixels that are not skipped as a whole. The distance is that of the polyline; it is not carried on to the area of a pixel.
- Embolden.LimitedOffset: where one strength has room and the other has not, the shift is stated axis by axis (`AxisOffset`), without a distance along the edges. Strengths are supposed to lie in 0..2^24, and lengths up to 2^27 (`EdgeHasRoom`).
- Gzip and bzip2 fixtures, manifests and file writing: calls into libraries and the file system.
