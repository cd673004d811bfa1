# android-signaturepad in Dafny

A model of the drawing core of the android-signaturepad library: the view
that turns touch samples into smooth, velocity-weighted strokes, keeps
finished strokes for undo and redo, exports the drawing as SVG, and crops a
signature bitmap to its ink. Three generations of the view are modelled
side by side, because they share the smoothing pipeline but differ in its
details:

- the current `SignaturePad` view with its `PathManager` (undo/redo of
  recorded `Path`s, replayed through `Path.draw`);
- `SketchBoard` with its `SketchesManager` (undo/redo of `Trails`, a
  `ClearedTrails` marker that lets `clear` be redone, the `drawState` gate
  that blocks history actions while a replay is in flight, and the
  `TrailsDrawer` replay);
- the legacy `SignaturePad` of the first library release, with its own
  `TimedPoint` (plain division, no clamping) and its `Bezier.length`.

The SVG side covers `SvgBuilder` (paths grouped by rounded start point and
stroke width, closed by `build`), `SvgPathBuilder` and `SvgPoint`
(coordinates rounded with `Math.round`, compared and hashed by their text).

## Layout

| file | module | what it holds |
|---|---|---|
| java_math.dfy | JavaMath | `Option`, `Math.round`, `Math.max`, truncating `int` division and casts, IEEE float division outcomes, the square root as a specified choice |
| java_text.dfy | JavaText | `String.valueOf(int)`, parsing it back, counting characters, `String.hashCode` with 32-bit wrap-around |
| geometry.dfy | Geometry | `TimedPoint`, distance, the three `velocityFrom` versions |
| bezier.dfy | Bezier | the cubic Bernstein form and the legacy `Bezier.length` |
| smoothing.dfy | Smoothing | control points, velocity filter, stroke width, the per-curve draw plan |
| window.dfy | StrokeWindow | the sliding window of samples (`mPoints`) in both the current and the legacy form |
| stroke.dfy | StrokeDrawing | one curve per window step, the pen state (`mLastVelocity`, `mLastWidth`) carried across a stroke |
| ink.dfy | StrokeInk | the window, pen, drawn segments and SVG builder as one value fed sample by sample |
| touch.dfy | TouchInput | a `MotionEvent` and the sample it produces |
| stacks.dfy | UndoHistory | the history/retained stack pair shared by `PathManager` and `SketchesManager` |
| svg_point.dfy | SvgPoints | `SvgPoint` and `SvgBuilder.Point` |
| svg_path_builder.dfy | SvgPaths | `SvgPathBuilder` |
| svg_builder.dfy | SvgDocument | `SvgBuilder` |
| signature_pad.dfy | SignaturePadView | the current view |
| sketch_board.dfy | SketchBoardView | `SketchBoard` |
| legacy_pad.dfy | LegacySignaturePad | the legacy view |
| trim.dfy | TrimScan | the blank-space trim of `getTransparentSignatureBitmap(true)` |

Every `long` clock read by the source (`System.currentTimeMillis()`) is a
parameter: a touch event carries the one clock reading taken while it is
handled, and replay takes the clock as an argument. Coordinates and
widths are `real`; the square root behind `Math.hypot` and `Math.sqrt` is a
ghost function specified only by being non-negative, zero exactly at zero,
and a true root wherever one exists, so everything that depends on a
distance is ghost.

Where the code and the library's own documentation disagree, the model
follows the code:

- `SvgBuilder` writes `d="M ` and ` C ` with spaces, absolute coordinates,
  and the stroke style on every path; `SvgPathBuilder` writes `M` and `C`
  with no space. Degenerate curves are not dropped from the SVG.
- `PathManager.add` and `SketchesManager.add` push onto the history and
  leave the retained (redo) stack as it is; a new stroke does not discard
  what could be redone.
- `SvgBuilder.build` is not idempotent (see Findings).
- `SketchBoard.buildSketch` blanks the bitmap but not the SVG builder, so
  after an undo or redo the exported SVG keeps every curve written before
  and the replayed strokes are appended once more (see Findings); the
  current `SignaturePad` clears its SVG in the delayed `clearInternal`.
- The legacy velocity can be infinite (see Findings); the current
  `velocityFrom` clamps the interval to at least 1 ms and maps NaN and
  infinity to 0.
- The legacy `Bezier.length` divides `i / steps` in `int`, so every sample
  but the last is taken at t = 0 and the result is the chord from start to
  end, truncated to an `int` (`Bezier.LengthIsTruncatedChord`). The model
  keeps that length, since it sets the number of dots the legacy view draws.

## Model

| member | source | states |
|---|---|---|
| UndoHistory.Reverse | signature-pad/src/main/java/com/github/gcacace/signaturepad/views/SignaturePad.java:908 | reversing a list puts its last element first and keeps its length; the order in which pushes onto a `LinkedList` head come back |
| UndoHistory.ReverseReverse | signature-pad/src/main/java/com/github/gcacace/signaturepad/views/SignaturePad.java:915-917 | moving elements one at a time to another stack and back restores their order: reversing twice is the identity |
| UndoHistory.ReverseAppend | signature-pad/src/main/java/com/github/gcacace/signaturepad/views/SignaturePad.java:926-934 | popping a list in two batches reverses each batch and swaps their order |
| UndoHistory.Transfer | signature-pad/src/main/java/com/github/gcacace/signaturepad/views/SignaturePad.java:926-934 | popping k items from one stack and pushing each onto another leaves the source's suffix and puts the popped prefix, reversed, on top of the target |
| UndoHistory.TransferBack | signature-pad/src/main/java/com/github/gcacace/signaturepad/views/SignaturePad.java:926-960 | moving k items across and then k back restores both stacks |
| UndoHistory.UndoOne | signature-pad/src/main/java/com/github/gcacace/signaturepad/views/SignaturePad.java:915-918 | `PathManager.undo()` fails (the `pop` throws) exactly when the history is empty; otherwise the head of the history becomes the head of the retained list and nothing else moves |
| UndoHistory.GuardedUndoOne | signature-pad/src/main/java/com/github/gcacace/signaturepad/views/SketchBoard.java:786-791 | `SketchesManager.undo()` does nothing on an empty history and otherwise moves the history's head to the retained list |
| UndoHistory.RedoOne | signature-pad/src/main/java/com/github/gcacace/signaturepad/views/SignaturePad.java:939-944 | `redo()` does nothing when nothing is retained and otherwise moves the retained head back onto the history |
| UndoHistory.Undo | signature-pad/src/main/java/com/github/gcacace/signaturepad/views/SignaturePad.java:926-934 | `undo(steps)` reports min(steps, history size); a non-positive count changes nothing; otherwise exactly that many most recent items move to the retained list, most recent deepest, and no item is lost or created |
| UndoHistory.Redo | signature-pad/src/main/java/com/github/gcacace/signaturepad/views/SignaturePad.java:952-960 | `redo(steps)` reports min(steps, retained size); a non-positive count changes nothing; otherwise that many retained items return to the history in undo order, and no item is lost or created |
| UndoHistory.UndoIsRepeatedUndoOne | signature-pad/src/main/java/com/github/gcacace/signaturepad/views/SignaturePad.java:926-934 | `undo(k)` is the same as k calls of `undo()` |
| UndoHistory.RedoIsRepeatedRedoOne | signature-pad/src/main/java/com/github/gcacace/signaturepad/views/SignaturePad.java:952-960 | `redo(k)` is the same as k calls of `redo()` |
| UndoHistory.UndoThenRedo | signature-pad/src/main/java/com/github/gcacace/signaturepad/views/SignaturePad.java:926-960 | undoing k available steps and redoing k restores both stacks, and both calls report k |
| UndoHistory.RedoThenUndo | signature-pad/src/main/java/com/github/gcacace/signaturepad/views/SignaturePad.java:926-960 | redoing k retained steps and undoing k restores both stacks |
| UndoHistory.Add | signature-pad/src/main/java/com/github/gcacace/signaturepad/views/SignaturePad.java:901-910 | `add` ignores `null`; otherwise the item goes on top of the history and the retained stack is untouched |
| UndoHistory.Destroy | signature-pad/src/main/java/com/github/gcacace/signaturepad/views/SignaturePad.java:881-884 | `destroy` empties both stacks |
| JavaMath.Min | signature-pad/src/main/java/com/github/gcacace/signaturepad/views/SignaturePad.java:927 | `Math.min` is one of its arguments and no larger than either |
| JavaMath.Max | signature-pad/src/main/java/com/github/gcacace/signaturepad/views/SignaturePad.java:664 | `Math.max` is one of its arguments and no smaller than either |
| JavaMath.Round | signature-pad/src/main/java/com/github/gcacace/signaturepad/utils/SvgPoint.java:17-19 | `Math.round` gives the integer within one half of x, ties going up |
| JavaMath.RoundOfInteger | signature-pad/src/main/java/com/github/gcacace/signaturepad/utils/SvgPoint.java:17-19 | a coordinate that is already whole is kept as it is |
| JavaMath.HalfTowardZero | signature-pad/src/main/java/com/github/gcacace/signaturepad/views/SignaturePad.java:238 | Java's `int` division by 2 truncates toward zero, for negative sums too |
| JavaMath.HalfTowardZeroVersusEuclidean | signature-pad/src/main/java/com/github/gcacace/signaturepad/views/SignaturePad.java:238 | Java's `/ 2` agrees with floor division except on negative odd values, where it is one larger |
| JavaMath.TruncToInt | SignaturePad-Library/src/com/github/gcacace/signaturepad/utils/Bezier.java:33 | the `int` compound assignment truncates toward zero: the result lies within one of the value, on the zero side |
| JavaMath.Sqrt | signature-pad/src/main/java/com/github/gcacace/signaturepad/utils/TimedPoint.java:27-29 | the square root is non-negative, zero exactly for zero, and a true root whenever one exists |
| JavaMath.SqrtOfSquare | signature-pad/src/main/java/com/github/gcacace/signaturepad/utils/TimedPoint.java:27-29 | the root of a square is the absolute value |
| JavaMath.SquareZero | signature-pad/src/main/java/com/github/gcacace/signaturepad/utils/TimedPoint.java:27-29 | a square is zero exactly when its base is |
| JavaMath.Divide | SignaturePad-Library/src/com/github/gcacace/signaturepad/utils/TimedPoint.java:14-16 | the quotient is finite exactly for a non-zero divisor, and then multiplying back by the divisor gives the dividend; by zero it is NaN for 0/0 and infinity of the numerator's sign otherwise |
| JavaText.NatToString | signature-pad/src/main/java/com/github/gcacace/signaturepad/utils/SvgPoint.java:17-19 | the decimal text of a natural number is a non-empty run of digits with no leading zero |
| JavaText.IntToString | signature-pad/src/main/java/com/github/gcacace/signaturepad/utils/SvgPoint.java:17-19 | the decimal text of an `int` is digits, preceded by `-` exactly when the value is negative |
| JavaText.ParseInt | signature-pad/src/main/java/com/github/gcacace/signaturepad/utils/SvgPoint.java:16-20 | the parser accepts exactly an optional minus followed by at least one digit |
| JavaText.DigitsValueOfNatToString | signature-pad/src/main/java/com/github/gcacace/signaturepad/utils/SvgPoint.java:17-19 | reading the digits of a natural number's text gives the number back |
| JavaText.ParseIntToString | signature-pad/src/main/java/com/github/gcacace/signaturepad/utils/SvgPoint.java:17-19 | parsing the text of any `int` gives that `int` back |
| JavaText.IntToStringInjective | signature-pad/src/main/java/com/github/gcacace/signaturepad/utils/SvgPoint.java:28-36 | two `int`s have the same text exactly when they are equal |
| JavaText.IntToStringChars | signature-pad/src/main/java/com/github/gcacace/signaturepad/utils/SvgPoint.java:17-19 | the text of an `int` contains only digits and the minus sign |
| JavaText.CountAppend | signature-pad/src/main/java/com/github/gcacace/signaturepad/utils/SvgPathBuilder.java:34-39 | occurrences of a character in a concatenation add up |
| JavaText.CountInIntToString | signature-pad/src/main/java/com/github/gcacace/signaturepad/utils/SvgPoint.java:17-19 | a character that is neither a digit nor `-` never occurs in an `int`'s text |
| JavaText.SplitAt | signature-pad/src/main/java/com/github/gcacace/signaturepad/utils/SvgPoint.java:16-20 | splitting at the first separator gives a prefix free of it and a suffix that rebuild the text; no split exactly when the separator is absent |
| JavaText.SplitAtJoin | signature-pad/src/main/java/com/github/gcacace/signaturepad/utils/SvgPoint.java:16-20 | text joined with a separator the prefix lacks splits back into its two parts |
| JavaText.Wrap32 | signature-pad/src/main/java/com/github/gcacace/signaturepad/utils/SvgPoint.java:38-40 | `int` arithmetic is the true value reduced into the signed 32-bit range |
| JavaText.StringHash | signature-pad/src/main/java/com/github/gcacace/signaturepad/utils/SvgPoint.java:38-40 | `String.hashCode` is a signed 32-bit value |
| Geometry.Set | signature-pad/src/main/java/com/github/gcacace/signaturepad/utils/TimedPoint.java:8-13 | `set` overwrites the position and takes the current clock as timestamp |
| Geometry.Distance | signature-pad/src/main/java/com/github/gcacace/signaturepad/utils/TimedPoint.java:27-29 | the distance is non-negative and zero exactly for coincident points |
| Geometry.DistanceSymmetric | signature-pad/src/main/java/com/github/gcacace/signaturepad/utils/TimedPoint.java:27-29 | the distance from a to b equals the distance from b to a |
| Geometry.DistanceOnLine | signature-pad/src/main/java/com/github/gcacace/signaturepad/utils/TimedPoint.java:27-29 | on a horizontal line the distance is the difference of the x coordinates |
| Geometry.ClampedInterval | signature-pad/src/main/java/com/github/gcacace/signaturepad/utils/TimedPoint.java:16-19 | the interval used for velocity is at least 1 ms and is the true interval whenever the clock advanced |
| Geometry.VelocityFrom | signature-pad/src/main/java/com/github/gcacace/signaturepad/utils/TimedPoint.java:15-25 | the current velocity is finite, non-negative, at most the distance, zero exactly for coincident points, the raw distance when the clock did not advance, and distance over interval otherwise |
| Geometry.VelocityOfCoincident | signature-pad/src/main/java/com/github/gcacace/signaturepad/utils/TimedPoint.java:15-25 | coincident points have velocity 0 in the current and in the main legacy version |
| Geometry.LegacyVelocityFrom | SignaturePad-Library/src/com/github/gcacace/signaturepad/utils/TimedPoint.java:14-16 | the oldest velocity is distance over interval when the timestamps differ; on a tie it is NaN for coincident points and positive infinity otherwise, never negative infinity |
| Geometry.LegacyMainVelocityFrom | SignaturePad-Library/src/main/java/com/github/gcacace/signaturepad/utils/TimedPoint.java:14-18 | with the NaN guard the velocity is never NaN; it is infinite exactly on a timestamp tie between distinct points, and negative when the clock went backwards between distinct points |
| Bezier.CoordAtStart | SignaturePad-Library/src/com/github/gcacace/signaturepad/utils/Bezier.java:42-47 | at t = 0 the curve is at its start |
| Bezier.CoordAtEnd | SignaturePad-Library/src/com/github/gcacace/signaturepad/utils/Bezier.java:42-47 | at t = 1 the curve is at its end |
| Bezier.WeightsSumToOne | SignaturePad-Library/src/com/github/gcacace/signaturepad/utils/Bezier.java:42-47 | the four Bernstein weights sum to one for every t |
| Bezier.WeightsNonNegative | SignaturePad-Library/src/com/github/gcacace/signaturepad/utils/Bezier.java:42-47 | for t in [0, 1] all four weights are non-negative |
| Bezier.CoordOfConstant | SignaturePad-Library/src/com/github/gcacace/signaturepad/utils/Bezier.java:42-47 | a curve whose four points coincide stays at that point |
| Bezier.CoordWithin | SignaturePad-Library/src/com/github/gcacace/signaturepad/utils/Bezier.java:42-47 | for t in [0, 1] the curve stays within any interval that holds its four points |
| Bezier.CombineWithin | signature-pad/src/main/java/com/github/gcacace/signaturepad/views/SignaturePad.java:615-623 | any convex combination of the four points stays within an interval that holds them |
| Bezier.Sample | SignaturePad-Library/src/com/github/gcacace/signaturepad/utils/Bezier.java:24-29 | with `t = i / steps` in `int` arithmetic every sample before the last is the start point and the last is the end point |
| Bezier.LengthFromStart | SignaturePad-Library/src/com/github/gcacace/signaturepad/utils/Bezier.java:24-37 | once the first sample is taken, the loop adds nothing until the last step, which adds the truncated chord |
| Bezier.LengthIsTruncatedChord | SignaturePad-Library/src/com/github/gcacace/signaturepad/utils/Bezier.java:18-40 | the legacy length is the distance from start to end, rounded down, and never negative |
| Smoothing.Ratio | signature-pad/src/main/java/com/github/gcacace/signaturepad/views/SignaturePad.java:647-653 | the weight k lies in [0, 1] and is 0 exactly when the second leg has zero length, including the 0/0 case the NaN guard catches |
| Smoothing.ControlPoints | signature-pad/src/main/java/com/github/gcacace/signaturepad/views/SignaturePad.java:636-661 | both control points get the current clock as timestamp |
| Smoothing.ControlPointsGeometry | signature-pad/src/main/java/com/github/gcacace/signaturepad/views/SignaturePad.java:636-661 | both control points are the two midpoints moved by the same vector, so they are as far apart as the midpoints |
| Smoothing.ShiftedMidpointsGeometry | signature-pad/src/main/java/com/github/gcacace/signaturepad/views/SignaturePad.java:642-660 | translating the midpoints by s2 - cm keeps their difference and puts s2 at the k-weighted point between the results |
| Smoothing.ControlPointsOfCollinear | signature-pad/src/main/java/com/github/gcacace/signaturepad/views/SignaturePad.java:636-661 | for three samples on a horizontal line both control points lie on that line |
| Smoothing.ControlPointsOfCoincident | signature-pad/src/main/java/com/github/gcacace/signaturepad/views/SignaturePad.java:636-661 | three coincident samples give control points at the same spot |
| Smoothing.LegacyControlPoints | SignaturePad-Library/src/com/github/gcacace/signaturepad/views/SignaturePad.java:156-177 | without the NaN guard the construction fails (NaN) exactly when all three samples coincide, and otherwise agrees with the guarded version |
| Smoothing.MixBetween | signature-pad/src/main/java/com/github/gcacace/signaturepad/views/SignaturePad.java:568-569 | a weighted mix of two values lies between them |
| Smoothing.FilterWithin | signature-pad/src/main/java/com/github/gcacace/signaturepad/views/SignaturePad.java:568-569 | the filtered velocity lies between the new and the previous velocity, and is non-negative when both are |
| Smoothing.StrokeWidth | signature-pad/src/main/java/com/github/gcacace/signaturepad/views/SignaturePad.java:663-665 | the width is never below the minimum and, for a sane configuration, never above the maximum |
| Smoothing.QuotientAntitone | signature-pad/src/main/java/com/github/gcacace/signaturepad/views/SignaturePad.java:664 | dividing by a larger positive number gives a smaller quotient |
| Smoothing.StrokeWidthAntitone | signature-pad/src/main/java/com/github/gcacace/signaturepad/views/SignaturePad.java:663-665 | a faster stroke is never wider, and velocity 0 gives the maximum width |
| Smoothing.ResetWidth | SignaturePad-Library/src/com/github/gcacace/signaturepad/views/SignaturePad.java:187 | the reset width lies between the minimum and the maximum |
| Smoothing.DrawSteps | signature-pad/src/main/java/com/github/gcacace/signaturepad/views/SignaturePad.java:604 | the number of dots is the curve length rounded down, and none for a negative length |
| Smoothing.StepParameter | signature-pad/src/main/java/com/github/gcacace/signaturepad/views/SignaturePad.java:606-608 | each dot's parameter lies in [0, 1), the first being 0 |
| Smoothing.CubeInUnit | signature-pad/src/main/java/com/github/gcacace/signaturepad/views/SignaturePad.java:610 | the cube of a parameter in [0, 1] stays in [0, 1] |
| Smoothing.DrawPlan | signature-pad/src/main/java/com/github/gcacace/signaturepad/views/SignaturePad.java:599-634 | one dot per step of the rounded-down length |
| Smoothing.DrawPlanStartsAtStart | signature-pad/src/main/java/com/github/gcacace/signaturepad/views/SignaturePad.java:606-629 | a curve of length at least 1 draws its first dot at its start, with the eraser width or the start width |
| Smoothing.DrawPlanWidths | signature-pad/src/main/java/com/github/gcacace/signaturepad/views/SignaturePad.java:626 | in erase mode every dot has the eraser width; in draw mode every dot's width lies between the start and end widths |
| Smoothing.DrawPlanInBox | signature-pad/src/main/java/com/github/gcacace/signaturepad/views/SignaturePad.java:615-623 | every dot lies inside any box that contains the curve's four points |
| Smoothing.SvgWidth | signature-pad/src/main/java/com/github/gcacace/signaturepad/views/SignaturePad.java:600 | the width sent to the SVG is the mean of the start and end widths, and so lies between them |
| StrokeWindow.Quads | signature-pad/src/main/java/com/github/gcacace/signaturepad/views/SignaturePad.java:549-590 | a window of e samples yields e - 3 consecutive quadruples, none below four samples |
| StrokeWindow.Tail | signature-pad/src/main/java/com/github/gcacace/signaturepad/views/SignaturePad.java:586 | the window keeps at most the three latest samples |
| StrokeWindow.AddPoint | signature-pad/src/main/java/com/github/gcacace/signaturepad/views/SignaturePad.java:546-597 | the first sample is duplicated (the copy stamped with the current clock); the second and third only extend the window; from the fourth on one quadruple is emitted and the oldest sample dropped, so the window never exceeds three |
| StrokeWindow.LegacyAddPoint | SignaturePad-Library/src/com/github/gcacace/signaturepad/views/SignaturePad.java:75-114 | the legacy window duplicates the first sample when the third arrives, emitting the quadruple (p0, p0, p1, p2); from then on it slides like the current one |
| StrokeWindow.Expanded | signature-pad/src/main/java/com/github/gcacace/signaturepad/views/SignaturePad.java:591-596 | the samples the window actually sees are one more than those fed |
| StrokeWindow.QuadsAppend | signature-pad/src/main/java/com/github/gcacace/signaturepad/views/SignaturePad.java:549-590 | one more sample adds exactly one quadruple at the end |
| StrokeWindow.SlideTail | signature-pad/src/main/java/com/github/gcacace/signaturepad/views/SignaturePad.java:586 | dropping the oldest of four samples leaves the latest three |
| StrokeWindow.FeedProducesQuads | signature-pad/src/main/java/com/github/gcacace/signaturepad/views/SignaturePad.java:546-597 | feeding n samples from an empty window emits the quadruples of the sample list with its first sample doubled, n - 2 of them from three samples on, and leaves its last three samples in the window |
| StrokeWindow.FeedStep | signature-pad/src/main/java/com/github/gcacace/signaturepad/views/SignaturePad.java:546-597 | one sample moves a window holding the last samples of a list to the last samples of the list extended by it, and emits exactly the one quadruple the extension adds |
| StrokeWindow.LegacyFeedProducesQuads | SignaturePad-Library/src/com/github/gcacace/signaturepad/views/SignaturePad.java:75-114 | the legacy window emits nothing for fewer than three samples and otherwise the quadruples of the list with its first sample doubled |
| StrokeWindow.LegacyFeedThird | SignaturePad-Library/src/com/github/gcacace/signaturepad/views/SignaturePad.java:80 | the third legacy sample emits the first quadruple of the doubled list |
| StrokeWindow.LegacyFeedLong | SignaturePad-Library/src/com/github/gcacace/signaturepad/views/SignaturePad.java:82-112 | each later legacy sample emits the next quadruple of the doubled list |
| StrokeWindow.LegacyFeedAgrees | SignaturePad-Library/src/com/github/gcacace/signaturepad/views/SignaturePad.java:75-114 | when the duplicate carries the first sample's timestamp the two window versions emit the same curves |
| StrokeWindow.QuadsJoin | signature-pad/src/main/java/com/github/gcacace/signaturepad/views/SignaturePad.java:560 | consecutive curves of a stroke share their joining sample, and the first starts at the duplicated first sample |
| StrokeWindow.QuadsOverlap | signature-pad/src/main/java/com/github/gcacace/signaturepad/views/SignaturePad.java:560 | each quadruple's end is the next one's start |
| StrokeDrawing.Widths | signature-pad/src/main/java/com/github/gcacace/signaturepad/views/SignaturePad.java:65-67 | the pen widths in pixels carry over to the smoothing configuration, and a valid pen gives a valid configuration |
| StrokeDrawing.ClearedPen | signature-pad/src/main/java/com/github/gcacace/signaturepad/views/SignaturePad.java:234-238 | clearing sets the velocity to 0 and the width to half the sum of the widths, truncated, which lies between them |
| StrokeDrawing.CurveOf | signature-pad/src/main/java/com/github/gcacace/signaturepad/views/SignaturePad.java:552-560 | the curve runs from the window's second sample to its third |
| StrokeDrawing.CurveOfHorizontal | signature-pad/src/main/java/com/github/gcacace/signaturepad/views/SignaturePad.java:552-560 | four samples on a horizontal line give a curve on that line |
| StrokeDrawing.DrawQuad | signature-pad/src/main/java/com/github/gcacace/signaturepad/views/SignaturePad.java:549-590 | one window step draws from the previous width to the new one, keeps the pen within the width range, sets the width from the filtered velocity, and the filtered velocity lies between the old one and the new measurement |
| StrokeDrawing.DrawQuadAtRest | signature-pad/src/main/java/com/github/gcacace/signaturepad/views/SignaturePad.java:565-569 | a step without motion decays the velocity by 1 - weight |
| StrokeDrawing.DrawQuads | signature-pad/src/main/java/com/github/gcacace/signaturepad/views/SignaturePad.java:546-597 | a stroke draws one segment per quadruple in order, in the stroke's mode, each starting at the previous segment's end width and all within the width range |
| StrokeDrawing.DrawQuadsSnoc | signature-pad/src/main/java/com/github/gcacace/signaturepad/views/SignaturePad.java:579-582 | drawing one more quadruple extends the stroke by one segment from the pen the stroke left |
| StrokeDrawing.DrawQuadsCons | signature-pad/src/main/java/com/github/gcacace/signaturepad/views/SignaturePad.java:579-582 | a stroke is its first segment followed by the rest drawn from the pen that segment left |
| StrokeDrawing.WidthChainExtend | signature-pad/src/main/java/com/github/gcacace/signaturepad/views/SignaturePad.java:579-582 | appending a segment that starts at the pen's width and ends at the new pen's width keeps the widths chained |
| StrokeDrawing.DrawnCurvesJoin | signature-pad/src/main/java/com/github/gcacace/signaturepad/views/SignaturePad.java:560 | consecutive drawn curves meet: each ends where the next begins |
| StrokeDrawing.ControlPointsPositional | signature-pad/src/main/java/com/github/gcacace/signaturepad/views/SignaturePad.java:636-661 | control points depend only on the positions of the samples, not their timestamps or the clock |
| StrokeDrawing.RatioPositional | signature-pad/src/main/java/com/github/gcacace/signaturepad/views/SignaturePad.java:647-653 | the weight k depends only on positions |
| StrokeDrawing.DrawQuadAlike | signature-pad/src/main/java/com/github/gcacace/signaturepad/views/SignaturePad.java:549-590 | two quadruples whose samples lie at the same positions and whose middle samples give the same velocity draw the same pen and the same shape, at any clock |
| StrokeDrawing.DrawQuadsAlike | signature-pad/src/main/java/com/github/gcacace/signaturepad/views/SignaturePad.java:546-597 | streams of such quadruples draw the same pen and the same shapes, whatever the clock |
| StrokeDrawing.DrawStroke | signature-pad/src/main/java/com/github/gcacace/signaturepad/views/SignaturePad.java:546-597 | a stroke of n samples draws n - 2 segments from three samples on |
| StrokeDrawing.DrawStrokeClockIndependent | signature-pad/src/main/java/com/github/gcacace/signaturepad/views/SignaturePad.java:591-596 | when the first two samples coincide the clock stamped on the duplicate does not change the drawing |
| StrokeInk.ClearedInk | signature-pad/src/main/java/com/github/gcacace/signaturepad/views/SignaturePad.java:234-238 | clearing empties the window, the drawing and the SVG builder and resets the pen |
| StrokeInk.AddSample | signature-pad/src/main/java/com/github/gcacace/signaturepad/views/SignaturePad.java:546-600 | a sample moves the window; if a curve is emitted, one segment is drawn from the current pen's width, the pen advances, and the curve is appended to the SVG builder with the mean of its two widths; otherwise nothing else changes |
| StrokeInk.AddSampleExtendsDrawing | signature-pad/src/main/java/com/github/gcacace/signaturepad/views/SignaturePad.java:546-600 | adding a sample to a partly drawn stroke gives the drawing, and the SVG appends, of the stroke's quadruples so far plus the new one |
| StrokeInk.AddSamplesDrawsStroke | signature-pad/src/main/java/com/github/gcacace/signaturepad/views/SignaturePad.java:546-600 | feeding samples into an empty window draws exactly the stroke of their quadruples, and the SVG builder receives each drawn curve in order with its mean width |
| StrokeInk.SvgOfSegmentsAppend | signature-pad/src/main/java/com/github/gcacace/signaturepad/views/SignaturePad.java:596-600 | appending two runs of segments to the SVG is appending the first run, then the second |
| StrokeInk.SvgOfSegmentsExtends | signature-pad/src/main/java/com/github/gcacace/signaturepad/views/SignaturePad.java:596-600 | appending segments only extends the SVG buffer, keeping what it held in front |
| TouchInput.SampleOf | signature-pad/src/main/java/com/github/gcacace/signaturepad/views/SignaturePad.java:528-540 | a touch event's sample has its position and the clock of the event |
| SignaturePadView.Chronological | signature-pad/src/main/java/com/github/gcacace/signaturepad/views/SignaturePad.java:820-826 | replay reads the trails from the back of the list, oldest first |
| SignaturePadView.MovesPushTrails | signature-pad/src/main/java/com/github/gcacace/signaturepad/views/SignaturePad.java:798-800 | each MOVE pushes a trail on the head, so after m moves the trails are the moves newest first above the earlier trails, and the path's mode and DOWN position are unchanged |
| SignaturePadView.GestureReplaysAsDrawn | signature-pad/src/main/java/com/github/gcacace/signaturepad/views/SignaturePad.java:251-306 | a gesture DOWN, moves, UP begins the path at the DOWN position in the current mode, and replaying it feeds the same positions and timestamps the live gesture fed, in order |
| SignaturePadView.GestureFeed | signature-pad/src/main/java/com/github/gcacace/signaturepad/views/SignaturePad.java:814-826 | replay feeds the oldest trail twice, then every trail oldest first |
| SignaturePadView.IsDoubleClick | signature-pad/src/main/java/com/github/gcacace/signaturepad/views/SignaturePad.java:509-526 | with clear-on-double-click off no touch is a double click and the counters stay |
| SignaturePadView.DoubleClickTiming | signature-pad/src/main/java/com/github/gcacace/signaturepad/views/SignaturePad.java:509-526 | the first click is never a double click; the second is one exactly when it comes within 200 ms; after a double click the next click is not one |
| SignaturePadView.SetIsEmpty | signature-pad/src/main/java/com/github/gcacace/signaturepad/views/SignaturePad.java:702-711 | the flag is set and the listener told `onClear` or `onSigned` every time, even without a change |
| SignaturePadView.AddSample | signature-pad/src/main/java/com/github/gcacace/signaturepad/views/SignaturePad.java:546-597 | adding a sample moves the window and changes nothing outside the ink |
| SignaturePadView.ClearInternal | signature-pad/src/main/java/com/github/gcacace/signaturepad/views/SignaturePad.java:234-248 | clearing resets the ink, marks the view empty and keeps the paths and the mode |
| SignaturePadView.Clear | signature-pad/src/main/java/com/github/gcacace/signaturepad/views/SignaturePad.java:229-232 | `clear` does what `clearInternal` does and also moves every recorded path to the redo stack |
| SignaturePadView.TouchDown | signature-pad/src/main/java/com/github/gcacace/signaturepad/views/SignaturePad.java:263-281 | a double click clears the view and its history; otherwise the window holds the doubled DOWN sample, the path is begun and gets a trail, the history is unchanged and `onStartSigning` is reported |
| SignaturePadView.TouchMove | signature-pad/src/main/java/com/github/gcacace/signaturepad/views/SignaturePad.java:278-281 | a MOVE feeds one sample and pushes one trail, and changes neither the history nor the empty flag |
| SignaturePadView.TouchUp | signature-pad/src/main/java/com/github/gcacace/signaturepad/views/SignaturePad.java:283-292 | an UP feeds one sample, pushes a final trail, records the path on the history, forgets it, and marks the view signed |
| SignaturePadView.OnTouchEvent | signature-pad/src/main/java/com/github/gcacace/signaturepad/views/SignaturePad.java:251-306 | a disabled view ignores events; an event is consumed exactly when it is DOWN, MOVE or UP; any other action only creates the path |
| SignaturePadView.TouchTracksPath | signature-pad/src/main/java/com/github/gcacace/signaturepad/views/SignaturePad.java:251-306 | except for a double click, an event changes the path as `begin`/`move` do, and only UP records it |
| SignaturePadView.UndoInternal | signature-pad/src/main/java/com/github/gcacace/signaturepad/views/SignaturePad.java:740-760 | with nothing to undo the view is unchanged; otherwise the paths are undone, a redraw is flagged and `onRestoreFromHistory` is reported, and nothing else changes |
| SignaturePadView.RedoInternal | signature-pad/src/main/java/com/github/gcacace/signaturepad/views/SignaturePad.java:762-782 | the same for redo |
| SignaturePadView.UndoRedoRestoresPaths | signature-pad/src/main/java/com/github/gcacace/signaturepad/views/SignaturePad.java:740-782 | undoing k paths and redoing k restores the history |
| SignaturePadView.ClearThenRedo | signature-pad/src/main/java/com/github/gcacace/signaturepad/views/SignaturePad.java:229-232 | after `clear`, redoing as many steps as there were paths restores the history |
| SignaturePadView.SetMode | signature-pad/src/main/java/com/github/gcacace/signaturepad/views/SignaturePad.java:183-188 | `setMode(null)` keeps the mode; any other mode replaces it |
| SignaturePadView.ReplayPath | signature-pad/src/main/java/com/github/gcacace/signaturepad/views/SignaturePad.java:802-833 | a path without trails replays nothing; otherwise the view becomes non-empty, and the mode and history are as before |
| SignaturePadView.ReplayPathDrawsStroke | signature-pad/src/main/java/com/github/gcacace/signaturepad/views/SignaturePad.java:802-833 | replaying a path draws exactly the stroke of its replay samples, in the path's mode, from the pen the view had, and appends the same curves with their mean widths to the SVG |
| SignaturePadView.ReplayPaths | signature-pad/src/main/java/com/github/gcacace/signaturepad/views/SignaturePad.java:327-335 | replaying paths keeps the history and the mode |
| SignaturePadView.ReplayPathsAppend | signature-pad/src/main/java/com/github/gcacace/signaturepad/views/SignaturePad.java:327-335 | replaying two runs of paths one after the other is replaying their concatenation |
| SignaturePadView.RestoreSignatures | signature-pad/src/main/java/com/github/gcacace/signaturepad/views/SignaturePad.java:327-335 | restoring keeps the history, drops the redraw flag and waits for the draw to complete |
| SignaturePadView.RestoreOrderIsRecordingOrder | signature-pad/src/main/java/com/github/gcacace/signaturepad/views/SignaturePad.java:327-331 | paths recorded one after another are replayed in the order they were recorded |
| SketchBoardView.NodeOf | signature-pad/src/main/java/com/github/gcacace/signaturepad/views/SketchBoard.java:609-613 | a trail node keeps the sample's position and timestamp |
| SketchBoardView.NodePoint | signature-pad/src/main/java/com/github/gcacace/signaturepad/views/SketchBoard.java:945-948 | the sample rebuilt from a node gives that node back |
| SketchBoardView.AddNode | signature-pad/src/main/java/com/github/gcacace/signaturepad/views/SketchBoard.java:674-676 | `addNode` pushes on the head and changes nothing else |
| SketchBoardView.FirstNode | signature-pad/src/main/java/com/github/gcacace/signaturepad/views/SketchBoard.java:682-684 | `firstNode` is absent exactly for an empty trail |
| SketchBoardView.LastNode | signature-pad/src/main/java/com/github/gcacace/signaturepad/views/SketchBoard.java:686-688 | `lastNode` is absent exactly for an empty trail |
| SketchBoardView.OldestFirst | signature-pad/src/main/java/com/github/gcacace/signaturepad/views/SketchBoard.java:940-949 | replay reads the nodes from the back of the list, oldest first |
| SketchBoardView.CopyBackwards | signature-pad/src/main/java/com/github/gcacace/signaturepad/views/SketchBoard.java:636-644 | walking from the last node down to the first and appending each at the tail with `add` reverses the nodes |
| SketchBoardView.CloneTrails | signature-pad/src/main/java/com/github/gcacace/signaturepad/views/SketchBoard.java:636-644 | `cloneTrails` keeps the mode and screen, and swaps the first and last nodes |
| SketchBoardView.CloneTwice | signature-pad/src/main/java/com/github/gcacace/signaturepad/views/SketchBoard.java:636-644 | cloning twice gives the original back |
| SketchBoardView.CloneIsNotACopy | signature-pad/src/main/java/com/github/gcacace/signaturepad/views/SketchBoard.java:636-644 | a clone of two distinct nodes differs from its original |
| SketchBoardView.CopyTrails | signature-pad/src/main/java/com/github/gcacace/signaturepad/views/SketchBoard.java:636-644 | a copy that appends at the tail equals the original |
| SketchBoardView.ScanNodes | signature-pad/src/main/java/com/github/gcacace/signaturepad/views/SketchBoard.java:491-504 | the scan remembers the head node and notes whether the last node in the list lies off the head on each axis |
| SketchBoardView.ValidTrailNodesIff | signature-pad/src/main/java/com/github/gcacace/signaturepad/views/SketchBoard.java:491-504 | a trail is accepted exactly when it has at least two nodes and its oldest and newest nodes differ in position |
| SketchBoardView.ClosedLoopRejected | signature-pad/src/main/java/com/github/gcacace/signaturepad/views/SketchBoard.java:491-504 | a trail whose last MOVE comes back to its DOWN position is rejected |
| SketchBoardView.Moved | signature-pad/src/main/java/com/github/gcacace/signaturepad/views/SketchBoard.java:491-504 | a trail moved exactly when some node lies off its newest node |
| SketchBoardView.MovedAcceptsMore | signature-pad/src/main/java/com/github/gcacace/signaturepad/views/SketchBoard.java:491-504 | every trail `validTrailNodes` accepts has moved, and the closed loop is a trail that moved |
| SketchBoardView.AsTrails | signature-pad/src/main/java/com/github/gcacace/signaturepad/views/SketchBoard.java:702-716 | a clear marker stands as an empty trail in draw mode |
| SketchBoardView.MarkerFor | signature-pad/src/main/java/com/github/gcacace/signaturepad/views/SketchBoard.java:741-748 | the marker refers to all the cleared trails |
| SketchBoardView.ClearSketches | signature-pad/src/main/java/com/github/gcacace/signaturepad/views/SketchBoard.java:736-751 | clearing an empty history does nothing; otherwise it reports the history size, empties the history, and puts the marker above the cleared trails on the retained stack |
| SketchBoardView.ReplaySource | signature-pad/src/main/java/com/github/gcacace/signaturepad/views/SketchBoard.java:874-881 | when the history's head is a marker it is removed and the trails to replay are exactly its references; otherwise the whole history is replayed and the stacks are unchanged |
| SketchBoardView.ClearThenRedoReplaysCleared | signature-pad/src/main/java/com/github/gcacace/signaturepad/views/SketchBoard.java:874-881 | after `clear` and one redo the replay comes from the marker's references and the cleared trails stay retained below |
| SketchBoardView.DrawOrder | signature-pad/src/main/java/com/github/gcacace/signaturepad/views/SketchBoard.java:920-956 | replay succeeds exactly when every entry has a first node, and then draws the entries from the last one to the first |
| SketchBoardView.HistoryReplaysOldestFirst | signature-pad/src/main/java/com/github/gcacace/signaturepad/views/SketchBoard.java:929-930 | replaying a history of strokes draws them oldest first |
| SketchBoardView.ClearedReplayNewestFirst | signature-pad/src/main/java/com/github/gcacace/signaturepad/views/SketchBoard.java:742-748 | after `clear` and one redo the replay draws the cleared strokes newest first |
| SketchBoardView.DrawOrderOfReversed | signature-pad/src/main/java/com/github/gcacace/signaturepad/views/SketchBoard.java:929-930 | replaying a reversed list draws it in its original order |
| SketchBoardView.EraseLostAfterClearRedo | signature-pad/src/main/java/com/github/gcacace/signaturepad/views/SketchBoard.java:742-748 | a stroke and the eraser pass over it, replayed after `clear` and redo, come back with the eraser first, so the erased ink reappears |
| SketchBoardView.ClearSketchesInOrder | signature-pad/src/main/java/com/github/gcacace/signaturepad/views/SketchBoard.java:736-751 | the corrected clear reports the history size and retains the marker above the cleared trails |
| SketchBoardView.ClearInOrderRestoresOrder | signature-pad/src/main/java/com/github/gcacace/signaturepad/views/SketchBoard.java:736-751 | with the corrected clear, `clear` and one redo replay the drawing in its original order |
| SketchBoardView.RedoPastMarkerFails | signature-pad/src/main/java/com/github/gcacace/signaturepad/views/SketchBoard.java:874-881 | redoing past a marker leaves the marker beneath the redone stroke and replay fails on the marker's missing first node |
| SketchBoardView.StrokesToReplay | signature-pad/src/main/java/com/github/gcacace/signaturepad/views/SketchBoard.java:929-935 | the corrected replay list holds only strokes taken from the data |
| SketchBoardView.StrokesToReplayAgrees | signature-pad/src/main/java/com/github/gcacace/signaturepad/views/SketchBoard.java:929-935 | where the original replay succeeds, the corrected one draws the same trails |
| SketchBoardView.RedoPastMarkerReplaysStroke | signature-pad/src/main/java/com/github/gcacace/signaturepad/views/SketchBoard.java:874-881 | with the corrected replay, redoing past the marker draws the redone stroke |
| SketchBoardView.Clear | signature-pad/src/main/java/com/github/gcacace/signaturepad/views/SketchBoard.java:148-166 | `clear` resets the ink, opens the gate and clears the history behind a marker |
| SketchBoardView.AddSample | signature-pad/src/main/java/com/github/gcacace/signaturepad/views/SketchBoard.java:197-248 | adding a sample moves the window and changes nothing outside the ink |
| SketchBoardView.OpenTrails | signature-pad/src/main/java/com/github/gcacace/signaturepad/views/SketchBoard.java:405-423 | with no trail open a new empty one is made in the current mode |
| SketchBoardView.Begin | signature-pad/src/main/java/com/github/gcacace/signaturepad/views/SketchBoard.java:405-423 | `begin` opens the gate, doubles the first sample in an emptied window and starts the trail with the DOWN node |
| SketchBoardView.RecordMove | signature-pad/src/main/java/com/github/gcacace/signaturepad/views/SketchBoard.java:428-446 | a move onto the trail's newest position is recorded as a node but not drawn; any other move is both; with no trail open nothing is recorded |
| SketchBoardView.MoveTo | signature-pad/src/main/java/com/github/gcacace/signaturepad/views/SketchBoard.java:428-446 | `moveTo` records the node, feeds the sample only if the position changed, and leaves history and gate alone |
| SketchBoardView.End | signature-pad/src/main/java/com/github/gcacace/signaturepad/views/SketchBoard.java:451-486 | a double click only drops the trail; otherwise an accepted trail gets the UP node and goes on the history and the UP sample is drawn, a rejected trail only empties the window, and without a trail nothing is recorded |
| SketchBoardView.RecordMovesNodes | signature-pad/src/main/java/com/github/gcacace/signaturepad/views/SketchBoard.java:428-446 | each move pushes one node, newest first, and moves that never repeat the newest position feed all their samples |
| SketchBoardView.StrokeReplaysLive | signature-pad/src/main/java/com/github/gcacace/signaturepad/views/SketchBoard.java:405-486 | the recorded stroke, read oldest first, is the DOWN, move and UP samples in order, and is exactly what was fed live when no move repeated a position |
| SketchBoardView.ReplayTrails | signature-pad/src/main/java/com/github/gcacace/signaturepad/views/SketchBoard.java:920-956 | replay changes only the ink and the mode, and leaves the window empty |
| SketchBoardView.ReplayOneDrawsStroke | signature-pad/src/main/java/com/github/gcacace/signaturepad/views/SketchBoard.java:920-956 | replaying one trail draws exactly the stroke of its samples oldest first, in its own mode, and appends the same curves with their mean widths to the SVG |
| SketchBoardView.ReplayTrailsAppend | signature-pad/src/main/java/com/github/gcacace/signaturepad/views/SketchBoard.java:920-956 | replaying two runs of trails one after the other is replaying their concatenation |
| SketchBoardView.DrawTrails | signature-pad/src/main/java/com/github/gcacace/signaturepad/views/SketchBoard.java:920-956 | drawing trails one after another, the pen carried over, leaves the pen within the widths |
| SketchBoardView.ReplayTrailsDraws | signature-pad/src/main/java/com/github/gcacace/signaturepad/views/SketchBoard.java:920-956 | replaying any run of trails draws exactly their strokes in order and appends the same curves with their mean widths to the SVG |
| SketchBoardView.BuildSketch | signature-pad/src/main/java/com/github/gcacace/signaturepad/views/SketchBoard.java:851-893 | `buildSketch` fails exactly when replay meets an entry without a first node; otherwise the marker is consumed, the mode, gate and open trail are kept, the bitmap holds exactly the drawing of the replayed trails in drawer order, and the SVG keeps everything written before and gains the same curves |
| SketchBoardView.UndoAllKeepsSvg | signature-pad/src/main/java/com/github/gcacace/signaturepad/views/SketchBoard.java:851-893 | undoing every stroke leaves nothing drawn while the SVG is unchanged, still holding the undone strokes |
| SketchBoardView.BuildSketchFixed | signature-pad/src/main/java/com/github/gcacace/signaturepad/views/SketchBoard.java:851-893 | the corrected rebuild draws the same and leaves the SVG holding exactly the redrawn curves |
| SketchBoardView.UndoSketch | signature-pad/src/main/java/com/github/gcacace/signaturepad/views/SketchBoard.java:540-561 | undo is ignored unless the gate is open and there is history; otherwise the gate closes as undoing and the history is undone and rebuilt |
| SketchBoardView.RedoSketch | signature-pad/src/main/java/com/github/gcacace/signaturepad/views/SketchBoard.java:568-589 | the same for redo |
| SketchBoardView.DrawOnCanvas | signature-pad/src/main/java/com/github/gcacace/signaturepad/views/SketchBoard.java:509-523 | drawing reopens the gate and changes nothing else |
| SketchBoardView.ClearHistories | signature-pad/src/main/java/com/github/gcacace/signaturepad/views/SketchBoard.java:594-596 | `clearHistories` empties both stacks and changes nothing else |
| SketchBoardView.GateHoldsUntilDraw | signature-pad/src/main/java/com/github/gcacace/signaturepad/views/SketchBoard.java:540-589 | after an undo starts, further undo and redo are ignored until the next draw reopens the gate |
| SketchBoardView.UndoDrawRedo | signature-pad/src/main/java/com/github/gcacace/signaturepad/views/SketchBoard.java:509-589 | undoing k strokes, drawing, and redoing k restores the history |
| LegacySignaturePad.FilterFloat | SignaturePad-Library/src/com/github/gcacace/signaturepad/views/SignaturePad.java:94-95 | for finite velocities the filter is the usual mix; an infinite previous velocity stays infinite |
| LegacySignaturePad.LegacyStrokeWidth | SignaturePad-Library/src/com/github/gcacace/signaturepad/views/SignaturePad.java:179-181 | a finite velocity gives the usual width, an infinite one the minimum width, NaN gives NaN |
| LegacySignaturePad.ClearedPen | SignaturePad-Library/src/com/github/gcacace/signaturepad/views/SignaturePad.java:183-187 | clearing sets the velocity to 0 and the width to the mean of the widths, within them for a sane configuration |
| LegacySignaturePad.LegacyControls | SignaturePad-Library/src/com/github/gcacace/signaturepad/views/SignaturePad.java:82-86 | the legacy control points fail (NaN) exactly when the curve's two endpoints coincide and so does one of the outer pairs; otherwise they give the same curve as the current code |
| LegacySignaturePad.LegacyDrawQuad | SignaturePad-Library/src/com/github/gcacace/signaturepad/views/SignaturePad.java:82-108 | the legacy curve runs between the window's middle samples, from the previous width to the new one |
| LegacySignaturePad.LegacyAgreesWhileClockAdvances | SignaturePad-Library/src/com/github/gcacace/signaturepad/views/SignaturePad.java:91-99 | while the clock advances between samples the legacy pen computes the same velocity and width as the current one |
| LegacySignaturePad.LegacyDrawQuads | SignaturePad-Library/src/com/github/gcacace/signaturepad/views/SignaturePad.java:75-114 | the legacy stroke draws one segment per quadruple, in order, widths chained |
| LegacySignaturePad.InfiniteVelocityOnTie | SignaturePad-Library/src/com/github/gcacace/signaturepad/views/SignaturePad.java:91-99 | two distinct samples with the same timestamp make the velocity infinite and the width the minimum |
| LegacySignaturePad.StuckAtMinWidth | SignaturePad-Library/src/com/github/gcacace/signaturepad/views/SignaturePad.java:94-99 | once infinite, the velocity stays infinite and the width minimal on the next step |
| LegacySignaturePad.StuckForTheStroke | SignaturePad-Library/src/com/github/gcacace/signaturepad/views/SignaturePad.java:94-99 | once infinite, it stays so for the rest of the stroke and every segment ends at the minimum width |
| LegacySignaturePad.CorrectedDrawQuad | signature-pad/src/main/java/com/github/gcacace/signaturepad/utils/TimedPoint.java:15-25 | the corrected legacy step draws from the previous width to the new one |
| LegacySignaturePad.CorrectedStaysFinite | signature-pad/src/main/java/com/github/gcacace/signaturepad/utils/TimedPoint.java:15-25 | with the clamped interval the pen stays finite and within the widths, and a tie counts as a 1 ms interval |
| LegacySignaturePad.CorrectedRecoversAtRest | signature-pad/src/main/java/com/github/gcacace/signaturepad/utils/TimedPoint.java:15-25 | with the clamped interval a step without motion decays the velocity and never narrows the line |
| LegacySignaturePad.RestStep | SignaturePad-Library/src/com/github/gcacace/signaturepad/views/SignaturePad.java:94-99 | a step at rest multiplies the velocity by 1 - weight and does not narrow the line |
| LegacySignaturePad.Steps | SignaturePad-Library/src/com/github/gcacace/signaturepad/views/SignaturePad.java:120 | a legacy curve is drawn with as many dots as its truncated chord, none when its control points are NaN |
| LegacySignaturePad.NaNControlsDrawNothing | SignaturePad-Library/src/com/github/gcacace/signaturepad/views/SignaturePad.java:116-148 | the dot count of a legacy curve is its chord rounded down, so NaN control points only occur on a curve that draws no dots |
| LegacySignaturePad.LegacyPlan | SignaturePad-Library/src/com/github/gcacace/signaturepad/views/SignaturePad.java:116-148 | the legacy curve draws one dot per step, each with a width between the start and end widths |
| LegacySignaturePad.SetIsEmpty | SignaturePad-Library/src/com/github/gcacace/signaturepad/views/SignaturePad.java:275-287 | the legacy flag notifies the listener only on a change |
| LegacySignaturePad.SetIsEmptyAlternates | SignaturePad-Library/src/com/github/gcacace/signaturepad/views/SignaturePad.java:275-287 | listener notifications alternate with the flag, and setting the same value twice notifies once |
| LegacySignaturePad.Clear | SignaturePad-Library/src/com/github/gcacace/signaturepad/views/SignaturePad.java:183-193 | `clear` empties the window and drawing, resets the pen, marks the view empty, and notifies `onClear` only if it was signed |
| LegacySignaturePad.Configured | SignaturePad-Library/src/com/github/gcacace/signaturepad/views/SignaturePad.java:55-57 | the defaults are widths 3 and 7 and filter weight 0.9; given attributes win |
| LegacySignaturePad.New | SignaturePad-Library/src/com/github/gcacace/signaturepad/views/SignaturePad.java:44-73 | a new legacy view is cleared, empty, has no listener, and with default widths starts at width 5 |
| LegacySignaturePad.AddSample | SignaturePad-Library/src/com/github/gcacace/signaturepad/views/SignaturePad.java:75-114 | adding a sample moves the legacy window and, when a quadruple is emitted, draws one legacy segment; nothing else changes |
| LegacySignaturePad.OnTouchEvent | SignaturePad-Library/src/com/github/gcacace/signaturepad/views/SignaturePad.java:195-235 | an event is consumed exactly when it is DOWN, MOVE or UP; DOWN doubles the sample in an emptied window and marks the view signed; MOVE and UP add one sample; the configuration and listener never change |
| LegacySignaturePad.ReplayAppend | SignaturePad-Library/src/com/github/gcacace/signaturepad/views/SignaturePad.java:195-235 | handling two event lists in turn is handling their concatenation |
| LegacySignaturePad.TracesExtend | SignaturePad-Library/src/com/github/gcacace/signaturepad/views/SignaturePad.java:105 | a segment drawn for the next quadruple extends the trace |
| LegacySignaturePad.AddSampleFeeds | SignaturePad-Library/src/com/github/gcacace/signaturepad/views/SignaturePad.java:75-114 | adding a sample to a view fed some samples leaves it fed those samples plus the new one |
| LegacySignaturePad.MovesFeed | SignaturePad-Library/src/com/github/gcacace/signaturepad/views/SignaturePad.java:212-215 | moves feed their samples in order and change neither the empty flag nor the notifications |
| LegacySignaturePad.FeedOfDoubledStart | SignaturePad-Library/src/com/github/gcacace/signaturepad/views/SignaturePad.java:80 | a doubled first sample makes the first legacy curve a point at the start |
| LegacySignaturePad.DownFeeds | SignaturePad-Library/src/com/github/gcacace/signaturepad/views/SignaturePad.java:203-215 | DOWN feeds its sample twice and marks the view signed |
| LegacySignaturePad.StrokeReplay | SignaturePad-Library/src/com/github/gcacace/signaturepad/views/SignaturePad.java:195-235 | a gesture is DOWN handled first, then the moves, then UP |
| LegacySignaturePad.StrokeDrawsFeed | SignaturePad-Library/src/com/github/gcacace/signaturepad/views/SignaturePad.java:195-235 | a gesture feeds DOWN twice, the moves and UP, draws one segment per move plus one, starting with a point at DOWN, and leaves the view signed |
| SvgPoints.DecodeFromPoint | signature-pad/src/main/java/com/github/gcacace/signaturepad/utils/SvgPoint.java:13-21 | the text of a point reads back as its rounded coordinates |
| SvgPoints.NoCommaInInt | signature-pad/src/main/java/com/github/gcacace/signaturepad/utils/SvgPoint.java:16-20 | the coordinate texts hold no comma, so the separator is unambiguous |
| SvgPoints.CountInRendered | signature-pad/src/main/java/com/github/gcacace/signaturepad/utils/SvgPoint.java:16-20 | a point's text contains only digits, minus signs and the comma |
| SvgPoints.EqualsIffSameRounding | signature-pad/src/main/java/com/github/gcacace/signaturepad/utils/SvgPoint.java:28-36 | two points are equal exactly when their coordinates round to the same integers |
| SvgPoints.EqualsProperties | signature-pad/src/main/java/com/github/gcacace/signaturepad/utils/SvgPoint.java:28-36 | equality is reflexive and symmetric, and nothing equals `null` |
| SvgPoints.HashCode | signature-pad/src/main/java/com/github/gcacace/signaturepad/utils/SvgPoint.java:38-40 | the hash is a signed 32-bit value |
| SvgPoints.HashCodeConsistent | signature-pad/src/main/java/com/github/gcacace/signaturepad/utils/SvgPoint.java:38-40 | equal points have equal hashes |
| SvgPaths.New | signature-pad/src/main/java/com/github/gcacace/signaturepad/utils/SvgPathBuilder.java:19-24 | a new path builder starts and ends at its start point with no segments |
| SvgPaths.Append | signature-pad/src/main/java/com/github/gcacace/signaturepad/utils/SvgPathBuilder.java:34-39 | appending a curve moves the last point to its end and only extends the segments |
| SvgPaths.AppendAllSegments | signature-pad/src/main/java/com/github/gcacace/signaturepad/utils/SvgPathBuilder.java:34-39 | appending curves in turn concatenates their commands, ends at the last curve's end, and keeps the start and width |
| SvgPaths.CountInCubic | signature-pad/src/main/java/com/github/gcacace/signaturepad/utils/SvgPathBuilder.java:56-64 | a curve's text holds no command letters |
| SvgPaths.CommandsCount | signature-pad/src/main/java/com/github/gcacace/signaturepad/utils/SvgPathBuilder.java:34-39 | the segments hold one `C` per curve and no `M` |
| SvgPaths.PathOfCurves | signature-pad/src/main/java/com/github/gcacace/signaturepad/utils/SvgPathBuilder.java:41-54 | the path text is the `path` element with the width, `M` and the start point, and one `C` command per curve |
| SvgPaths.ToStringThenAppend | signature-pad/src/main/java/com/github/gcacace/signaturepad/utils/SvgPathBuilder.java:34-54 | the text after an append ends with `C` and the new curve's text before the closing quote |
| SvgDocument.TextAppend | signature-pad/src/main/java/com/github/gcacace/signaturepad/utils/SvgBuilder.java:89-120 | the text of two runs of pieces is the two texts concatenated |
| SvgDocument.Empty | signature-pad/src/main/java/com/github/gcacace/signaturepad/utils/SvgBuilder.java:45-50 | a new builder is well-formed and empty |
| SvgDocument.Clear | signature-pad/src/main/java/com/github/gcacace/signaturepad/utils/SvgBuilder.java:52-56 | `clear` empties the buffer and forgets the open path |
| SvgDocument.CurveToOf | signature-pad/src/main/java/com/github/gcacace/signaturepad/utils/SvgBuilder.java:101-110 | a curve command ends at the curve's end |
| SvgDocument.Added | signature-pad/src/main/java/com/github/gcacace/signaturepad/utils/SvgBuilder.java:71-87 | an append always ends with the curve command, and opens a new path exactly when the rounded start differs from the last point or the rounded width from the path's width; otherwise it adds only the curve |
| SvgDocument.AppendSvg | signature-pad/src/main/java/com/github/gcacace/signaturepad/utils/SvgBuilder.java:71-87 | after an append the last point is the curve's end and the width is the rounded width; the buffer only grows |
| SvgDocument.Append | signature-pad/src/main/java/com/github/gcacace/signaturepad/utils/SvgBuilder.java:71-87 | the same in terms of a curve and a float width, with coordinates and width rounded |
| SvgDocument.AppendOpensPathIff | signature-pad/src/main/java/com/github/gcacace/signaturepad/utils/SvgBuilder.java:78-85 | an append opens a new path exactly when the continuation test fails, and always ends with the curve |
| SvgDocument.AppendValid | signature-pad/src/main/java/com/github/gcacace/signaturepad/utils/SvgBuilder.java:71-87 | appending keeps the builder's invariant: the pieces are well nested, and a path is open exactly when a last point is recorded |
| SvgDocument.AppendExtendsText | signature-pad/src/main/java/com/github/gcacace/signaturepad/utils/SvgBuilder.java:71-87 | appending only adds text at the end |
| SvgDocument.Build | signature-pad/src/main/java/com/github/gcacace/signaturepad/utils/SvgBuilder.java:58-69 | `build` closes an open path in the buffer itself and keeps the last point and width; the document is the header, the buffer and `</svg>` |
| SvgDocument.Closed | signature-pad/src/main/java/com/github/gcacace/signaturepad/utils/SvgBuilder.java:58-61 | closing a well-formed buffer leaves no path open |
| SvgDocument.Document | signature-pad/src/main/java/com/github/gcacace/signaturepad/utils/SvgBuilder.java:58-69 | the corrected build gives the same document as `build` |
| SvgDocument.BuildFixed | signature-pad/src/main/java/com/github/gcacace/signaturepad/utils/SvgBuilder.java:58-69 | the corrected `build` returns the same text as the written one, and hands back a builder with the same open-path state |
| SvgDocument.DocumentWellFormed | signature-pad/src/main/java/com/github/gcacace/signaturepad/utils/SvgBuilder.java:58-69 | after the corrected `build` the builder is still valid, a second `build` gives the same text, all paths are closed, and a curve that continues the open path lands inside it, before its end |
| SvgDocument.BuildBreaksBuilder | signature-pad/src/main/java/com/github/gcacace/signaturepad/utils/SvgBuilder.java:58-69 | after `build` the builder is no longer well-formed: building again closes the path twice, and appending a continuing curve writes it after the closed path |
| SvgDocument.BuildAgainLonger | signature-pad/src/main/java/com/github/gcacace/signaturepad/utils/SvgBuilder.java:58-69 | with a path open, `build` returns more than the header, buffer and footer |
| SvgDocument.CurveTos | signature-pad/src/main/java/com/github/gcacace/signaturepad/utils/SvgBuilder.java:101-110 | one curve command per curve |
| SvgDocument.AppendChain | signature-pad/src/main/java/com/github/gcacace/signaturepad/utils/SvgBuilder.java:78-85 | curves that continue one another at one width add only their curve commands |
| SvgDocument.ChainStep | signature-pad/src/main/java/com/github/gcacace/signaturepad/utils/SvgBuilder.java:78-85 | the first curve of a chain adds just its command and leaves the rest a chain |
| SvgDocument.FirstCurve | signature-pad/src/main/java/com/github/gcacace/signaturepad/utils/SvgBuilder.java:78-99 | the first curve into an empty builder opens a path at its start and adds its command |
| SvgDocument.ChainIsOnePath | signature-pad/src/main/java/com/github/gcacace/signaturepad/utils/SvgBuilder.java:71-110 | a stroke whose curves continue one another at one width becomes one path: one open and one command per curve |
| TrimScan.TrimBounds | signature-pad/src/main/java/com/github/gcacace/signaturepad/views/SignaturePad.java:433-504 | the scans find no ink exactly for a blank bitmap, and otherwise the tightest box around all ink |
| TrimScan.CropAsWritten | signature-pad/src/main/java/com/github/gcacace/signaturepad/views/SignaturePad.java:506 | the crop as written starts at the box's corner and leaves out its last column and last row |
| TrimScan.CropAsWrittenLosesInk | signature-pad/src/main/java/com/github/gcacace/signaturepad/views/SignaturePad.java:506 | the crop as written loses ink in the rightmost and bottom lines, and is zero wide for a single-column signature |
| TrimScan.SinglePixelCrop | signature-pad/src/main/java/com/github/gcacace/signaturepad/views/SignaturePad.java:506 | a one-pixel signature gets a 0 by 0 crop |
| TrimScan.Crop | signature-pad/src/main/java/com/github/gcacace/signaturepad/views/SignaturePad.java:506 | the corrected crop starts at the box's corner and is at least one pixel each way |
| TrimScan.CropKeepsAllInk | signature-pad/src/main/java/com/github/gcacace/signaturepad/views/SignaturePad.java:445-506 | the corrected crop holds all ink, lies inside the bitmap, and lies inside every rectangle that holds all ink |

## Left out

- Bitmap drawing and compositing (`Canvas`, `Paint`, xfermodes, the
  background image, `mergeBackground`), the dirty rectangle and
  `invalidate`, `requestDisallowInterceptTouchEvent`, and the pooled point
  caches (`mPointsCache`, `recyclePoint`): platform plumbing that does not
  change which curves and widths are produced. The draw plan of each curve is
  the list of dots handed to the canvas.
- Android attribute parsing, `convertDpToPx`, and the view's constructor
  beyond the default widths: a configuration is a parameter.
- Listener presence: `signals` of the current view and `doubleClicks` of
  the board record the notifications a listener would receive, as if one
  were always set; the source skips them when the listener is null
  (`SignaturePad.java` lines 273 and 704, `SketchBoard.java` line 457).
- The listener setters, `canUndo`/`canRedo`/`countUndo`/`countRedo`, the
  getters and `getSignatureSvg`: accessors with nothing to prove.
- Threads and timers: the `AsyncTask` of `TrailsDrawer`, `post` in
  `Path.draw`, and the 500 ms `postDelayed` of `undoInternal` and
  `redoInternal` (their delayed `clearInternal` is not part of the undo or
  redo step). Replay is a function applied in one go.
- Wall-clock reads: each event carries one clock reading, used both for
  its `Trail` and its `TimedPoint`; the source reads the clock separately
  for each, which can differ by a millisecond.
- Float arithmetic: coordinates and widths are exact reals. Rounding
  error, signed zero, the saturation and NaN cases of `Math.round`, and
  overflow of `long` timestamps are not modelled.
- JavaMath.Sqrt: a specified choice, not a computed root.
- The new library's `Bezier.length()` is not part of this model; the curve
  length is a parameter of `Smoothing.DrawPlan`.
- `setSignatureBitmap`, `getSignatureBitmap` and the white-background
  copy, `setBackgroundImage`, and the screen-orientation warning: bitmap
  handling outside the core.
- The unfinished `SVGBuilder` TODO class in `SketchBoard.java` and the
  `ViewCompat` helpers: no behaviour to model.
- TrimScan.TrimBounds: pixels are `int` colours and transparency is the
  value 0; `getPixel` is an index into the bitmap.
- SketchBoardView.BuildSketch: the orientation check only logs, and the
  blank restore bitmap is the emptied drawing.

## Findings

| source | as written | input that shows it | evidently intended | confidence | as-written member | corrected member |
|---|---|---|---|---|---|---|
| signature-pad/src/main/java/com/github/gcacace/signaturepad/views/SignaturePad.java:506 | the crop is `xMax - xMin` wide and `yMax - yMin` high for inclusive bounds | a signature of one pixel at (1, 1) gives a 0 by 0 crop, which `createBitmap` refuses | width `xMax - xMin + 1` and height `yMax - yMin + 1`, keeping every inked pixel | high, not executed | TrimScan.CropAsWrittenLosesInk | TrimScan.CropKeepsAllInk |
| signature-pad/src/main/java/com/github/gcacace/signaturepad/utils/SvgBuilder.java:58-69 | `build` appends the closing of the open path to the buffer but keeps the open-path state | `build` twice returns the closing tail twice; an `append` continuing the last curve after `build` writes ` C …` after a closed path | `build` closes a copy and leaves the builder reusable | high, not executed | SvgDocument.BuildBreaksBuilder | SvgDocument.DocumentWellFormed |
| SignaturePad-Library/src/com/github/gcacace/signaturepad/utils/TimedPoint.java:14-16 | velocity is distance over the raw timestamp difference | two distinct samples read in the same millisecond give +Infinity, after which the filtered velocity stays infinite and every later curve of the stroke has the minimum width | clamp the interval to at least 1 ms, as the later `TimedPoint` does | medium, not executed | LegacySignaturePad.StuckForTheStroke | LegacySignaturePad.CorrectedStaysFinite |
| signature-pad/src/main/java/com/github/gcacace/signaturepad/views/SketchBoard.java:874-881 | `buildSketch` treats only a marker at the history's head as a cleared batch | clear one stroke, then `redo(2)`: the stroke lies above the marker, and replay reads the marker's missing first node | skip markers during replay | medium, not executed | SketchBoardView.RedoPastMarkerFails | SketchBoardView.RedoPastMarkerReplaysStroke |
| signature-pad/src/main/java/com/github/gcacace/signaturepad/views/SketchBoard.java:742-748 | `clear` pushes each popped trail onto the marker's list, so the references are newest last, and replay walks them from the end | a stroke then an eraser pass: after `clear` and redo the eraser replays first and the erased ink reappears | replay the cleared strokes in drawing order | medium, not executed | SketchBoardView.EraseLostAfterClearRedo | SketchBoardView.ClearInOrderRestoresOrder |
| signature-pad/src/main/java/com/github/gcacace/signaturepad/views/SketchBoard.java:491-504 | a trail is accepted only if its newest and oldest nodes differ | a stroke whose last MOVE returns exactly to its starting point is discarded; the test runs before the UP node is added, so the UP position plays no part | accept any trail that moved | low, not executed | SketchBoardView.ClosedLoopRejected | SketchBoardView.MovedAcceptsMore |
| signature-pad/src/main/java/com/github/gcacace/signaturepad/views/SketchBoard.java:636-644 | `cloneTrails` walks the nodes from the last index down and appends each at the tail with `add`, reversing them; no code in the library calls it, so nothing observable follows | a two-node trail's clone has its nodes swapped | a copy in the same order | low, not executed | SketchBoardView.CloneIsNotACopy | SketchBoardView.CopyTrails |
| signature-pad/src/main/java/com/github/gcacace/signaturepad/views/SketchBoard.java:851-890 | `buildSketch` recreates the bitmap but never clears `mSvgBuilder`; only `clear` does | draw one stroke, then `undo(1)`: the view is blank, yet `getSignatureSvg` still returns the stroke's path | clear the SVG builder with the bitmap, as the current `SignaturePad` does before a redraw | high, not executed | SketchBoardView.UndoAllKeepsSvg | SketchBoardView.BuildSketchFixed |
