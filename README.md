# Pose landmark normalisation, modelled in Dafny

`PoseDetector.getPosition` (PoseModule.py) turns one detected pose into a
small buffer of normalised 2D coordinates:

1. **Selection.** It walks the detector's landmark list in id order and keeps
   the landmarks whose id is in `LANDMARKS`. These are the nose, the shoulders,
   elbows and wrists, and the hips. Each kept landmark becomes the pixel row
   `int(x * w), int(y * h)` of an n-by-2 float buffer.
2. **Reference frame.** The neck is the mean of rows 0, 1 and 2: nose, left
   shoulder and right shoulder. The furthest shoulder is the one farther from
   the neck; on a tie it is the right one. The angle is the arctangent of the
   slope from the neck to that shoulder.
3. **Transforms.** `center`, `rotate` and `normalize` then overwrite the
   buffer in place:
   - `center` subtracts the neck;
   - `rotate` applies the rotation by the angle;
   - `normalize` divides by the distance from the neck to the furthest
     shoulder.

The four modules follow that structure:

- `Numerics`: points, `int()` truncation, and the numpy functions as a `Lib`
  record.
- `PoseFrame`: the reference frame and each transform's effect, as functions
  on sequences of rows, with their lemmas.
- `PoseTransforms`: the three in-place loops over an `array2<real>`, each
  proved against its `PoseFrame` function.
- `PoseDetector`: selection, the pipeline, and `getPosition` itself, with
  lemmas about what the pipeline computes.

## What the code does with its row views

`nose`, `left_shoulder`, `right_shoulder` and the returned
`furthest_shoulder` are numpy views of rows 0, 1 and 2 of the buffer. They
are not copies. `neck` is a fresh array. The model follows the code's
ordering exactly, and that ordering has three consequences.

**The shoulder choice uses centred shoulders.** `calculate_furthest_shoulder`
runs after `center`, so it compares the UNCENTRED neck with the CENTRED
shoulders. It therefore chooses by the raw distances from twice the neck
(`ReferenceRowFromRaw`). The choice depends on where the pose sits in the
image (`ReferenceRowDependsOnPosition`).

**The angle uses the uncentred neck.** `calculate_angle` likewise takes the
uncentred neck and the centred shoulder row.

**The scale divisor changes during the loop.** `normalize` recomputes
`norm(neck - furthest_shoulder)` before every division, and the reference row
is itself one of the rows being divided. So the divisor changes when the loop
passes that row:

| rows | divided by the distance to |
|---|---|
| before the reference row | the reference row as it was |
| the reference row, x | the reference row as it was |
| the reference row, y | the row after its x was divided |
| after the reference row | the fully divided row |

`Normalized` states this case split and `NormalizedRowViewNotUniform`
exhibits it.

**What a raw-coordinate frame would give instead.** Take the frame with nose
(100, 50) and shoulders (80, 100) and (120, 100) (`SymmetricFrame`). The raw
shoulders are equally far from the neck (100, 250/3). If the frame were
computed once from the raw rows, before any row moves,
`calculate_furthest_shoulder` would return the right shoulder on that tie, with
angle arctan(5/6). The code instead picks the LEFT shoulder, with angle
arctan(5/9). `SymmetricShouldersPickLeft` proves both outcomes, and this model
follows the code. The nose still ends up above the neck: its final y is
negative (`SymmetricFrameNoseAbove`).

Two more consequences of the code's order:

- The scale is read through the row view after `center` and `rotate`. It is
  the distance from the raw neck to the centred and rotated shoulder row, not
  a distance between raw points.
- Missing landmarks are not checked. A pose with three to eight selected rows
  goes through the pipeline like a full one. Only fewer than three rows fail,
  with the IndexError of `lmList[0]`, `lmList[1]` or `lmList[2]`.

Numbers are reals. numpy's `arctan`, `cos`, `sin` and `linalg.norm` are the
four function-valued fields of `Numerics.Lib`. Lemmas that need their meaning
require one of these soundness predicates:

- `TrigSound`: cosine and sine lie on the unit circle; the arctangent's
  cosine is positive and its tangent is its argument.
- `NormSound`: `norm` is the Euclidean length.

## Model

| member | source | states |
|---|---|---|
| Numerics.Trunc | PoseModule.py:86 | `int()` truncates toward zero: the result is within one of its argument, on the side of zero |
| Numerics.DistIsEuclidean | PoseModule.py:32-33 | with a Euclidean norm, the distance between two rows is non-negative, its square is the squared distance, and it is zero exactly when the rows coincide |
| Numerics.DistCompare | PoseModule.py:35 | comparing two Euclidean distances decides the same as comparing their squares |
| PoseFrame.Neck | PoseModule.py:20-21 | the neck is the mean of nose and shoulders: the three displacements from it sum to zero |
| PoseFrame.FurthestShoulder | PoseModule.py:31-39 | the left shoulder is returned exactly when its squared distance to the neck is strictly greater; otherwise, including on a tie, the right one |
| PoseFrame.Angle | PoseModule.py:41-45 | the angle's cosine is positive (it lies strictly between -pi/2 and pi/2) and its tangent is the slope from neck to shoulder |
| PoseFrame.NeckTranslates | PoseModule.py:20-21 | the mean commutes with translating all three inputs |
| PoseFrame.CentringMovesNeckToOrigin | PoseModule.py:23-29 | after centring on the mean of rows 0-2, the mean of the new rows 0-2 is the origin |
| PoseFrame.TranslatedInverse | PoseModule.py:23-29 | centring keeps the row count and is undone by the opposite translation |
| PoseFrame.TranslatedKeepsDifferences | PoseModule.py:23-29 | centring keeps the vector between any two rows |
| PoseFrame.RotatePointKeepsSqNorm | PoseModule.py:51-54 | rotating one row keeps its squared distance from the origin |
| PoseFrame.RotatedKeepsSqNorms | PoseModule.py:47-55 | `rotate` keeps the row count and every row's squared distance from the origin |
| PoseFrame.RotatePointLinear | PoseModule.py:53-54 | the rotation of a difference is the difference of the rotations |
| PoseFrame.RotatedKeepsSqDistances | PoseModule.py:47-55 | `rotate` keeps the squared distance between any two rows |
| PoseFrame.RotatePointInverse | PoseModule.py:53-54 | rotating back with the negated sine restores the row |
| PoseFrame.RotatedInverse | PoseModule.py:47-55 | `rotate` is undone by the rotation through the opposite angle |
| PoseFrame.AngleRotationTilt | PoseModule.py:41-55 | rotating the neck-to-shoulder vector by the computed angle gives a vertical component of twice the original times the cosine, so it is level only if it was level; the opposite angle would level it |
| PoseFrame.NormalizedDetachedIsUniform | PoseModule.py:57-63 | with a fixed reference point, every row is divided by one positive distance and multiplying back recovers it |
| PoseFrame.NormalizedRowViewDivisors | PoseModule.py:57-63 | with the reference a row of the buffer, rows before it, its own x and y, and rows after it are recovered by multiplying back by three positive distances: to the original row, to the half-divided row, and to the fully divided row |
| PoseFrame.NormalizedRowViewNotUniform | PoseModule.py:57-63 | through a row view, two equal rows before and after the reference row come out different: (1, 1) and (2, 2) |
| PoseTransforms.Center | PoseModule.py:23-29 | in place, returns the same buffer, whose rows are the old rows minus the neck |
| PoseTransforms.Rotate | PoseModule.py:47-55 | in place, returns the same buffer, whose rows are the old rows rotated by the angle, each from both of its old coordinates |
| PoseTransforms.Normalize | PoseModule.py:57-63 | in place, returns the same buffer, whose rows are `Normalized` of the old rows, with the divisor re-read from the reference before every division |
| PoseDetector.SelectLandmarks | PoseModule.py:79-87 | the loop's rows are exactly `Select`: one truncated pixel row per kept landmark, in id order |
| PoseDetector.KeptIdsExact | PoseModule.py:79-80 | an id is kept exactly when it is in `LANDMARKS` and below the length of the landmark list |
| PoseDetector.KeptIdsIncreasing | PoseModule.py:79-80 | the kept ids are below the list length and strictly increasing |
| PoseDetector.SelectRows | PoseModule.py:79-87 | there is one row per kept id, and row j is the pixel row of the landmark with the j-th kept id |
| PoseDetector.KeptIdsOfFullList | PoseModule.py:79-80 | a list of at least 25 landmarks keeps exactly `LANDMARKS` (line 10), in that order |
| PoseDetector.FullPoseSelection | PoseModule.py:79-94 | a full pose gives nine rows, the landmarks 0, 11, 12, 13, 14, 15, 16, 23 and 24 in that order, so rows 0, 1 and 2 are nose, left shoulder and right shoulder |
| PoseDetector.ReferenceRow | PoseModule.py:92-97 | the furthest shoulder is row 1 or row 2 of the buffer |
| PoseDetector.GetPosition | PoseModule.py:74-104 | no pose gives the empty 0-by-2 buffer; fewer than three selected rows raise IndexError; otherwise a new n-by-2 buffer holding `Pipeline` of the selected rows |
| PoseDetector.PipelineKeepsRows | PoseModule.py:95-100 | the pipeline keeps the number of rows |
| PoseDetector.ReferenceRowFromRaw | PoseModule.py:95-97 | the shoulder choice is row 1 exactly when the raw left shoulder is strictly farther than the right from twice the neck |
| PoseDetector.RotationKeepsDistancesFromNeck | PoseModule.py:95-99 | after centring and rotating, every row's squared distance from the origin is its raw squared distance from the neck |
| PoseDetector.SymmetricShouldersPickLeft | PoseModule.py:92-98 | for the frame with nose (100, 50) and shoulders (80, 100), (120, 100), the raw distances tie, so `calculate_furthest_shoulder` on raw rows would pick the right shoulder with angle arctan(5/6); the pipeline picks the left one with angle arctan(5/9) |
| PoseDetector.SymmetricFrameNoseAbove | PoseModule.py:92-102 | for that frame the centred nose is (0, -100/3), every division of the pipeline is defined, and the final nose y is negative |
| PoseDetector.ReferenceRowDependsOnPosition | PoseModule.py:95-97 | for level shoulders one pixel either side of the nose, the pipeline picks the left shoulder exactly when the nose is right of x = 0, so the choice is not translation-invariant |

## Left out

- Pose detection: `findPose`, `__init__`, OpenCV's colour conversion and the
  MediaPipe model. The detector's output for the frame is the `pose`
  parameter of `GetPosition`.
- Drawing: the `draw` flag and `cv2.circle`. They are output only and do not
  affect the returned buffer.
- `img.shape`: the image is not modelled. Its width and height are the
  parameters `w` and `h`.
- The third landmark coordinate and visibility are not modelled. The code
  keeps only x and y.
- Floating-point rounding, overflow, `inf` and `nan`: all arithmetic is on
  reals.
- Evaluation of `arctan`, `cos`, `sin` and `linalg.norm`: these are abstract
  functions. Lemmas that need their meaning require the `TrigSound` and
  `NormSound` predicates.
- GetPosition: requires that no division in the pipeline has a zero divisor
  (`PipelineDefined`). numpy would instead produce `inf` or `nan` and go on.
- PoseTransforms.Normalize: requires nonzero divisors
  (`NormalizeDefined`), for the same reason.
- PoseFrame.Angle: requires a nonzero run between neck and shoulder, for the
  same reason.
- PoseFrame.FurthestShoulder: its contract describes the choice only for a
  Euclidean `norm`. The code's `>` on the two distances is the function's
  body.
- `center` and `normalize` are modelled with `neck` as a separate point, as
  `getPosition` passes it. A `neck` that is itself a view into the buffer is
  not modelled.
- Closed-form numbers for the normalised rows of a concrete frame are not
  given. With abstract trigonometry only signs and relations can be proved, as
  `SymmetricFrameNoseAbove` does for the nose.
