# Depth from focus: best-focus selection and point emission

This project models the algorithmic core of DepthFromFocus, a small Java application. It takes a
stack of images of a static scene, each captured at a different lens focus setting, and estimates
the depth of every pixel. It picks the focus level at which the pixel's edge intensity peaks. Then
it turns that level into a 3-D point.

The model covers two steps of `DepthByFocusApp`:

- **Best-focus selection** (`selectBestFocus`). The edge-intensity volume holds one flat row-major
  plane per focus level. For every pixel the code finds the first band with the largest positive
  intensity. The search starts from band -1 and intensity 0 and moves only on a strictly larger
  value. The pixel is rejected (cell value 0) when the peak is weaker than `MIN_EDGE_INTENSITY`
  (30), when it sits on the first or last band, or when either neighbouring band is not more than
  `MIN_PEAK` (20) below it. Otherwise the cell holds the band index.
- **Point emission** (`computeCloud`). Every cell whose inverse depth `d = focus / N` is positive
  becomes a point at depth `z = 1 / d`. Its `x` and `y` are the pixel's undistorted normalised
  coordinates scaled by `z`.

Modules:

- `Focus` (`focus.dfy`) is the per-pixel selector on a column of intensities. `Scan` is the maximum
  search. `SelectPixel` adds the checks. Both carry contracts stated against independent
  definitions: `IsFirstPeak` and `Accepted`.
- `FocusField` (`focus_field.dfy`) holds the edge volume as flat buffers. It has the imperative
  triple loop of the source (`SelectBestFocus`, `SelectPixelAt`) and its functional counterpart
  `SelectField`.
- `Cloud` (`cloud.dfy`) holds the emission loop (`ComputeCloud`, `EmitRow`, `EmitPixel`), the
  reference cloud `CloudOfPrefix`, the set of emitted pixels `EmittedPixels`, and the inverse
  projection `Reproject`.
- `Pipeline` (`pipeline.dfy`) states facts about the two stages together.
- `RowMajor` (`row_major.dfy`) holds index arithmetic for row-major buffers.

Behaviour of the code worth knowing:

- The code raises no error for a stack of fewer than three images. With fewer than three bands every cell simply comes out 0 (`ShortStackRejected`, `ShortStackAllZero`).
- Every plane has the middle image's size, because the constructor reshapes all bands to it (`DepthByFocusApp.java:75`). The model states this as the precondition `EdgeVolume.Valid`. What happens to an input image of another size is decided inside the gradient call (`:107`), which is not part of this model.
- A rejected pixel is stored as 0, with no separate flag. This is unambiguous because band 0 is never accepted (`SelectedIsInterior`).
- The thresholds are mutable `public static float` fields defaulting to 30 and 20 (`DepthByFocusApp.java:49-50`). The model takes them as parameters and keeps the defaults as `Focus.MIN_EDGE_INTENSITY` and `Focus.MIN_PEAK`.

## Model

| member | source | states |
|---|---|---|
| Focus.Scan | src/main/java/peterabeles/DepthByFocusApp.java:135-144 | The band search returns -1 with intensity 0 when no band is positive. Otherwise it returns the first band holding the largest value, together with that value: every earlier band is strictly smaller and every later band is no larger. |
| Focus.FirstPeakUnique | src/main/java/peterabeles/DepthByFocusApp.java:138-144 | At most one band is the first peak of a column, so the band `Scan`'s contract describes is unique. |
| Focus.FirstPeakRejected | src/main/java/peterabeles/DepthByFocusApp.java:147-158 | Once the first peak fails the strength, boundary or margin check, no band at all is accepted. That is why rejecting the peak found by the search is the same as rejecting the pixel. |
| Focus.SelectPixel | src/main/java/peterabeles/DepthByFocusApp.java:135-159 | A pixel's cell is either 0 or a band that is an interior first peak, at least `minEdge` strong, with both neighbours more than `minPeak` below it. Conversely, whenever some band meets all of those conditions the cell is exactly that band. |
| Focus.SelectedIsInterior | src/main/java/peterabeles/DepthByFocusApp.java:147-158 | A stored cell is 0 or lies in 1..N-2, so the first and last focus levels are never stored. |
| Focus.ShortStackRejected | src/main/java/peterabeles/DepthByFocusApp.java:131-148 | With fewer than three bands the cell is 0, and no error is raised. |
| Focus.NoEdgeRejected | src/main/java/peterabeles/DepthByFocusApp.java:135-148 | If no band at the pixel is positive, the search's best band stays -1 and the cell is 0 for any thresholds. |
| Focus.StricterThresholdsOnlyReject | src/main/java/peterabeles/DepthByFocusApp.java:147-159 | Raising either threshold can only turn a stored band into 0. It never creates a focus and never moves one to another band. |
| Focus.SharpPeakAccepted | src/main/java/peterabeles/DepthByFocusApp.java:135-156 | Intensities 5, 10, 90, 12, 6 with the default thresholds give band 2. |
| Focus.BroadPeakRejected | src/main/java/peterabeles/DepthByFocusApp.java:152-158 | Intensities 5, 10, 40, 35, 6 give 0: the right neighbour is within the 20 margin. |
| Focus.BoundaryPeakRejected | src/main/java/peterabeles/DepthByFocusApp.java:147-148 | Intensities 90, 50, 10, 5, 3 give 0: the peak is on the first band. |
| FocusField.EdgeVolume.Column | src/main/java/peterabeles/DepthByFocusApp.java:139 | A pixel's column has one value per band, and entry `k` is the value of band `k` at flat index `idx`. |
| FocusField.SelectField | src/main/java/peterabeles/DepthByFocusApp.java:130-163 | The output buffer has one cell per pixel. Each cell is 0 or an accepted band of that pixel's own column, and every accepted band is stored. |
| FocusField.SelectPixelAt | src/main/java/peterabeles/DepthByFocusApp.java:135-159 | The loop over focus levels, keeping the best band and intensity in two variables, followed by the three checks, computes exactly the per-pixel selection of that pixel's column. |
| FocusField.SelectBestFocus | src/main/java/peterabeles/DepthByFocusApp.java:130-163 | The row/column loop with a running flat index overwrites every cell of the reused buffer. Its result is the functional best-focus buffer, whatever the buffer held before. |
| FocusField.FieldCellsInterior | src/main/java/peterabeles/DepthByFocusApp.java:147-158 | Every cell of the whole buffer is 0 or an interior band 1..N-2. |
| FocusField.ShortStackAllZero | src/main/java/peterabeles/DepthByFocusApp.java:131-148 | A volume of fewer than three planes gives an all-zero buffer. |
| FocusField.CellDependsOnlyOnColumn | src/main/java/peterabeles/DepthByFocusApp.java:133-160 | Two volumes with the same intensities at pixel `idx` give the same cell there, whatever the other pixels hold. |
| FocusField.FieldStricterThresholdsOnlyReject | src/main/java/peterabeles/DepthByFocusApp.java:147-159 | Over the whole buffer, stricter thresholds only clear cells. Every cell that stays non-zero keeps its band. |
| Cloud.InverseDepth | src/main/java/peterabeles/DepthByFocusApp.java:178 | The inverse depth times the stack size gives back the stored focus index. |
| Cloud.Emits | src/main/java/peterabeles/DepthByFocusApp.java:179-180 | A pixel is kept when its inverse depth is positive. For a non-empty stack that is exactly when its focus index is positive. |
| Cloud.ProjectPixel | src/main/java/peterabeles/DepthByFocusApp.java:182-188 | The point of an emitted pixel has positive depth with `z * focus == N`, and it carries the pixel's colour. |
| Cloud.ProjectionRoundTrip | src/main/java/peterabeles/DepthByFocusApp.java:182-188 | Reprojecting an emitted point gives back the pixel's normalised coordinates and its inverse depth. The depth satisfies `z * focus == N`, and the point carries the pixel's colour. |
| Cloud.EmittedPixels | src/main/java/peterabeles/DepthByFocusApp.java:176-181 | The emitted pixels are exactly the cells with positive inverse depth, listed in strictly increasing row-major order. There are never more of them than cells. |
| Cloud.CloudOfPrefixMatchesEmitted | src/main/java/peterabeles/DepthByFocusApp.java:176-189 | The reference cloud holds one point per emitted pixel, in the order of the emitted pixels. Each point is that pixel's projection. |
| Cloud.EmitPixel | src/main/java/peterabeles/DepthByFocusApp.java:178-188 | One iteration appends the pixel's point when its inverse depth is positive and leaves the cloud unchanged otherwise. This matches the reference cloud extended by one cell. |
| Cloud.EmitRow | src/main/java/peterabeles/DepthByFocusApp.java:177-189 | The inner loop over one row extends the reference cloud from the row's first cell to the next row's first cell. |
| Cloud.ComputeCloud | src/main/java/peterabeles/DepthByFocusApp.java:176-190 | The emission loop produces exactly one point per emitted pixel, in row-major order. That point is at `(nx*z, ny*z, z)` with `z = N / focus` and the pixel's colour, so there are at most `width*height` points. |
| Cloud.NothingEmittedEmptyCloud | src/main/java/peterabeles/DepthByFocusApp.java:178-180 | A buffer with no positive cell, for instance an all-rejected one, emits no pixel at all. |
| Cloud.OpticalAxisExample | src/main/java/peterabeles/DepthByFocusApp.java:178-188 | Focus 2 of 5 on the optical axis gives the point (0, 0, 2.5). |
| Pipeline.EmittedIffAccepted | src/main/java/peterabeles/DepthByFocusApp.java:155-180 | On a buffer produced by the selector, a cell becomes a point exactly when the selector accepted a band for that pixel. |
| Pipeline.DepthWithinStack | src/main/java/peterabeles/DepthByFocusApp.java:147-184 | Every point produced from a selected buffer has depth `z` with `1 < z <= N` and `z * (N - 2) >= N`, because boundary bands are never stored. |

## Left out

- Edge-intensity computation (Sobel gradients with an extended border, then the gradient-to-intensity combination, `DepthByFocusApp.java:99-111`). These are calls into an image library whose bodies are not part of this model. The edge volume is an input.
- Lens undistortion (`LensDistortionRadialTangential`, `:169`, `:182`). It is a foreign numeric routine, modelled as the function parameter `undistort` from (column, row) to normalised coordinates. Divergence of that routine is not modelled.
- The colour lookup `buffered.getRGB(col,row)` (`:188`) is the function parameter `color`. The point-cloud viewer, its field of view (`computeHFov`, `:192`) and window sizing are display code.
- Image loading, the constructor's buffer reshaping, file listing and calibration loading (`:62-76`, `:99-103`, `:198-207`) are I/O. The shape they establish (same-size planes, one per image) is the precondition `EdgeVolume.Valid`, and the non-empty image list is `numImages > 0`. The constructor indexes the list at `size/2`, which fails on an empty list.
- `visualizeIntensityVsFocus` and the `ShowImages` windows (`:85`, `:89-90`, `:116-125`) are display code.
- `CollectImagesApp.java` as a whole: webcam control, timed capture loops, threads, shutdown hooks and PNG saving. None of it feeds the algorithm except through image files.
- Focus.SelectPixel: intensities and thresholds are `real`, so float32 rounding of `v0 + MIN_PEAK` and NaN handling are abstracted away. The band index stored in the float buffer is an `int`.
- Cloud.ProjectionRoundTrip: the equality `z * focus == N` and the exact recovery of `d` hold for exact reals only. In the program `d` is a float32 quotient widened to double, so `z` can miss `N / focus` in the last bits. Cloud.ProjectPixel's `z * focus == N` holds only for exact reals, for the same reason.
- Pipeline.DepthWithinStack: the bounds `1 < z <= N` and `z * (N - 2) >= N` hold for the exact-real model, not for the float program at the edges. For example, with N = 3 and focus 1 the float32 `d` rounds slightly up, so `z * (N - 2)` falls just below N. With N = 25 and focus 1 it rounds down, so `z` slightly exceeds N.
- Cloud.ComputeCloud: the float division `focus / N` and the double arithmetic `1.0 / d`, `n.x * z` are exact real arithmetic in the model. A point whose coordinates would round differently is not distinguished.
- Idempotence of the selector is not stated as a lemma. `SelectField` is a function of its arguments, so two calls with equal arguments are equal by construction.
