# UAV thermal calibration — a Dafny model

This project models the calibration core of `uav_thermal_calibration.py`. The
tool converts raw digital counts from an uncooled thermal camera into
temperatures. It does this in three steps:

- **Reference table.** The calibration has eight reference focal-plane-array
  (FPA) temperatures, 5, 15, 20, 25, 30, 35, 40 and 45 degrees. Each one has a
  cubic `a·x³ + b·x² + c·x + d`. The table is read as four columns `a`, `b`,
  `c`, `d`.
- **Interpolation.** Each column is interpolated with numpy's `interp` at the
  capture's FPA temperature `T`. That gives one cubic for the capture.
- **Evaluation.** The cubic is applied to every pixel of the raw raster.

The model also covers two string rules of the batch driver:

- The input directory gets a trailing `/` when it contains no `/` at all.
- The metadata path is derived with `img.replace('.tif', '_meta.csv')`.

Files:

- `interp.dfy` (module `LinearInterp`) models `numpy.interp` with its default
  `left`/`right` arguments. It is stated for any strictly increasing node
  table, over exact `real` arithmetic.
- `calibration.dfy` (module `Calibration`) holds the coefficient table and
  `raw2temp`. The table's literals are written as exact decimals. The FPA
  temperature `T` is a parameter.
- `paths.dfy` (module `PathRules`) holds directory normalisation and Python's
  `str.replace`. `str.replace` is related to `str.split` and `str.join`.

Where the code and other descriptions of the tool disagree, the model follows
the code:

- Temperatures outside [5, 45] are sometimes described as extrapolated
  linearly. The code calls `np.interp` with its defaults, and that clamps:
  below 5 the 5-degree polynomial is used, and above 45 the 45-degree one.
  `Raw2TempClamped` proves that no extrapolation happens.
- Calibration is sometimes described as rejecting an empty raster or a
  non-finite temperature. `raw2temp` checks neither. In the model an empty
  raster gives an empty result, and every real `T` is accepted.
- The batch loop is sometimes described as skipping files whose metadata is
  missing or malformed. The code has no error handling: an exception ends the
  whole run. The loop is not part of this model (see "Left out").

## Model

| member | source | states |
|---|---|---|
| `LinearInterp.SegmentFrom` | uav_thermal_calibration.py:118-119 | the segment search of `np.interp` returns an index j with xp[j] <= x < xp[j+1] |
| `LinearInterp.SegmentFromFinds` | uav_thermal_calibration.py:118-119 | the search returns exactly the segment that holds x, since the nodes strictly increase |
| `LinearInterp.Interp` | uav_thermal_calibration.py:118-119 | `np.interp` with default `left`/`right`: a query at or below the first node gives the first value, and one at or above the last node gives the last value (clamped, not extrapolated) |
| `LinearInterp.SlopeFormIsLerp` | uav_thermal_calibration.py:118-119 | numpy's `slope * (x - xp[j]) + fp[j]` equals the two-point line `fp[j] + (x - xp[j]) * (fp[j+1] - fp[j]) / (xp[j+1] - xp[j])` |
| `LinearInterp.InterpOnSegment` | uav_thermal_calibration.py:118-119 | on every closed segment [xp[i], xp[i+1]] the result is the two-point line through nodes i and i+1, and it lies between fp[i] and fp[i+1] |
| `LinearInterp.InterpAtNode` | uav_thermal_calibration.py:118-119 | interpolating at node xp[i] returns exactly fp[i] |
| `LinearInterp.InterpWithinValues` | uav_thermal_calibration.py:118-119 | for every query, the result lies between the smallest and the largest stored value |
| `Calibration.Column` | uav_thermal_calibration.py:105-116 | column k (`a`, `b`, `c`, `d`) has one entry per reference temperature, and entry i is the k-th coefficient of the i-th reference polynomial |
| `Calibration.TableWellFormed` | uav_thermal_calibration.py:56-116 | eight reference temperatures from 5 to 45, strictly increasing, and eight polynomials; each column with `T_list` is a valid `interp` node table |
| `Calibration.InterpolateCoefficients` | uav_thermal_calibration.py:118-119 | `P_val` at FPA temperature t: for t <= 5 it is the 5-degree polynomial, and for t >= 45 the 45-degree one |
| `Calibration.InterpolateAtReference` | uav_thermal_calibration.py:103-119 | at each reference temperature `T_list[i]` the interpolated coefficients are exactly the i-th stored polynomial |
| `Calibration.InterpolateOnSegment` | uav_thermal_calibration.py:118-119 | for `T_list[i] <= t <= T_list[i+1]`, each coefficient equals `v[i] + (t - T_list[i]) * (v[i+1] - v[i]) / (T_list[i+1] - T_list[i])` and lies between v[i] and v[i+1] |
| `Calibration.CalibrateRow` | uav_thermal_calibration.py:123 | a row keeps its length, and pixel j becomes the cubic applied to pixel j |
| `Calibration.Raw2Temp` | uav_thermal_calibration.py:52-125 | `raw2temp`: a new raster with the same number of rows and the same row lengths; output [i][j] is `a·x³ + b·x² + c·x + d` with the coefficients interpolated at t and x the input at [i][j] |
| `Calibration.Raw2TempKeepsShape` | uav_thermal_calibration.py:121-125 | an R x C raster calibrates to an R x C raster |
| `Calibration.Raw2TempClamped` | uav_thermal_calibration.py:118-125 | every t <= 5 gives the same raster as t = 5, and every t >= 45 the same as t = 45 |
| `Calibration.Raw2TempAtReference` | uav_thermal_calibration.py:103-125 | at a reference temperature every pixel is calibrated with that temperature's own polynomial |
| `Calibration.ZeroPixel` | uav_thermal_calibration.py:123 | a pixel of value 0 calibrates to the interpolated constant coefficient d |
| `Calibration.ZeroRasterAt25` | uav_thermal_calibration.py:74-123 | at FPA temperature 25 an all-zero raster calibrates to 469.9920069946522 everywhere |
| `Calibration.EvaluateBlend` | uav_thermal_calibration.py:123 | the cubic is linear in its coefficients: evaluating a blend of two coefficient vectors blends the two evaluations |
| `Calibration.EvaluateLerpCubic` | uav_thermal_calibration.py:118-123 | evaluating the coefficient-wise line between two cubics gives the line between their two values, and it lies between them. With `InterpolateOnSegment` and `Raw2Temp`, a pixel calibrated at a temperature between two reference temperatures is the line between what the two reference polynomials give for it |
| `PathRules.NormalizeDir` | uav_thermal_calibration.py:45-46 | the result always contains `/`; it equals the input exactly when the input already contains `/`, and otherwise it is the input with `/` appended |
| `PathRules.NormalizeDirIdempotent` | uav_thermal_calibration.py:45-46 | normalising twice is normalising once |
| `PathRules.ReplaceWithoutOccurrence` | uav_thermal_calibration.py:140 | `replace` leaves a string without the pattern unchanged |
| `PathRules.JoinSplit` | uav_thermal_calibration.py:140 | joining the pieces of `s.split(pat)` with pat gives back s: the pieces hold every other character, in order |
| `PathRules.PiecesAreFree` | uav_thermal_calibration.py:140 | no piece of `s.split(pat)` contains pat, so every occurrence was cut out |
| `PathRules.ReplaceIsJoinOfSplit` | uav_thermal_calibration.py:140 | `s.replace(pat, rep)` equals `rep.join(s.split(pat))`: every non-overlapping occurrence is replaced and all other characters are kept in order |
| `PathRules.ReplaceAtFirstOccurrence` | uav_thermal_calibration.py:140 | up to the first occurrence (for a pattern like `.tif`, whose first character does not recur), `replace` copies the prefix, replaces the occurrence and continues with the rest |
| `PathRules.MetaPathOfPlainName` | uav_thermal_calibration.py:140 | for a path whose only `.tif` is its extension, the metadata path is the path with `.tif` swapped for `_meta.csv` |
| `PathRules.MetaPathOfTifDirectory` | uav_thermal_calibration.py:140 | for `dir.tif/name.tif` (dir and name free of `.tif`) the metadata path is `dir_meta.csv/name_meta.csv` |
| `PathRules.MetaPathRewritesDirectory` | uav_thermal_calibration.py:140 | for such paths the rule as written and the suffix-only rule give different metadata paths |
| `PathRules.MetaPathOfSuffix` | uav_thermal_calibration.py:140 | suffix-only rule: a path not ending in `.tif` is returned unchanged |
| `PathRules.MetaPathOfSuffixSwapsExtension` | uav_thermal_calibration.py:140 | suffix-only rule: for every `base.tif`, whatever the directories are called, the result is `base_meta.csv` |
| `PathRules.MetaPathRulesAgree` | uav_thermal_calibration.py:140 | where `.tif` occurs only as the extension, the written rule and the suffix-only rule agree |

## Left out

- Argument parsing, `glob` discovery, `os.makedirs`, `os.path.join` and `os.getcwd` (uav_thermal_calibration.py:25-43, 132-142) are left out. They are command-line and file-system plumbing.
- The pandas CSV read and the pick of `TempFPA` from row 0 (uav_thermal_calibration.py:54, 145-146) are left out. The FPA temperature is a parameter `t` of `Raw2Temp`.
- GDAL raster reading and `.astype('float')`, `piexif`, `gpsphoto` and `create_geotiff` (uav_thermal_calibration.py:148-165, 170-171) are left out. They are foreign raster and EXIF libraries; the raster is a parameter.
- The `exiftool` call through `subprocess.call` (uav_thermal_calibration.py:167-168) is left out. It is an external process.
- `print` logging (uav_thermal_calibration.py:143, 146, 172) is left out.
- The batch loop of `main` (uav_thermal_calibration.py:138-172) is left out. Each of its steps is I/O, apart from the metadata-path rule, which is modelled.
- IEEE-754 `float64` is not modelled: no rounding, NaN or infinity. All arithmetic is exact over `real`, and `im**3` is `x * x * x`.
- `Raw2Temp` does not require the raster to be rectangular, as a numpy 2-D array is. `Raw2TempKeepsShape` covers the rectangular case.
- That the input raster is not modified follows from value semantics. `Raw2Temp` is a function on sequences and builds a new one.
- Calibration is deterministic for the same reason, so no lemma states it.
- `np.interp`'s optional `left`, `right` and `period` arguments are left out. The source uses the defaults only.
- numpy finds the segment by binary search; `SegmentFrom` scans from the left. `SegmentFromFinds` shows both give the one segment that holds the query.
- `PathRules.ReplaceAll`: `str.replace` with an empty pattern is not modelled. The source only replaces `.tif`.
- `PathRules.Split`: `str.split` with an empty separator is not modelled, for the same reason.

## Findings

| source | as written | input that shows it | evidently intended | confidence | as-written member | corrected member |
|---|---|---|---|---|---|---|
| uav_thermal_calibration.py:140 | `img.replace('.tif', '_meta.csv')` replaces every `.tif` in the whole path, directories included | the image `a.tif/b.tif` (a file `b.tif` in a directory named `a.tif`) gives `a_meta.csv/b_meta.csv` | replace only the trailing `.tif` extension, giving `a.tif/b_meta.csv` | low; not executed; needs a directory whose name contains `.tif` | `PathRules.MetaPathRewritesDirectory` | `PathRules.MetaPathOfSuffixSwapsExtension` |
