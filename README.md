# ocean-prefilter decision engine in Dafny

This project models the decision engine of the ocean-prefilter vision service, a Go module that watches a marine camera and raises a `TRIGGER` classification when something changes on the water. It has these parts:

- **Horizon scan**: finds the horizon in a binary mask by looking for the last foreground row in the leftmost and the rightmost column.
- **Tiling**: tiles the sea below the horizon into a row-major grid. Grid sizes use ceiling division, tile ends are clamped at the edges, and tiles that overlap the translated excluded zone are dropped.
- **Histograms**: builds one 32-bucket gray histogram per tile.
- **Comparison**: compares each tile's histogram with the same tile of the previous frame, using the two-sample Kolmogorov-Smirnov statistic between the empirical CDFs.
- **Trigger countdown**: keeps the published flag up for four frames after the last frame with evidence.
- **Configuration**: the checks and defaults applied when the service is (re)configured.
- **Queries**: the result of a classification query.
- **ML filter**: the optional check of detections against per-label minimum confidences.

Modules, one per file:

- `Wrappers` (wrappers.dfy): `Option` and `Result`.
- `Geometry` (geometry.dfy): rectangles with the semantics of Go's `image.Rectangle`, the horizon scan, and `splitUpImageConst`.
- `Histograms` (histograms.dfy): `Hist`, `createGrayHistograms`, `histogramToECDF`, `kolmogorovSmirnovTest` and `histogramTrigger`.
- `ChangeDetection` (changefilter.dfy): `histogramChangeFilter`.
- `MlFiltering` (mlfiltering.dfy): `mlFilter`.
- `OceanPrefilter` (oceanprefilter.dfy): `Config.Validate` and the `Reconfigure` checks, plus the `Prefilter` class with one cycle of `run`, `Classifications`, `ClassificationsFromCamera` and `Close`.

The loops of the Go code become methods with loop invariants, in the same order of steps and with the same early returns:

- the bucket loop of `Hist` (over an array);
- the cumulative loop of `histogramToECDF`;
- the running maximum of `kolmogorovSmirnovTest`;
- the tile loop of `histogramChangeFilter`;
- the nested loops of `splitUpImageConst`;
- the scan of `findHorizonLine`.

Each such method is proved equal to a specification function, and the properties are proved about that function. Go's `float64` values are exact `real`s. The bucket index uses Go's truncating `int()` conversion (`Trunc`), which equals the floor for the non-negative quotients that reach it.

Behaviour of the code that the model follows:

- **The ML filter is not part of a cycle.** The `mlFilter` call in `run` is commented out (oceanprefilter/oceanprefilter.go:219). A cycle's evidence is therefore the change filter's result only, and `mlFilter` is modelled on its own.
- **Overlap uses the clamped tile.** The excluded zone is tested against the tile rectangle after clamping at the edges, not against the nominal `w x h` rectangle.
- **Tiles lose the last column and row.** A clamped tile end is `edge - 1`, and `image.Rectangle` max is exclusive, so tiles never cover the last column or the last row of the cropped image, even when the tile size divides the image exactly (`Geometry.SplitMissesLastColumnAndRow`).

Where the model departs from the code:

- **Tiles are read from their own corner.** `createGrayHistograms` reads `GrayAt(x, y)` from (0, 0), but a tile that was not resized keeps its bounds in the cropped image. The model reads each tile relative to the top-left corner of its bounds, and it keeps the read as written beside it (see Findings).
- **Tile size is a parameter.** `histogramChangeFilter` calls a `splitUpImage` that is not in the sources; the model calls `splitUpImageConst`, whose arguments are the tile height and width. The tile size is a parameter of the filter and a constant of the `Prefilter` class.

## Model

| member | source | states |
|---|---|---|
| Geometry.MakeRect | oceanprefilter/utils.go:111 | `image.Rect` swaps the two coordinates of each axis given in decreasing order and keeps an axis given in order, so min <= max on both axes |
| Geometry.OverlapsIffSharedPixel | oceanprefilter/utils.go:113 | `Rectangle.Overlaps` holds iff the two rectangles share a pixel |
| Geometry.LastForeground | oceanprefilter/utils.go:35-46 | result is the last row whose value in the column is 255, or 0 when there is none; no later row is 255 |
| Geometry.FindHorizonLine | oceanprefilter/utils.go:31-47 | the scan returns exactly two points, (0, last 255 row of column 0) and (width-1, last 255 row of column width-1) |
| Geometry.BelowCeilDiv | oceanprefilter/utils.go:91-92 | every tile index below ceil(a/b) starts inside the image: j*b <= a-1 |
| Geometry.Band | oceanprefilter/utils.go:99-111 | the loop body builds tile (i, j) of the grid: nominal end (j+1)*w, (i+1)*h, pulled back to edge-1 and flagged when it reaches the edge |
| Geometry.SplitRow | oceanprefilter/utils.go:98-125 | the inner loop collects, left to right, exactly the tiles of row i that do not overlap the excluded box |
| Geometry.SplitUpImageConst | oceanprefilter/utils.go:61-128 | the method returns the nil-image, h <= 0, w <= 0 and crop errors in Go's order, else the row-major grid of ceil(croppedHeight/h) x ceil(width/w) tiles filtered by the translated zone |
| Geometry.KeptAdmitted | oceanprefilter/utils.go:113-115 | a tile is emitted iff it is in the grid and does not overlap the excluded box, so no emitted tile overlaps the zone |
| Geometry.KeptSubsequence | oceanprefilter/utils.go:97-124 | dropping tiles keeps the rest in grid order: the output is a subsequence of the grid at strictly increasing indices |
| Geometry.KeptAll | oceanprefilter/utils.go:113 | without an excluded zone no tile is dropped |
| Geometry.GridLength | oceanprefilter/utils.go:91-98 | the grid has nv*nh tiles |
| Geometry.GridRowAt | oceanprefilter/utils.go:98-111 | position j of row i is tile (i, j) |
| Geometry.GridRowMajor | oceanprefilter/utils.go:97-111 | grid position i*nh + j holds tile (i, j): row-major order |
| Geometry.TileGeometry | oceanprefilter/utils.go:99-111 | tile (i, j) starts at (j*w, i*h); an end at or past the edge becomes edge-1; it lies inside the cropped image; it is flagged for resize iff an end was clamped |
| Geometry.RowInside | oceanprefilter/utils.go:103-110 | every tile of a row ends at most at width-1 and croppedHeight-1 |
| Geometry.GridInside | oceanprefilter/utils.go:103-110 | every tile of the grid ends at most at width-1 and croppedHeight-1 |
| Geometry.SplitShape | oceanprefilter/utils.go:91-124 | a valid split succeeds; without a zone it is the whole grid, and with one it is an order-preserving subsequence holding exactly the grid tiles that miss the translated zone |
| Geometry.SplitMissesLastColumnAndRow | oceanprefilter/utils.go:103-110 | no emitted tile contains a pixel of the last column or the last row of the cropped image |
| Geometry.Translate | oceanprefilter/utils.go:79-85 | moving the zone up by the crop line keeps its width and height |
| Geometry.ExcludedBox | oceanprefilter/utils.go:79-85 | there is an excluded box iff a zone is configured |
| Geometry.ExcludedBoxCoversZone | oceanprefilter/utils.go:79-85 | a point of the cropped image is in the excluded box iff the same point moved down by the crop line is in the configured zone |
| Geometry.GridTileOffOrigin | oceanprefilter/utils.go:111-123 | every grid tile other than (0, 0) that is not resized lies off the origin of its own extent, so reads from (0, 0) miss it |
| Geometry.TranslatePreservesOverlap | oceanprefilter/utils.go:79-85 | testing a tile against the zone shifted by -yValue in y only is testing the tile shifted back against the configured zone |
| Histograms.SumIncrement | oceanprefilter/histogram_compare.go:43-44 | incrementing one bucket adds one to the bucket sum |
| Histograms.SumPrefixMono | oceanprefilter/histogram_compare.go:189-191 | cumulative counts never decrease |
| Histograms.Trunc | oceanprefilter/histogram_compare.go:39 | Go's int() conversion truncates toward zero: the floor for non-negative values, minus the floor of the negation otherwise |
| Histograms.BucketInRange | oceanprefilter/histogram_compare.go:39-42 | with buckets > 0 every kept value gets an index in [0, buckets) and the spacing is positive, so the panic is unreachable |
| Histograms.InRangeCount | oceanprefilter/histogram_compare.go:35-38 | the number of kept values is at most the number of inputs |
| Histograms.Hist | oceanprefilter/histogram_compare.go:25-47 | the bucket loop returns exactly the histogram of the kept values: count, per-bucket tallies and spacing (max-min)/buckets |
| Histograms.HistCounts | oceanprefilter/histogram_compare.go:28-45 | Hist returns exactly `buckets` buckets, Count is the number of values in [min, max), and the buckets sum to Count |
| Histograms.HistBucketContents | oceanprefilter/histogram_compare.go:39-44 | bucket k counts exactly the kept values whose index is k |
| Histograms.OutOfRangeSkipped | oceanprefilter/histogram_compare.go:36-38 | a value >= max or < min leaves the histogram unchanged |
| Histograms.AsReals | oceanprefilter/histogram_compare.go:116-123 | the float conversion keeps the length and every value |
| Histograms.GrayBucket | oceanprefilter/histogram_compare.go:135 | in Hist(32, 0, 256) the spacing is 8 and gray value v is kept and lands in bucket v/8 |
| Histograms.GrayCountsEveryPixel | oceanprefilter/histogram_compare.go:129-135 | every pixel of a tile is counted |
| Histograms.GrayHistShape | oceanprefilter/histogram_compare.go:125-137 | a gray histogram has 32 buckets of width 8 whose counts add up to the number of tile pixels |
| Histograms.ScanSize | oceanprefilter/histogram_compare.go:129-134 | n columns of the pixel loop yield n * Dy values |
| Histograms.ScanAsWritten | oceanprefilter/histogram_compare.go:129-131 | the read as written: GrayAt(x, y) from (0, 0) over Dx columns of Dy rows, giving Dx * Dy values, all 0 when the bounds lie off the origin of their own extent |
| Histograms.TilePixels | oceanprefilter/histogram_compare.go:129-131 | the corrected read: GrayAt(min.x + x, min.y + y) over Dx columns of Dy rows, as many values as the read as written |
| Histograms.ColumnPrefixAt | oceanprefilter/histogram_compare.go:130-131 | row y of the inner loop's column reads GrayAt(ox + x, oy + y) |
| Histograms.Column | oceanprefilter/histogram_compare.go:130-131 | one column of the pixel loop has one value per row of the image |
| Histograms.TileColumnReadsTile | oceanprefilter/histogram_compare.go:129-132 | read relative to the corner of the bounds, column x row y is the tile's pixel (min.x + x, min.y + y) |
| Histograms.ScanInside | oceanprefilter/histogram_compare.go:129-134 | every value of the first n columns read from the corner is a pixel inside the tile |
| Histograms.TilePixelsInside | oceanprefilter/histogram_compare.go:129-134 | the corrected read counts only pixels of the tile |
| Histograms.AtOriginReadsAgree | oceanprefilter/histogram_compare.go:129-134 | for bounds starting at (0, 0), as for tile (0, 0) and resized tiles, the read as written equals the corrected read |
| Histograms.ScanOffOriginBlack | oceanprefilter/histogram_compare.go:129-134 | as written, reading from (0, 0) in an image off the origin of its extent yields only zeros |
| Histograms.OffOriginTileNeverTriggers | oceanprefilter/histogram_compare.go:125-137 | as written, two frames give the same values for a tile off the origin, which therefore never triggers for a positive threshold |
| Histograms.ReadFromOriginMissesTile | oceanprefilter/histogram_compare.go:129-131 | for the 2x2 tile (2, 0)-(4, 2) of an image that is 200 everywhere, the read as written gives 0 where the tile holds 200 |
| Histograms.AsRealsAppend | oceanprefilter/histogram_compare.go:132 | appending converted values column by column converts the concatenation |
| Histograms.ReadColumn | oceanprefilter/histogram_compare.go:130-133 | the inner loop appends exactly the float values of one column, top to bottom |
| Histograms.CreateGrayHistograms | oceanprefilter/histogram_compare.go:125-137 | the pixel loop (x outer, y inner, read from the tile's corner) and Hist(32, 0, 256) return exactly one histogram, the gray histogram of the tile's own pixels |
| Histograms.Ecdf | oceanprefilter/histogram_compare.go:182-194 | the ECDF has one entry per bucket and is all zeros when Count is 0 |
| Histograms.HistogramToECDF | oceanprefilter/histogram_compare.go:182-194 | the running cumulative count divided by the total yields exactly the ECDF, with no division when the total is 0 |
| Histograms.EcdfEntryMono | oceanprefilter/histogram_compare.go:189-193 | for a histogram whose Count is its bucket sum, entries lie in [0, 1] and increase with the index |
| Histograms.EcdfIsDistribution | oceanprefilter/histogram_compare.go:189-193 | for a histogram whose Count is its bucket sum and is positive, the ECDF is non-decreasing, lies in [0, 1] and ends at 1 |
| Histograms.DivMono | oceanprefilter/histogram_compare.go:191 | dividing by a positive total keeps order and the bounds |
| Histograms.MaxGap | oceanprefilter/histogram_compare.go:197-206 | the statistic is never negative |
| Histograms.MaxGapIsMaximum | oceanprefilter/histogram_compare.go:197-206 | the statistic bounds every pointwise gap and is 0 or one of the gaps: it is max_i abs(e1[i]-e2[i]), or 0 for empty input |
| Histograms.KolmogorovSmirnovTest | oceanprefilter/histogram_compare.go:197-206 | the running-maximum loop (ecdf2 at least as long as ecdf1) returns exactly the statistic |
| Histograms.MaxGapSelf | oceanprefilter/histogram_compare.go:197-206 | KS(e, e) = 0 |
| Histograms.MaxGapPrefix | oceanprefilter/histogram_compare.go:199-200 | entries of ecdf2 past the length of ecdf1 are never read |
| Histograms.MaxGapSymmetric | oceanprefilter/histogram_compare.go:197-206 | for ECDFs of equal length KS(e1, e2) = KS(e2, e1) |
| Histograms.HistogramTrigger | oceanprefilter/histogram_compare.go:104-114 | the trigger compares the KS statistic with the threshold, which the statistic always reaches when the threshold is 0 or below |
| Histograms.TriggerIffSomeGap | oceanprefilter/histogram_compare.go:104-114 | for a positive threshold histogramTrigger fires iff the ECDFs differ by at least the threshold at some bucket; a threshold <= 0 always fires |
| Histograms.UnchangedNeverTriggers | oceanprefilter/histogram_compare.go:104-114 | a histogram compared with itself never triggers for a positive threshold |
| ChangeDetection.CropLine | oceanprefilter/histogram_compare.go:65 | the crop line is one of the two horizon y's and at least both, lies inside the mask, and below it neither edge column is foreground |
| ChangeDetection.CropCheckRulesOutCropError | oceanprefilter/histogram_compare.go:69 | a crop line that passes the check lies in [2, height-1), so splitUpImageConst's crop error cannot follow it and the split fails only on a non-positive tile size |
| ChangeDetection.TileHists | oceanprefilter/histogram_compare.go:81-82 | one histogram per tile |
| ChangeDetection.TileHistsAt | oceanprefilter/histogram_compare.go:81-93 | histogram i is the gray histogram of tile i: the histograms keep the tile order |
| ChangeDetection.TileHistogram | oceanprefilter/histogram_compare.go:81-84 | the one histogram createGrayHistograms returns for tile i is histogram i of the frame |
| ChangeDetection.CompareWithBaseline | oceanprefilter/histogram_compare.go:84-96 | on the first frame nothing is compared and nothing triggers; otherwise a mismatch is reported iff the bucket counts differ, and else the tile's trigger is histogramTrigger of the pair |
| ChangeDetection.Compare | oceanprefilter/histogram_compare.go:83-97 | the comparison loop against the baseline: no tiles compare to no trigger, and the only error is a pair whose bucket counts differ, reported with both counts |
| ChangeDetection.CompareOutcome | oceanprefilter/histogram_compare.go:76-99 | an error returns no trigger and no histograms; a first frame returns the new histograms untouched and no trigger |
| ChangeDetection.ChangeFilter | oceanprefilter/histogram_compare.go:49-100 | every error returns (false, nil); an empty baseline never triggers |
| ChangeDetection.HistogramChangeFilter | oceanprefilter/histogram_compare.go:49-100 | the method (horizon scan, crop-line check, split, count check, tile loop) returns exactly the filter's outcome |
| ChangeDetection.CompareTiles | oceanprefilter/histogram_compare.go:76-99 | the tile loop returns exactly the comparison outcome, stopping at the first bucket-count mismatch |
| ChangeDetection.CompareSnoc | oceanprefilter/histogram_compare.go:86-96 | one more tile either fails on a bucket-count mismatch or ORs in that tile's trigger |
| ChangeDetection.CompareStopsAtError | oceanprefilter/histogram_compare.go:88-90 | after a mismatch the later tiles are never looked at: the error of the prefix is the error of the whole |
| ChangeDetection.CompareOkIffSameBuckets | oceanprefilter/histogram_compare.go:86-91 | the comparison succeeds iff every pair has the same number of buckets |
| ChangeDetection.CompareIsOrOverTiles | oceanprefilter/histogram_compare.go:81-97 | a successful comparison triggers iff some tile's histogramTrigger fires |
| ChangeDetection.FirstFrame | oceanprefilter/histogram_compare.go:52-56 | with an empty baseline the filter never triggers and returns the new tile histograms as the baseline |
| ChangeDetection.FilterErrors | oceanprefilter/histogram_compare.go:58-80 | the horizon failure, the crop line >= height-1 or <= 1 (crop line = max of the two horizon y's), the split error and the tile-count mismatch each return (false, nil, err) in that order |
| ChangeDetection.TriggerIsOrOverTiles | oceanprefilter/histogram_compare.go:78-99 | with a baseline of the right length the filter fails iff some pair's bucket counts differ, else returns the new histograms and triggers iff some tile triggers |
| ChangeDetection.BaselineIsGray | oceanprefilter/histogram_compare.go:82-93 | every histogram the filter returns has 32 buckets |
| ChangeDetection.NoBucketMismatchWithGrayBaseline | oceanprefilter/histogram_compare.go:88-90 | against a baseline of 32-bucket histograms the bucket-count error cannot happen |
| ChangeDetection.SameFrameTwice | oceanprefilter/histogram_compare.go:49-100 | the same frame twice in a row gives the same histograms and, for a positive threshold, no trigger |
| MlFiltering.AnyAccepted | oceanprefilter/ml_filtering.go:23-30 | the search loop finds an accepted detection iff some detection's label is in the map and its score reaches that label's minimum |
| MlFiltering.MlFilter | oceanprefilter/ml_filtering.go:8-31 | no detector gives false, nil detections give false, a nil label map gives true iff there is a detection, otherwise true iff some detection is accepted |
| MlFiltering.EmptyFilterRejects | oceanprefilter/ml_filtering.go:17-30 | a non-nil empty label map rejects a non-empty detection list that a nil map accepts |
| MlFiltering.DetectorErrorIgnored | oceanprefilter/ml_filtering.go:13 | the detector's error does not change the result |
| MlFiltering.OrderIrrelevant | oceanprefilter/ml_filtering.go:23-30 | the result does not depend on the order of the detections |
| MlFiltering.AcceptedMoves | oceanprefilter/ml_filtering.go:23-30 | an accepted detection is found in any reordering of the list |
| OceanPrefilter.Validate | oceanprefilter/oceanprefilter.go:60-69 | an empty camera name is an error naming the path; otherwise the dependencies are [camera], or [camera, detector] iff a detector name is set |
| OceanPrefilter.LoadRunConfig | oceanprefilter/oceanprefilter.go:137-173 | errors iff frequency < 0, threshold outside [0, 1] or a region length other than 0 or 4, checked in that order; on success frequency > 0 and threshold in (0, 1] |
| OceanPrefilter.RunConfigDefaults | oceanprefilter/oceanprefilter.go:140-173 | a frequency of 0 becomes 10, a threshold of 0 becomes 0.25, other values are kept, and four region numbers become the rectangle (er0, er1)-(er2, er3) |
| OceanPrefilter.NextTrigger | oceanprefilter/oceanprefilter.go:227-235 | evidence sets the count to 4; otherwise a positive count drops by one and any other count is kept; the count stays in [0, 4], the flag is up iff there is evidence or the count was positive, and a positive count implies the flag |
| OceanPrefilter.Replay | oceanprefilter/oceanprefilter.go:196-235 | from count 0 with the flag down, cycle after cycle the count stays in [0, 4], a positive count keeps the flag up, and a last cycle with evidence leaves count 4 and the flag up |
| OceanPrefilter.Published | oceanprefilter/oceanprefilter.go:227-235 | one published flag per cycle |
| OceanPrefilter.CountdownExample | oceanprefilter/oceanprefilter.go:196-235 | from count 0, evidence [T,F,F,F,F,F] publishes [T,T,T,T,T,F] |
| OceanPrefilter.CountTracksEvidence | oceanprefilter/oceanprefilter.go:227-235 | the count exceeds 4-k (1 <= k <= 4) iff one of the last k cycles had evidence |
| OceanPrefilter.RecentShift | oceanprefilter/oceanprefilter.go:230-232 | a cycle without evidence shifts the evidence window by one |
| OceanPrefilter.FlagTracksEvidence | oceanprefilter/oceanprefilter.go:227-235 | the flag is up iff one of the last five cycles had evidence |
| OceanPrefilter.Evidence | oceanprefilter/oceanprefilter.go:220-226 | after a filter error the evidence is trigger_on_motion, otherwise the filter's trigger |
| OceanPrefilter.Report | oceanprefilter/oceanprefilter.go:282-287 | a raised flag reports exactly one (TRIGGER, 1.0), otherwise nothing |
| OceanPrefilter.Prefilter.constructor | oceanprefilter/oceanprefilter.go:100-106 | a new service has its flag down and no loop |
| OceanPrefilter.Prefilter.Reconfigure | oceanprefilter/oceanprefilter.go:115-190 | stops the old loop, lowers the flag, opens a fresh context, returns the first config error with no loop running, stores the camera name only after the frequency and threshold checks, else starts a loop with the loaded settings, count 0 and no baseline |
| OceanPrefilter.Prefilter.Step | oceanprefilter/oceanprefilter.go:227-235 | the countdown moves exactly as NextTrigger and nothing else changes |
| OceanPrefilter.Prefilter.Cycle | oceanprefilter/oceanprefilter.go:207-237 | a stream error lowers the flag and restarts the loop state; a frame steps the countdown on the filter's evidence and makes the filter's histograms the baseline, keeping the count in range and the baseline gray |
| OceanPrefilter.Prefilter.Classifications | oceanprefilter/oceanprefilter.go:291-307 | succeeds iff neither context is done; caller done only gives the configuring error, internal done only the lost-connection error; success reports the flag |
| OceanPrefilter.Prefilter.ClassificationsFromCamera | oceanprefilter/oceanprefilter.go:267-289 | a camera-name mismatch is refused first; otherwise as Classifications, returning at most one result, present iff the flag is up |
| OceanPrefilter.Prefilter.Close | oceanprefilter/oceanprefilter.go:317-321 | cancels the internal context and stops the loop; the flag, the camera name, the count and the baseline are kept |
| OceanPrefilter.NewPrefilter | oceanprefilter/oceanprefilter.go:99-112 | fails iff the configuration does; otherwise a fresh service with the flag down and a loop running with the loaded settings |

## Left out

- The OpenCV steps of `findHorizonLine`: the Gaussian blur, the Otsu threshold and the morphological closing. These are foreign calls, so the binary mask they produce is an input of the frame.
- The failure of the conversion to an OpenCV matrix is the frame's absent mask.
- `toGray`, `draw.Draw` copying and the Lanczos `imaging.Resize` of clamped tiles. These are library pixel operations. The gray image of each tile is an input function of the frame (`Frame.tileImage`); the model does not tie its luminance to the camera image. In Go its bounds are the tile's bounds for a copied tile and start at the origin for a resized one; the frame does not constrain them, and the lemmas about the reads are stated for any bounds.
- Camera images whose bounds do not start at the origin: the frame is a width and a height.
- A nil image inside `histogramChangeFilter`. Go would panic in `toGray`, which calls `Bounds()` on the nil interface before any check; the model's frame always holds an image.
- IEEE `float64` rounding in the spacing, the bucket index, the ECDF and the KS statistic. Reals are exact.
- `Histograms.Hist` requires buckets > 0. With 0 buckets Go panics on the first kept value, and with fewer `make` panics.
- `createColorHistograms`: it is unused by the pipeline and relies on `draw.Draw`.
- `basicCompare`: its only call is commented out.
- `OceanPrefilter.LoadRunConfig` does not model the camera and detector lookups by name, which Go performs between the threshold check and the region check. Their errors are also left out, as is `resource.NativeConfig`'s failure.
- `OceanPrefilter.Prefilter.Cycle` does not model polling at `max_frequency_hz`, `time.After` waits, or the race of context cancellation against the stream. The atomic flag, the wait group and the restart-forever supervisor are replaced by sequential state changes. A stream error is modelled as the supervisor's immediate restart of `run` with fresh locals.
- The nil-camera check at the start of `run` is left out, because it depends on the camera lookup.
- `OceanPrefilter.Prefilter.Classifications` does not model Go's `select` picking among ready channels at random. That choice is the parameter `pickCaller`.
- The error messages are left out. The error variants carry the values that tell the errors apart, including some the messages do not print: the two counts of `TileCountMismatch` and the crop line of `CropOutsideImage`.
- `DetectionsFromCamera`, `Detections`, `GetObjectPointClouds` and `DoCommand` return constants and are not modelled.
- The `debug` logging is not modelled.
- `MlFiltering.MlFilter` returns only the boolean, because the error `mlFilter` returns is always nil.
- `main.go`, `example/main.go`, `xgboost.go`, `prefilter_test.go` and `test.go` are not part of this model.

## Findings

| source | as written | input that shows it | evidently intended | confidence | as-written member | corrected member |
|---|---|---|---|---|---|---|
| oceanprefilter/histogram_compare.go:129-131 | the loop reads `GrayAt(x, y)` for x in [0, Dx) and y in [0, Dy), but a tile that is not resized keeps its bounds (j*w, i*h)-(...) from oceanprefilter/utils.go:116-117, and `GrayAt` outside the bounds is 0; every tile other than (0, 0) that is not resized counts only zeros and never triggers | the 2x2 tile (2, 0)-(4, 2) of an image that is 200 everywhere: the first value read is 0, the tile's pixel is 200 | read `GrayAt(Min.X + x, Min.Y + y)`, the tile's own pixels | not executed | Histograms.ScanAsWritten, Histograms.ReadFromOriginMissesTile, Histograms.OffOriginTileNeverTriggers, Geometry.GridTileOffOrigin | Histograms.TilePixels, Histograms.CreateGrayHistograms, Histograms.TilePixelsInside |
