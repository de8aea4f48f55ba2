# QR code brute-force decoder: a Dafny model

This project models the two decoding drivers of a QR-code scanner that tries
many image adjustments until a code can be read.

- **Interactive decoder** (`gui.py`, class `DecodeThread`). A worker runs
  every combination of four option lists: grey conversion, contrast,
  brightness and Gaussian-blur kernel. For each combination it adjusts the
  working image, asks the detector for texts and corner quads, and reports
  progress. It then accepts every detection that has a non-empty text and
  is not a near-duplicate of a code it already accepted. Each accepted code
  is "peeled" from the working image, cropped and announced. A stop flag is
  checked at the start of each combination. The run ends with either a
  `finished` event or a `stopped` event.
- **Batch driver** (`main.py`). For each image, it tries a list of resize
  ratios in order until one of them decodes. Each try submits every
  combination to a worker pool and takes the first successful result in
  completion order. The driver counts the images it decoded and lists the
  ones it could not decode.

Modules, one per file:

| module | file | contents |
|---|---|---|
| `Geometry` | geometry.dfy | corner quads, the distance test, the duplicate check |
| `Raster` | raster.dfy | pixel grid, 8-bit masks, the peel step |
| `Transform` | transform.dfy | adjustment settings and the guarded pipeline |
| `Enumeration` | enumeration.dfy | the nested loops over the option lists and the two configurations |
| `Detector` | detector.dfy | the detector's output and the text/quad zip |
| `Search` | search.dfy | the interactive worker run as a pure function with an event trace |
| `Batch` | batch.dfy | the batch driver: one brute-force call and the per-image loop |

Opaque collaborators are parameters:

- the detector, as a function from image to texts and quads;
- the three OpenCV adjustments;
- the polygon rasteriser and the bounding-box crop;
- the stop flag, as a function from trial index to boolean;
- the pool's completion order.

Every property is proved for every choice of these collaborators.

The duplicate test `norm(a - b) < threshold` is modelled on exact real
coordinates and stated on squared distances. `Geometry.NearMatchesNorm`
shows that, on exact reals, this is the same as comparing the Euclidean
distance with the threshold. The program itself computes the norm of
float32 corner coordinates (see "Left out").

**The peel step does not blank anything.** The quad is filled with 1 in a
zero mask. The mask is then inverted with bitwise not, so it holds 254
inside the quad and 255 outside. Every entry is nonzero, so the masked
`bitwise_and` of the image with itself keeps every pixel unchanged.
Building a mask from the quad and writing the and-ed result back to
`self.imgdata` (gui.py:81-84) looks like an erase, but it is not:
`Raster.PeelLeavesImageUnchanged` proves that the working image is the
input image throughout the run. Re-detections are therefore suppressed
only by the duplicate check.

## Model

| member | source | states |
|---|---|---|
| Geometry.NearMatchesNorm | gui.py:55-56 | for any non-negative d whose square is the squared distance of the two 8-vectors, the proximity test holds exactly when d is strictly below the threshold; a distance equal to the threshold is not a duplicate |
| Geometry.NearSymmetric | gui.py:55-56 | the distance test gives the same answer whichever quad is the new one |
| Geometry.NearSelf | gui.py:55-56 | with a positive threshold every quad is a duplicate of itself |
| Geometry.IsDuplicate | gui.py:53-58 | true exactly when some already accepted quad is within the threshold of the new quad; false for an empty list |
| Geometry.AppendKeepsSeparated | gui.py:78-79 | appending a quad that is not a duplicate keeps all accepted quads pairwise at least the threshold apart |
| Raster.FillConvexPoly | gui.py:81-83 | the mask covers the image grid, holds the fill value on pixels inside the quad and 0 on all others |
| Raster.Invert | gui.py:84 | bitwise not of an 8-bit mask maps each entry v to 255 - v |
| Raster.InvertedMaskNeverZero | gui.py:81-84 | the inverted mask is 254 inside the quad and 255 outside, never 0 |
| Raster.PeelLeavesImageUnchanged | gui.py:81-84 | the masked and of the image with itself under the inverted mask returns the image unchanged, whatever the quad |
| Transform.StepsSpec | gui.py:31-38 | grey conversion is applied iff requested, the scale step iff contrast is not 1.0 or brightness is not 0, the blur iff the kernel is positive; nothing else; in the order grey, scale, blur |
| Transform.AdjustMatchesGuardedSteps | main.py:13-20 | the adjustment equals the three guarded steps applied in sequence |
| Transform.ApplyStepsAppend | gui.py:31-38 | applying two step lists one after the other is applying their concatenation |
| Transform.AdjustDefaultsIsIdentity | gui.py:31 | with the default settings (no grey, contrast 1.0, brightness 0, blur not positive) the image is returned unchanged |
| Transform.AdjustKeywordDefaults | gui.py:31 | calling the adjustment with all keyword arguments left at their defaults returns the image unchanged |
| Enumeration.Trials | gui.py:61-68 | the number of trials is the product of the four list lengths |
| Enumeration.TrialAt | gui.py:65-68 | the combination of the i-th grey flag, j-th contrast, k-th brightness and l-th blur is trial number ((i*C + j)*B + k)*L + l: grey varies slowest and blur fastest |
| Enumeration.GuiTrialCount | gui.py:158 | the interactive configuration runs 264 trials |
| Enumeration.BatchTrialCount | main.py:48-51 | the batch configuration submits 150 trials per call |
| Enumeration.EmptyListNoTrials | gui.py:61-68 | an empty option list leaves no trials |
| Detector.Zip | gui.py:77 | pairs texts with quads by position, as many pairs as the shorter list |
| Search.Percent | gui.py:73-74 | the reported progress lies in 0..100 and is 100 after the last trial |
| Search.PercentRange | gui.py:73-74 | the floor of completed*100/total lies in 0..100 when at most all trials are done, and is exactly 100 when all are |
| Search.PercentMonotone | gui.py:73-74 | progress never decreases as trials complete |
| Search.FirstStop | gui.py:69-71 | the first trial at whose start the stop flag is seen: the flag is clear before it, set at it, and it is the trial count when the flag is never seen |
| Search.AcceptOne | gui.py:78-89 | a detection with non-empty text and no near accepted quad is appended to both accepted lists and announced by a crop and a result event; otherwise nothing changes |
| Search.AcceptAllAppends | gui.py:76-89 | processing a trial's detections only appends to the accepted lists, in step, and appends one crop/result pair per newly accepted detection |
| Search.AcceptAllConsistent | gui.py:76-80 | processing detections keeps the accepted lists aligned, the texts non-empty and the quads pairwise separated |
| Search.AcceptAllSound | gui.py:77-80 | everything newly accepted is one of the trial's zipped detections |
| Search.AcceptAllCovers | gui.py:77-80 | every zipped detection with non-empty text ends up accepted or is a duplicate of an accepted quad |
| Search.TrialEvents | gui.py:40-89 | one trial appends exactly the grey preview (if grey), one progress value and the announcements of what it accepted |
| Search.TrialAcceptance | gui.py:72-80 | after one trial the state is still consistent, new acceptances come from this trial's detections, and every text-bearing detection is accepted or a duplicate |
| Search.SweepGrows | gui.py:65-75 | running trials back to back raises the counter by one per trial and only appends to the accepted lists |
| Search.RunTrialIsAcceptAll | gui.py:72-80 | whether or not the detector returned any text, a trial is the counted probe followed by processing the zipped detections, since no texts zip to no detections |
| Search.TrialEmits | gui.py:40-89 | the events one trial appends hold exactly one progress value, the percentage after this trial, and no terminal event |
| Search.SweepEmits | gui.py:65-75 | the events of trials run back to back hold no terminal event and one progress value per trial, in trial order: the ramp of the trial counts |
| Search.SweepEvents | gui.py:65-89 | running trials back to back only appends to the trace, and what it appends is each trial's events in turn |
| Search.SweepConsistent | gui.py:76-80 | running trials back to back keeps the state consistent |
| Search.SweepAppend | gui.py:65-68 | running two lists of trials one after the other is running their concatenation |
| Search.RunIsSweep | gui.py:65-91 | the loop with the stop check equals running the trials before the first stop, then one terminal event: finished when no stop was seen, stopped otherwise |
| Search.Executed | gui.py:69-71 | the executed trials are as many as the first stop index |
| Search.BruteForceIsSweep | gui.py:60-91 | a whole run is the sweep of the executed trials followed by one terminal event |
| Search.BruteForceEndsOnce | gui.py:60-91 | a run emits exactly one terminal event, as its last; it is finished iff the flag was never seen; the counter equals the trials run; the image is unchanged |
| Search.BruteForceDedup | gui.py:76-80 | after any run the accepted quads are pairwise at least the threshold apart and each accepted result has a non-empty text and its own quad |
| Search.DefaultRunFacts | gui.py:16-24 | a worker built without an explicit threshold uses 50: its run ends with `finished` or `stopped`, `finished` exactly when the stop flag is never seen, a finished run counts every trial, and keeps the accepted quads pairwise at least 50 apart |
| Search.RampFacts | gui.py:73-75 | a ramp of progress values lies in 0..100, never decreases, and ends at 100 when it reaches the total |
| Search.BruteForceProgress | gui.py:61-75 | the progress values of a run are one per trial that ran, within 0..100, never decreasing, with 100 last when every trial ran |
| Search.BruteForceStoppedIsPrefix | gui.py:69-71 | a stopped run keeps exactly what the trials before the stop accepted; this is a prefix of what the same run accepts when never stopped |
| Search.BruteForceEmptyOptions | gui.py:60-91 | with an empty option list nothing runs, nothing is accepted and the only event is finished |
| Batch.DecodeQrcode | main.py:13-26 | the detector runs on the image that the three guarded reassignments of `adjust_image` produce, in grey, scale, blur order, each only when its guard holds; with grey off, contrast 1.0, brightness 0 and blur not positive it runs on the input image itself; the settings passed in come back unchanged |
| Batch.FirstCompleted | main.py:37-42 | scanning results in completion order returns the first success, with its own text and settings; nothing is found iff no scanned result succeeded |
| Batch.FirstCompletedCovers | main.py:37-42 | when every trial completes exactly once, the scan finds nothing iff no trial succeeded, and otherwise returns some successful trial |
| Batch.Attempts | main.py:22-35 | one worker result per trial, in submission order, each carrying its trial's settings |
| Batch.BruteForce | main.py:22-42 | the result is none iff no trial's first text is non-empty; otherwise it is a successful trial's first text with that trial's settings |
| Batch.AnySuccessCanWin | main.py:37-40 | every successful trial is the one returned for some completion order |
| Batch.FirstHit | main.py:67-73 | the first ratio whose try yields a non-empty text, with no hit before it; none iff no ratio hits |
| Batch.TryRatios | main.py:67-73 | the ratio loop for one image stops with a hit iff some ratio hits |
| Batch.Tally | main.py:55-76 | counts every image once; counts an image as decoded iff some ratio hits; reports exactly the others, in order; decoded plus reported equals the total |

## Left out

- Qt: the window, drag-and-drop, widgets, the signal connections and the thread start. Signals are modelled as the `Search.Event` trace.
- The WeChat detector and its model files: an opaque function from image to texts and quads.
- OpenCV pixel arithmetic is kept opaque: `cvtColor`, `convertScaleAbs`, `GaussianBlur`, `polylines`, the grey-to-colour copy for the preview, the fill rasteriser (`inside`) and `boundingRect` with slicing (`crop`). The model fixes only which of them are called, in what order and on what.
- The int32 cast of quad coordinates before filling and cropping is part of the opaque `inside` and `crop`.
- Geometry.Near: corner coordinates and the norm are exact reals; the source computes the norm in float32, so a distance within rounding of the threshold may be classified differently.
- Search.Percent: computed as the exact floor of completed*100/total. The source takes `int` of a floating-point quotient, which may come out one lower at some values. The bounds, the monotonicity and the final 100 hold for that computation too.
- Floating-point contrast: modelled as a real. The source's integer contrasts compare with 1.0 as reals do.
- Threads: the stop flag is a function of the trial index, read at the start of each trial, so it models any interleaving of `stop()` with the worker. The pool's scheduling is the completion-order parameter. Exceptions raised inside a worker are not modelled.
- After `main.py` returns from inside the pool block, the pool still waits for the remaining workers. This does not change the result and is not modelled.
- Batch.Tally: the resize (`cv2.resize` with int-truncated sizes) and the brute-force call per ratio are one opaque `attempt` oracle per image and ratio. `Batch.BruteForce` models that call on its own.
- File I/O and ordering: directory listing, image loading and the dictionary of images are replaced by a sequence of images.
- Output: timing, progress bars, printed messages, the formatted result text with rounded coordinates, and the recognition-rate percentage.
