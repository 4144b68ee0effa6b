# SevenSegmentOCR recognition core, modelled in Dafny

SevenSegmentOCR reads the digits of a seven-segment display from a photo.
It assumes a known layout: K = 16 digits in a 4 × 4 grid. The pipeline
modelled here is the one in `SevenSegmentOCR/MainPage.xaml.cs`:

1. **Mask.** The pixels arrive in row order, each already classified as dark
   or light. Each pixel's flag is exclusive-or'ed with `digitsAreLighter`
   and stored in a `bool[width, height]` mask (`Mask.BuildMask`).
2. **Segments.** The mask is scanned column by column (x outer, y inner).
   Every foreground cell the scan meets is flooded with the span-based
   "forest fire" fill (`Extraction.ForestFire`). A component is kept when it
   has more than `minPixelCount` = 10 pixels. Its truncated centroid and its
   bounding-box width and height are then computed
   (`Components.ConnComp.CalcValues`, `Extraction.FindConnComp`).
3. **Clustering.** K-means groups the components' centroids into K clusters.
   The seeds sit at the centres of the grid cells. Each round assigns every
   component to its nearest centroid by squared distance, with ties going to
   the lowest index. The round then moves every centroid to the truncated
   mean of its cluster. The loop stops when no component changed cluster, or
   at once when a cluster is empty (`Clustering.KMeansCluster`).
4. **Reading.** Clusters 0 .. K − 1 are read in turn (`Classifier.AssembleText`).
   A cluster's digit comes from its number of segments. With five or six
   segments, the rule also looks at which segments are vertical (taller than
   wide) and where their centroids lie (`Classifier.IdentifyNumber`).

Every method that works by updating state is proved against a functional
specification:

- `Foreground` and `Component`: the mask's foreground and its 4-connected
  components, defined by paths. `MaskForeground` is the set of cells whose
  dark flag differs from `digitsAreLighter`.
- `Extracted`: what the segment scan finds in a foreground set.
- `Run`: the clustering loop as a recursive function.
- `PartialMeans`: the centroids after one update step, including an update
  that stops at an empty cluster.
- `Identify`: the digit rules.
- `Transcribe` and `Readings`: the assembled text.

The properties are then proved about those functions:

- The fill removes exactly the seed's component.
- Each segment of a picture is, as a set of cells, one 4-connected
  component of its dark (or light) cells, flooded from the component's
  first cell in scan order. Its pixel list has more than 10 entries, and
  the component is more than one cell. Segments are pairwise disjoint.
  Every component of more than 10 cells is kept as a segment. A component
  of one cell is recorded once, so it is never kept. Whether a component
  of 2 to 10 cells is kept depends on how often the fill records its cells
  (see "Duplicate pixels" below).
- A converged clustering is a fixed point of assignment and recentring.
- Fewer than 16 segments always abort the clustering.
- Each digit answer corresponds to exactly one segment-count condition.
- Readable clusters give exactly one digit each, in cluster order.

Points of the code that the model keeps as written:

- **Initial centroids.** Column `c` is placed at
  `W / (2·numColumns) + c·W / numColumns` in integer division (rows alike).
  Each of the two terms is truncated on its own.
- **Five-segment rule.** The horizontal position compared against is that
  of the last non-vertical segment in the cluster, or 0 (a fresh
  component's centroid x) when all five are vertical. If fewer than two
  verticals remain after the "9" and "3" tests, the code indexes
  `vertComp[0]` (with no vertical) or `vertComp[1]` (with one) out of
  range. That fault is modelled as the answer
  `OutOfRange`, and it ends the assembly of the text with the digits read
  so far.
- **Size threshold.** A component is kept when it has more than 10 pixels,
  as the code's `>` says. The constant's comment says "fewer than".
- **Duplicate pixels.** A coordinate queued twice is widened twice, so a
  component's pixel list can hold the same cell more than once. The list
  is modelled that way; pixel counts, centroids and the size threshold use
  the list with its repeats. For example, a 2 × 4 block in a 4 × 2 mask
  can be recorded as 11 entries of 8 cells, and is then kept.

## Model

| member | source | states |
|---|---|---|
| Geometry.SquaredEuclidDist | SevenSegmentOCR/MainPage.xaml.cs:100-103 | the distance is never negative, and it is zero exactly when the two points coincide |
| Geometry.TruncDiv | SevenSegmentOCR/MainPage.xaml.cs:54-55 | the quotient of C# `long` division truncates toward zero: the remainder lies in [0, d) for a non-negative dividend and in (−d, 0] for a negative one |
| Components.ConnComp.constructor | SevenSegmentOCR/MainPage.xaml.cs:25-32 | a new component has no pixels, and every number field holds the default 0 (so its cluster starts at 0) |
| Components.ConnComp.CalcValues | SevenSegmentOCR/MainPage.xaml.cs:33-58 | after the one pass with running sums and extremes seeded at int.MaxValue/int.MinValue, the centroid is the truncated mean of the pixel coordinates and width/height are max − min per axis; pixels and cluster are untouched |
| Components.ExtremesBound | SevenSegmentOCR/MainPage.xaml.cs:37-53 | the running minimum and maximum are elements of the list, and every element lies between them |
| Components.ExtremesStep | SevenSegmentOCR/MainPage.xaml.cs:41-53 | one more pixel updates the running sum and extremes exactly as the loop's comparisons do |
| Components.CentroidInsideBox | SevenSegmentOCR/MainPage.xaml.cs:54-57 | the truncated centroid lies inside the bounding box, and width and height are never negative |
| Mask.BuildMask | SevenSegmentOCR/MainPage.xaml.cs:145-170 | the walk that wraps x to 0 and moves y down visits every pixel once: mask cell [x, y] is the dark flag of row-major pixel y·width + x XOR digitsAreLighter, so the mask's foreground is exactly the cells whose flag differs from digitsAreLighter |
| Mask.MaskForeground | SevenSegmentOCR/MainPage.xaml.cs:155-162 | a cell is a digit cell exactly when it lies in the picture and its dark flag differs from digitsAreLighter |
| Mask.WalkDone | SevenSegmentOCR/MainPage.xaml.cs:163-169 | after width·height steps the walk stands at the start of the row just past the last |
| Mask.RowMajorInside | SevenSegmentOCR/MainPage.xaml.cs:148-162 | a pixel inside the picture has a row-major index inside the pixel buffer |
| Connectivity.ReachableSymmetric | SevenSegmentOCR/MainPage.xaml.cs:354-362 | 4-connectivity is symmetric |
| Connectivity.ReachableTransitive | SevenSegmentOCR/MainPage.xaml.cs:354-362 | 4-connectivity is transitive |
| Connectivity.SameComponent | SevenSegmentOCR/MainPage.xaml.cs:325-331 | every cell of a component has that same component, so a cell of a small discarded component cannot start a large one |
| Connectivity.ComponentsDisjoint | SevenSegmentOCR/MainPage.xaml.cs:319-336 | a seed outside another seed's component has a component disjoint from it |
| Connectivity.ClosedContainsComponent | SevenSegmentOCR/MainPage.xaml.cs:345-363 | a set closed under foreground adjacency that holds the seed holds its whole component |
| Connectivity.ComponentClosed | SevenSegmentOCR/MainPage.xaml.cs:345-363 | a component holds its seed and is closed under foreground adjacency |
| Connectivity.ComponentOfClosedPart | SevenSegmentOCR/MainPage.xaml.cs:321-335 | removing whole components from the mask does not change the component of a remaining cell |
| Connectivity.RemoveComponentClosed | SevenSegmentOCR/MainPage.xaml.cs:327-331 | what is left after flooding a component is again a union of whole components |
| Flood.FloodStart | SevenSegmentOCR/MainPage.xaml.cs:342-344 | the flood invariant holds with only the seed queued |
| Flood.SpanReachable | SevenSegmentOCR/MainPage.xaml.cs:348-353 | every cell of the widened span is connected to the seed |
| Flood.FloodStep | SevenSegmentOCR/MainPage.xaml.cs:345-363 | dequeuing, widening to a maximal span, clearing it and queueing the foreground cells above and below keeps the invariant: all consumed or queued cells are in the seed's component, spans are maximal, and every foreground cell above or below a consumed cell is queued |
| Flood.SpanStepRows | SevenSegmentOCR/MainPage.xaml.cs:348-353 | a maximal span leaves no unconsumed foreground cell beside a consumed one in its row |
| Flood.SpanStepColumns | SevenSegmentOCR/MainPage.xaml.cs:358-361 | every unconsumed foreground cell above or below a consumed one stays queued |
| Flood.FloodComplete | SevenSegmentOCR/MainPage.xaml.cs:345 | when the queue runs dry, the consumed cells are exactly the seed's component |
| Flood.FloodMeasure | SevenSegmentOCR/MainPage.xaml.cs:345-363 | each round either consumes a new cell or drops a stale queued cell, so the fill terminates |
| Flood.QueuesColumn | SevenSegmentOCR/MainPage.xaml.cs:358-361 | queueing one column's neighbours extends "every neighbour of the span is queued" by that column |
| Extraction.ElementsSpan | SevenSegmentOCR/MainPage.xaml.cs:354-357 | the cells appended for a span are, as a set, that span |
| Extraction.ElementsCard | SevenSegmentOCR/MainPage.xaml.cs:328 | a pixel list has at least as many entries as distinct cells, so a component of more than 10 cells passes the keep test |
| Extraction.WidenSpan | SevenSegmentOCR/MainPage.xaml.cs:348-353 | the span stays inside the row and is maximal: it stops at the first background cell or the border on each side |
| Extraction.ClearCell | SevenSegmentOCR/MainPage.xaml.cs:356 | clearing a cell removes exactly that cell from the foreground |
| Extraction.ConsumeCell | SevenSegmentOCR/MainPage.xaml.cs:355-361 | the cell is cleared and appended to the pixels; the queued list is exactly the cell above if it is foreground, followed by the cell below if it is foreground |
| Extraction.ConsumeStep | SevenSegmentOCR/MainPage.xaml.cs:354-361 | one more cell of the span is cleared and appended, and the queued list grows by exactly the cell above if it is foreground, followed by the cell below if it is foreground |
| Extraction.ConsumeSpan | SevenSegmentOCR/MainPage.xaml.cs:354-362 | the whole span leaves the foreground and is appended west to east, and the queued cells are exactly the foreground cells directly above or below it |
| Connectivity.IsolatedComponent | SevenSegmentOCR/MainPage.xaml.cs:345-363 | a cell has no foreground 4-neighbour exactly when its component is the cell alone |
| Extraction.LoneSpan | SevenSegmentOCR/MainPage.xaml.cs:348-361 | an isolated seed widens to the span of itself alone and queues nothing |
| Extraction.FireRound | SevenSegmentOCR/MainPage.xaml.cs:347-362 | one dequeue-widen-consume round keeps the fill's state and makes progress in the termination measure; from an isolated seed alone in the queue, it records the seed once and empties the queue |
| Extraction.FireRounds | SevenSegmentOCR/MainPage.xaml.cs:345-363 | the rounds run until the queue is empty and keep the fill's state; an isolated seed ends recorded exactly once |
| Extraction.FireDone | SevenSegmentOCR/MainPage.xaml.cs:345-364 | at an empty queue the mask has lost the seed's component and the pixels are that component |
| Extraction.ForestFire | SevenSegmentOCR/MainPage.xaml.cs:338-365 | returns a new component in cluster 0 whose pixel set is the seed's 4-connected component, and the mask loses exactly that component; a seed with no foreground 4-neighbour gives the pixel list of the seed alone |
| Extraction.ScanSetsSkip | SevenSegmentOCR/MainPage.xaml.cs:323-325 | visiting a background cell keeps the scan invariant |
| Extraction.ScanSetsComponent | SevenSegmentOCR/MainPage.xaml.cs:325-327 | the component of a cell the scan meets is the same in the remaining mask as in the original one, and no cell of it comes earlier in scan order |
| Extraction.ScanSetsFlood | SevenSegmentOCR/MainPage.xaml.cs:325-333 | removing the component of a cell the scan meets keeps the scan invariant, including "every large component met so far is covered by a seed", with the cell kept as a seed, or dropped when its component has at most 10 cells |
| Extraction.CoveredWitness | SevenSegmentOCR/MainPage.xaml.cs:325-333 | a cell covered by the scan lies in the component of one particular seed |
| Extraction.PixelsInRange | SevenSegmentOCR/MainPage.xaml.cs:327-330 | the pixels of a mask whose sides fit an `int` have `int` coordinates, as CalcValues needs |
| Extraction.KeepComponent | SevenSegmentOCR/MainPage.xaml.cs:328-331 | a flooded component with more than 10 pixels gets its values computed, its pixels unchanged, and is listed with its seed; the scan invariant holds with it appended |
| Extraction.FloodCell | SevenSegmentOCR/MainPage.xaml.cs:325-333 | a foreground cell is flooded into a pixel list whose set of cells is its component, and nothing is flooded from a background cell; a new component holding exactly that list is returned exactly when the cell was foreground and the list has more than 10 entries; the scan invariant holds with it appended, or unchanged when none is |
| Extraction.ScanCell | SevenSegmentOCR/MainPage.xaml.cs:325-333 | one visit of the scan keeps the scan invariant and adds only new components |
| Extraction.ScanStart | SevenSegmentOCR/MainPage.xaml.cs:321-323 | the scan invariant holds before the first cell |
| Extraction.ScanNextColumn | SevenSegmentOCR/MainPage.xaml.cs:321-323 | past the bottom of a column, the scan continues at the top of the next one |
| Extraction.ScanDone | SevenSegmentOCR/MainPage.xaml.cs:319-336 | after the scan the mask is empty, the kept components share no pixel, and every cell of a component with more than 10 cells lies in a kept component |
| Extraction.FindConnComp | SevenSegmentOCR/MainPage.xaml.cs:319-336 | the mask ends empty. Every kept component is new, lies in cluster 0 and has more than 10 recorded pixels. Its pixel set is its seed's component of the original mask, which is more than one cell, and its values are computed. Seeds come in scan order, and no two components share a pixel. Conversely, every cell of a component with more than 10 cells lies in some kept component |
| Clustering.CellOffsetsInside | SevenSegmentOCR/MainPage.xaml.cs:214 | an offset within half a cell plus one within the first `col` whole cells stays below the length |
| Clustering.CellCentreInside | SevenSegmentOCR/MainPage.xaml.cs:214 | a grid cell's seed coordinate lies inside the image side, for any number of cells per side |
| Clustering.CellCentreOrdered | SevenSegmentOCR/MainPage.xaml.cs:214 | further grid cells get strictly larger seed coordinates when each cell is at least a pixel |
| Clustering.GridSeedsInside | SevenSegmentOCR/MainPage.xaml.cs:210-216 | all 16 seeds lie inside the image, and they are pairwise distinct once the image is at least 4 × 4 |
| Clustering.InitCentroids | SevenSegmentOCR/MainPage.xaml.cs:210-216 | the nested row/column loop fills centroid iterX + numColumns·iterY with its grid seed, for all 16 |
| Clustering.NearestIsNearest | SevenSegmentOCR/MainPage.xaml.cs:226-236 | the chosen centroid has the least distance, and every lower-indexed centroid is strictly further (ties go to the first) |
| Clustering.NearestUnique | SevenSegmentOCR/MainPage.xaml.cs:226-236 | only one centroid is nearest in that sense |
| Clustering.NearestCentroid | SevenSegmentOCR/MainPage.xaml.cs:226-236 | the scan seeded with "no candidate" (cluster = k, minDist = double.MaxValue) returns the nearest centroid |
| Clustering.CountInZero | SevenSegmentOCR/MainPage.xaml.cs:256 | a cluster's count is zero exactly when no component is assigned to it |
| Clustering.TallyStep | SevenSegmentOCR/MainPage.xaml.cs:248-253 | one more component adds one to its own cluster's count and its centroid to that cluster's sums, and nothing to any other |
| Clustering.RunRange | SevenSegmentOCR/MainPage.xaml.cs:227-239 | every component ends with a cluster index in [0, k) |
| Clustering.RunConverged | SevenSegmentOCR/MainPage.xaml.cs:217-264 | a converged run leaves no cluster empty and every component at its nearest centroid; the centroids are the means of their own clusters unless it converged in its first round |
| Clustering.RunAborted | SevenSegmentOCR/MainPage.xaml.cs:254-261 | an aborted run ends with some cluster that no component is in |
| Clustering.MissingValue | SevenSegmentOCR/MainPage.xaml.cs:254-261 | fewer components than n leave one of 0 .. n − 1 unused |
| Clustering.FewPointsEmptyCluster | SevenSegmentOCR/MainPage.xaml.cs:254-261 | fewer than 16 components always leave a cluster empty |
| Clustering.FewPointsAbort | SevenSegmentOCR/MainPage.xaml.cs:217-264 | with fewer than 16 components (none at all included) the first round aborts |
| Clustering.ConvergedFromZeros | SevenSegmentOCR/MainPage.xaml.cs:217-264 | started from fresh components (all in cluster 0), a converged run is a fixed point: the assignment is nearest-centroid for the centroids and the centroids are the assignment's means |
| Clustering.AssignStep | SevenSegmentOCR/MainPage.xaml.cs:222-240 | every component takes the cluster of its nearest centroid, and `converged` holds exactly when none changed |
| Clustering.Tally | SevenSegmentOCR/MainPage.xaml.cs:242-253 | per cluster, count and sums are the number of its components and the sums of their centroid coordinates |
| Clustering.RecentredPartialMeans | SevenSegmentOCR/MainPage.xaml.cs:254-262 | recentring from a correct tally leaves exactly the partial means: means up to the first empty cluster, old centroids from there on |
| Clustering.PartialMeansFull | SevenSegmentOCR/MainPage.xaml.cs:254-263 | with no empty cluster, the partial means are all the means |
| Clustering.PartialMeansAbort | SevenSegmentOCR/MainPage.xaml.cs:254-262 | at the first empty cluster c0, the partial means are the means of clusters 0 .. c0 − 1 and the old centroids from c0 on |
| Clustering.Recentre | SevenSegmentOCR/MainPage.xaml.cs:254-263 | aborts exactly when some count is zero; every centroid before the first empty cluster becomes the truncated mean of its cluster, and the centroids from the first empty one on are unchanged |
| Clustering.UpdateStep | SevenSegmentOCR/MainPage.xaml.cs:242-263 | tally then recentre: aborts exactly on an empty cluster, and the centroids become the partial means, all the means when nothing aborts |
| Clustering.LloydRound | SevenSegmentOCR/MainPage.xaml.cs:222-263 | one round: the new clusters are the nearest-centroid assignment; it aborts exactly on an empty cluster; the centroids become the partial means (all the means when nothing aborts); the loop ends on an abort or an unchanged assignment |
| Clustering.RunRound | SevenSegmentOCR/MainPage.xaml.cs:219-264 | a round that stops has produced the run's result, and one that goes on leaves the same result to the remaining rounds |
| Clustering.Iterate | SevenSegmentOCR/MainPage.xaml.cs:217-264 | the components end in the clusters of the run from their clusters and centroids, with its outcome |
| Clustering.KMeansCluster | SevenSegmentOCR/MainPage.xaml.cs:199-266 | after the grid initialization and the loop, the clusters and the outcome are those of the run from the grid seeds |
| Classifier.SnapshotsAppend | SevenSegmentOCR/MainPage.xaml.cs:284 | appending a component appends its values |
| Classifier.Verticals | SevenSegmentOCR/MainPage.xaml.cs:279-287 | the selected segments are vertical and come from the cluster |
| Classifier.VerticalsComplete | SevenSegmentOCR/MainPage.xaml.cs:283-284 | no vertical segment is left out |
| Classifier.HorizontalIsLast | SevenSegmentOCR/MainPage.xaml.cs:280-287 | the compared x is the last non-vertical segment's, or 0 (a fresh component's) when all are vertical |
| Classifier.CountRightOf | SevenSegmentOCR/MainPage.xaml.cs:290-295 | the count never exceeds the number of verticals |
| Classifier.IdentifyByCount | SevenSegmentOCR/MainPage.xaml.cs:270-316 | in both directions: 1, 7, 4 and 8 exactly for 2, 3, 4 and 7 segments; 9 exactly for 5 with three verticals; 0 or 6 exactly for 6 by whether four are vertical; the fault exactly for 5 with fewer than two verticals; the marker exactly outside 2 .. 7 |
| Classifier.FivePartCases | SevenSegmentOCR/MainPage.xaml.cs:288-301 | with five segments, 3 exactly when not three verticals and two verticals right of the horizontal; otherwise 5 or 2 exactly by whether the first two verticals lie on a diagonal |
| Classifier.IdentifyDigit | SevenSegmentOCR/MainPage.xaml.cs:268-316 | a single digit exactly for 2 .. 7 segments with at least two verticals when five; otherwise the marker or the fault |
| Classifier.SplitParts | SevenSegmentOCR/MainPage.xaml.cs:279-287 | the loop collects the verticals in order and keeps the last non-vertical, or a fresh component |
| Classifier.RightOf | SevenSegmentOCR/MainPage.xaml.cs:290-295 | the count of verticals strictly right of x |
| Classifier.VerticalParts | SevenSegmentOCR/MainPage.xaml.cs:303-308 | the loop collects exactly the verticals, in order |
| Classifier.IdentifyNumber | SevenSegmentOCR/MainPage.xaml.cs:268-317 | the switch gives the rules' answer for the cluster's segments (with the fault as OutOfRange) |
| Classifier.InCluster | SevenSegmentOCR/MainPage.xaml.cs:184-191 | the collected segments are in the cluster and come from the component list |
| Classifier.InClusterComplete | SevenSegmentOCR/MainPage.xaml.cs:185-191 | no segment of the cluster is left out |
| Classifier.TranscribeComplete | SevenSegmentOCR/MainPage.xaml.cs:181-195 | the text is complete exactly when no reading faults |
| Classifier.TranscribeStuck | SevenSegmentOCR/MainPage.xaml.cs:192-194 | after the first fault, later clusters change nothing: the text stays what was read before it |
| Classifier.TranscribeDigits | SevenSegmentOCR/MainPage.xaml.cs:181-195 | when every reading is a digit, the text has one character per cluster, and character i is cluster i's digit |
| Classifier.ReadableDigits | SevenSegmentOCR/MainPage.xaml.cs:181-195 | when every cluster is readable, the text is complete and spells each cluster's digit at its index |
| Classifier.CollectCluster | SevenSegmentOCR/MainPage.xaml.cs:184-191 | the inner loop collects exactly the components of cluster `iter`, in order |
| Classifier.AssembleText | SevenSegmentOCR/MainPage.xaml.cs:181-195 | the text is the readings of clusters 0 .. 15 appended in order, cut short at the first fault |
| Recognizer.Segments | SevenSegmentOCR/MainPage.xaml.cs:145-177 | the segments are what the scan extracts from the picture's digit cells (dark flag XOR digitsAreLighter): each is, as a set, its seed's 4-connected component, of more than one cell, with more than 10 recorded pixels; seeds in scan order, pairwise disjoint; every component of more than 10 cells is covered; all are new and in cluster 0 |
| Recognizer.ClusterSegments | SevenSegmentOCR/MainPage.xaml.cs:179 | the segments keep their pixels, values and centroids and end in the clusters of the run from fresh clusters and the grid seeds |
| Recognizer.IdDigitsInPicture | SevenSegmentOCR/MainPage.xaml.cs:173-197 | the whole pipeline: the segments are the extracted components of the picture's digit cells, they end in the run's clusters with its outcome, and the text is transcribed from the clusters' readings |

## Left out

- GetBWImage's file picker, decoding and BGRA buffer are I/O. The grey
  level is computed in `double` and compared with `threshold`. The model
  takes one "dark" flag per pixel in decoder order and starts at the XOR and
  the row-major walk.
- The UI (`OCRText` change notification), `Debug.WriteLine`, the timing in
  `ms` and the `MainPage` constructor are not modelled.
- `PSI2Temp` (a pressure-to-temperature lookup table) is unrelated to
  recognition and is not modelled.
- The `MainPage` fields `connectedPixels`, `connComps` and `srcBitmap` are
  passed as parameters and results. `connComps` is taken to start empty,
  since FindConnComp runs once per picture.
- Geometry.SquaredEuclidDist: computed exactly on integers. `Math.Pow` on
  doubles is exact only while a squared distance stays below 2^53. That
  holds for every image with sides under 67 million pixels. The `double.MaxValue`
  sentinel of the nearest-centroid scan is the "no candidate yet" value
  cluster = k.
- Components.ConnComp.CalcValues: requires coordinates in `int` range and
  does not model `long` overflow of the sums. Coordinates lie inside the
  mask, so the sums stay far below 2^63. The `(int)` casts of the centroid
  are identities there.
- Clustering.KMeansCluster: runs at most `fuel` rounds of
  `while (!converged)`. Past that the result is `OutOfFuel`, with the
  clusters reached so far. The source loop has no bound, and its
  termination is not proved.
- Clustering.Iterate: the same fuel bound as KMeansCluster.
- Recognizer.IdDigitsInPicture: the same fuel bound.
- Recognizer.Segments: requires both image sides to fit an `int`, as
  `PixelWidth`/`PixelHeight` do.
- Extraction.ForestFire: the contract states the set of cells of the pixel
  list (and, for an isolated seed, the list itself), not its order and
  repeats. The program fixes them by its first-in first-out queue; the
  model does not state that list.
- Extraction.FloodCell: the keep decision is stated on the flooded list
  (more than 10 entries), and that list is fixed only as a set, so the
  contract does not fix which components of 2 to 10 cells are kept.
- Extraction.FindConnComp: as a consequence, the contracts do not fix the
  centroid of a kept component (a truncated mean over the list, repeats
  included) or the keep decision for a component of 2 to 10 cells.
- Recognizer.Segments: the same holds for the segments of a picture: the
  contracts do not fix their centroids or which components of 2 to 10
  cells are kept.
- Classifier.IdentifyNumber: the `ArgumentOutOfRangeException` of
  `vertComp[0]` or `vertComp[1]` is the value `OutOfRange`. IdDigitsInPicture returns the
  digits read before it with `complete == false`, where the source's
  exception escapes the async method and leaves `OCRText` partial.
- The correspondence of cluster index to grid position after clustering
  is a heuristic of the program. It is not stated or proved.
