/**
 * The whole recognition of one picture: threshold the pixels into a mask,
 * extract the connected components (the segments), cluster them into
 * digits, and read each cluster's digit into the displayed text.
 */
module Recognizer {
  import opened Geometry
  import opened Components
  import opened Extraction
  import opened Clustering
  import opened Classifier
  import opened Mask

  /**
   * The picture's segments: the mask is built from the dark flags, and the
   * components are the segments extracted from its digit cells, all still
   * in cluster 0.
   */
  method Segments(dark: seq<bool>, width: nat, height: nat)
    returns (comps: seq<ConnComp>, ghost seeds: seq<Coord>)
    requires |dark| == width * height && width <= IntMax && height <= IntMax
    ensures forall i :: 0 <= i < |comps| ==> fresh(comps[i])
    ensures Extracted(comps, MaskForeground(dark, width, height), seeds)
    ensures Distinct(comps) && Clusters(comps) == Zeros(|comps|)
  {
    var mask := BuildMask(dark, width, height);
    comps, seeds := FindConnComp(mask);
  }

  /**
   * The clustering of the segments: from fresh clusters, the components end
   * in the clusters of the run from the grid of initial centroids, and stay
   * the same segments at the same centroids.
   */
  method ClusterSegments(comps: seq<ConnComp>, width: nat, height: nat, fuel: nat,
                         ghost f: set<Coord>, ghost seeds: seq<Coord>)
    returns (outcome: Outcome)
    requires Extracted(comps, f, seeds) && Distinct(comps) && Clusters(comps) == Zeros(|comps|)
    modifies comps`cluster
    ensures Extracted(comps, f, seeds) && Centres(comps) == old(Centres(comps))
    ensures var r := Run(Centres(comps), Zeros(|comps|), GridSeeds(width, height), fuel);
      Clusters(comps) == r.assign && outcome == r.outcome
  {
    ghost var points := Centres(comps);
    outcome := KMeansCluster(comps, width, height, fuel);
    assert Centres(comps) == points;
  }

  /**
   * IDDigitsInPicture after the picture has been decoded: the components
   * are the segments extracted from the picture's digit cells; their
   * clusters are those of the clustering run from fresh (all 0) clusters and
   * the grid of initial centroids; and the text is the transcript of the
   * clusters' readings.
   */
  method IdDigitsInPicture(dark: seq<bool>, width: nat, height: nat, fuel: nat)
    returns (text: string, complete: bool, comps: seq<ConnComp>, outcome: Outcome, ghost seeds: seq<Coord>)
    requires |dark| == width * height && width <= IntMax && height <= IntMax
    ensures Extracted(comps, MaskForeground(dark, width, height), seeds)
    ensures var r := Run(Centres(comps), Zeros(|comps|), GridSeeds(width, height), fuel);
      Clusters(comps) == r.assign && outcome == r.outcome
    ensures Transcript(text, complete) == Transcribe(Readings(Snapshots(comps), K))
  {
    comps, seeds := Segments(dark, width, height);
    outcome := ClusterSegments(comps, width, height, fuel, MaskForeground(dark, width, height), seeds);
    text, complete := AssembleText(comps);
  }
}
