/**
 * K-means clustering of the kept components' centroids into the K digits of
 * the display.
 *
 * The specification is the function Run: every round assigns each point to
 * its nearest centroid (first index on a tie), stops when a cluster is left
 * empty or when no point changed cluster, and otherwise moves each centroid
 * to the truncated mean of its cluster. The method KMeansCluster does the
 * same on the components' `cluster` fields with the arrays the program uses.
 */
module Clustering {
  import opened Geometry
  import opened Components

  /** The number of digits to read, laid out as NumRows rows of NumColumns digits. */
  const K: int := 16
  const NumRows: int := 4
  const NumColumns: int := 4

  /**
   * The initial centroids: digit i sits in grid column i % NumColumns and grid
   * row i / NumColumns of a width-by-height image, at the centre of its cell
   * (as the program computes it in integer division).
   */
  function GridSeeds(width: nat, height: nat): (cs: seq<Coord>)
    ensures |cs| == K
  {
    seq(K, i requires 0 <= i < K =>
      Coord(width / (2 * NumColumns) + (i % NumColumns) * width / NumColumns,
            height / (2 * NumRows) + (i / NumColumns) * height / NumRows))
  }

  /** A quotient times its divisor does not exceed the dividend. */
  lemma DivFloor(n: nat, d: nat)
    requires d > 0
    ensures d * (n / d) <= n < d * (n / d) + d
  {
  }

  /** Offsets a and b inside a half cell and the first `col` cells add up to less than the length. */
  lemma CellOffsetsInside(len: nat, cells: nat, col: nat, a: nat, b: nat)
    requires 0 < len && col < cells
    requires 2 * cells * a <= len && cells * b <= col * len
    ensures a + b < len
  {
    MulMono(col, cells - 1, len);
    assert cells * b <= cells * len - len;
    assert 2 * cells * (a + b) < 2 * cells * len;
    if a + b >= len {
      MulMono(len, a + b, 2 * cells);
    }
  }

  /** The centre of grid cell `col` of `cells` cells across a length `len` lies inside [0, len). */
  lemma CellCentreInside(len: nat, cells: nat, col: nat)
    requires 0 < len && col < cells
    ensures 0 <= len / (2 * cells) + col * len / cells < len
  {
    DivFloor(len, 2 * cells);
    DivFloor(col * len, cells);
    CellOffsetsInside(len, cells, col, len / (2 * cells), col * len / cells);
  }

  /** Further grid cells get strictly larger centres when every cell is at least one pixel. */
  lemma CellCentreOrdered(len: nat, cells: nat, col: nat, col': nat)
    requires cells <= len && col < col' < cells
    ensures col * len / cells < col' * len / cells
  {
    var b, b' := col * len / cells, col' * len / cells;
    assert col' * len >= col * len + len by {
      MulMono(col + 1, col', len);
    }
    assert cells * b <= col * len;
    assert cells * b' + cells > col' * len;
    if b' <= b {
      MulMono(b', b, cells);
    }
  }

  /**
   * The initial centroids lie inside the image, and when every grid cell is
   * at least one pixel wide and high they are K distinct points.
   */
  lemma GridSeedsInside(width: nat, height: nat)
    requires width > 0 && height > 0
    ensures forall i :: 0 <= i < K ==>
      0 <= GridSeeds(width, height)[i].x < width && 0 <= GridSeeds(width, height)[i].y < height
    ensures width >= NumColumns && height >= NumRows ==>
      forall i, j :: 0 <= i < j < K ==> GridSeeds(width, height)[i] != GridSeeds(width, height)[j]
  {
    var cs := GridSeeds(width, height);
    forall i | 0 <= i < K
      ensures 0 <= cs[i].x < width && 0 <= cs[i].y < height
    {
      CellCentreInside(width, NumColumns, i % NumColumns);
      CellCentreInside(height, NumRows, i / NumColumns);
    }
    if width >= NumColumns && height >= NumRows {
      forall i, j | 0 <= i < j < K
        ensures cs[i] != cs[j]
      {
        if i % NumColumns < j % NumColumns {
          CellCentreOrdered(width, NumColumns, i % NumColumns, j % NumColumns);
        } else if i % NumColumns > j % NumColumns {
          CellCentreOrdered(width, NumColumns, j % NumColumns, i % NumColumns);
        } else {
          assert i / NumColumns < j / NumColumns;
          CellCentreOrdered(height, NumRows, i / NumColumns, j / NumColumns);
        }
      }
    }
  }

  /** The initialization step: the nested loop over grid rows and columns. */
  method InitCentroids(centroids: array<Coord>, width: nat, height: nat)
    requires centroids.Length == K
    modifies centroids
    ensures centroids[..] == GridSeeds(width, height)
  {
    ghost var cs := GridSeeds(width, height);
    for iterY := 0 to NumRows
      invariant forall i :: 0 <= i < NumColumns * iterY ==> centroids[i] == cs[i]
    {
      for iterX := 0 to NumColumns
        invariant forall i :: 0 <= i < iterX + NumColumns * iterY ==> centroids[i] == cs[i]
      {
        var i := iterX + NumColumns * iterY;
        assert i % NumColumns == iterX && i / NumColumns == iterY;
        centroids[i] := Coord(width / (2 * NumColumns) + iterX * width / NumColumns,
                              height / (2 * NumRows) + iterY * height / NumRows);
      }
    }
  }

  /**
   * Centroid i is nearest to p: its squared distance is the least, and every
   * centroid before it is strictly further away (ties go to the lowest index).
   */
  ghost predicate IsNearest(p: Coord, cents: seq<Coord>, i: int) {
    && 0 <= i < |cents|
    && (forall j :: 0 <= j < |cents| ==> SquaredEuclidDist(p, cents[i]) <= SquaredEuclidDist(p, cents[j]))
    && (forall j :: 0 <= j < i ==> SquaredEuclidDist(p, cents[i]) < SquaredEuclidDist(p, cents[j]))
  }

  /** The index of the centroid nearest to p, as the assignment step's inner loop finds it. */
  function Nearest(p: Coord, cents: seq<Coord>): (i: nat)
    requires |cents| > 0
    ensures i < |cents|
  {
    if |cents| == 1 then 0
    else
      var m := Nearest(p, cents[..|cents| - 1]);
      if SquaredEuclidDist(p, cents[|cents| - 1]) < SquaredEuclidDist(p, cents[m]) then |cents| - 1 else m
  }

  /** Nearest finds the nearest centroid, the first one on a tie. */
  lemma {:induction false} NearestIsNearest(p: Coord, cents: seq<Coord>)
    requires |cents| > 0
    ensures IsNearest(p, cents, Nearest(p, cents))
  {
    if |cents| > 1 {
      var init := cents[..|cents| - 1];
      NearestIsNearest(p, init);
      assert forall j :: 0 <= j < |init| ==> init[j] == cents[j];
    }
  }

  /** There is only one nearest centroid in that sense. */
  lemma NearestUnique(p: Coord, cents: seq<Coord>, i: int, j: int)
    requires IsNearest(p, cents, i) && IsNearest(p, cents, j)
    ensures i == j
  {
    assert SquaredEuclidDist(p, cents[i]) == SquaredEuclidDist(p, cents[j]);
  }

  /**
   * The inner loop of the assignment step: a linear scan that keeps the first
   * strictly smaller distance. The program starts from minDist =
   * double.MaxValue, which every distance beats; here "no candidate yet" is
   * cluster == K.
   */
  method NearestCentroid(p: Coord, centroids: array<Coord>) returns (cluster: int)
    requires centroids.Length == K
    ensures cluster == Nearest(p, centroids[..])
  {
    var minDist := 0;
    cluster := K;
    for iter := 0 to K
      invariant iter == 0 ==> cluster == K
      invariant iter > 0 ==> cluster == Nearest(p, centroids[..iter])
      invariant iter > 0 ==> minDist == SquaredEuclidDist(p, centroids[cluster])
    {
      var dist := SquaredEuclidDist(p, centroids[iter]);
      assert centroids[..iter + 1][..iter] == centroids[..iter];
      if cluster == K || dist < minDist {
        cluster := iter;
        minDist := dist;
      }
    }
    assert centroids[..K] == centroids[..];
  }

  /** The assignment step on values: every point goes to its nearest centroid. */
  function Assign(points: seq<Coord>, cents: seq<Coord>): (assign: seq<int>)
    requires |cents| > 0
    ensures |assign| == |points|
  {
    seq(|points|, i requires 0 <= i < |points| => Nearest(points[i], cents))
  }

  /** How many points are in cluster c. */
  function CountIn(assign: seq<int>, c: int): nat {
    if |assign| == 0 then 0
    else CountIn(assign[..|assign| - 1], c) + (if assign[|assign| - 1] == c then 1 else 0)
  }

  /** The sum of vals over the points in cluster c. */
  function SumIn(vals: seq<int>, assign: seq<int>, c: int): int
    requires |vals| == |assign|
  {
    if |assign| == 0 then 0
    else
      var n := |assign| - 1;
      SumIn(vals[..n], assign[..n], c) + (if assign[n] == c then vals[n] else 0)
  }

  /** A cluster is empty exactly when no point is assigned to it. */
  lemma {:induction false} CountInZero(assign: seq<int>, c: int)
    ensures CountIn(assign, c) == 0 <==> c !in assign
  {
    if |assign| > 0 {
      var s := assign[..|assign| - 1];
      CountInZero(s, c);
      assert assign == s + [assign[|assign| - 1]];
    }
  }

  /** One more point of a prefix in the running counts and sums. */
  lemma TallyStep(vals: seq<int>, assign: seq<int>, i: nat, c: int)
    requires |vals| == |assign| && i < |assign|
    ensures CountIn(assign[..i + 1], c) == CountIn(assign[..i], c) + (if assign[i] == c then 1 else 0)
    ensures SumIn(vals[..i + 1], assign[..i + 1], c) == SumIn(vals[..i], assign[..i], c) + (if assign[i] == c then vals[i] else 0)
  {
    assert assign[..i + 1][..i] == assign[..i];
    assert vals[..i + 1][..i] == vals[..i];
  }

  /** Some cluster has no point. */
  predicate HasEmptyCluster(assign: seq<int>) {
    exists c :: 0 <= c < K && CountIn(assign, c) == 0
  }

  /** The update step: each centroid moves to the truncated mean of its cluster. */
  function Means(points: seq<Coord>, assign: seq<int>): (cs: seq<Coord>)
    requires |points| == |assign|
    requires !HasEmptyCluster(assign)
    ensures |cs| == K
  {
    seq(K, c requires 0 <= c < K => Centre(points, assign, c))
  }

  /** The truncated mean of the points in the non-empty cluster c. */
  function Centre(points: seq<Coord>, assign: seq<int>, c: int): Coord
    requires |points| == |assign| && CountIn(assign, c) > 0
  {
    Coord(TruncDiv(SumIn(Xs(points), assign, c), CountIn(assign, c)),
          TruncDiv(SumIn(Ys(points), assign, c), CountIn(assign, c)))
  }

  /** Clusters 0 .. c all have a point. */
  predicate FilledThrough(assign: seq<int>, c: int) {
    forall d :: 0 <= d <= c ==> CountIn(assign, d) > 0
  }

  /**
   * The centroids after the update step's loop, which stops at the first
   * empty cluster: each centroid up to it is the mean of its cluster, and
   * from it on every centroid keeps its value.
   */
  function PartialMeans(points: seq<Coord>, assign: seq<int>, cents: seq<Coord>): (cs: seq<Coord>)
    requires |points| == |assign| && |cents| == K
    ensures |cs| == K
  {
    seq(K, c requires 0 <= c < K =>
      if FilledThrough(assign, c) then Centre(points, assign, c) else cents[c])
  }

  /**
   * Recentring from a correct tally: a centroid moves to its cluster's
   * truncated mean when that cluster and all before it have a point, and
   * keeps its place otherwise. That is PartialMeans.
   */
  lemma RecentredPartialMeans(points: seq<Coord>, assign: seq<int>, cents: seq<Coord>, cs: seq<Coord>,
                              count: seq<int>, sumX: seq<int>, sumY: seq<int>)
    requires |points| == |assign| && |cents| == K && |cs| == K
    requires |count| == K && |sumX| == K && |sumY| == K
    requires forall c :: 0 <= c < K ==> count[c] == CountIn(assign, c) && count[c] >= 0
    requires forall c :: 0 <= c < K ==>
      sumX[c] == SumIn(Xs(points), assign, c) && sumY[c] == SumIn(Ys(points), assign, c)
    requires forall c :: 0 <= c < K ==>
      if forall d :: 0 <= d <= c ==> count[d] != 0
      then cs[c] == Coord(TruncDiv(sumX[c], count[c]), TruncDiv(sumY[c], count[c]))
      else cs[c] == cents[c]
    ensures cs == PartialMeans(points, assign, cents)
  {
    forall c | 0 <= c < K
      ensures cs[c] == PartialMeans(points, assign, cents)[c]
    {
      assert FilledThrough(assign, c) <==> forall d :: 0 <= d <= c ==> count[d] != 0;
    }
  }

  /** Without an empty cluster the loop moves every centroid to its mean. */
  lemma PartialMeansFull(points: seq<Coord>, assign: seq<int>, cents: seq<Coord>)
    requires |points| == |assign| && |cents| == K && !HasEmptyCluster(assign)
    ensures PartialMeans(points, assign, cents) == Means(points, assign)
  {
    forall c | 0 <= c < K
      ensures FilledThrough(assign, c)
    {
      forall d | 0 <= d <= c
        ensures CountIn(assign, d) > 0
      {
        assert !(0 <= d < K && CountIn(assign, d) == 0);
      }
    }
  }

  /**
   * With c0 the first empty cluster, the centroids before c0 are the means
   * of their clusters and c0 and every later centroid are unchanged.
   */
  lemma PartialMeansAbort(points: seq<Coord>, assign: seq<int>, cents: seq<Coord>, c0: int)
    requires |points| == |assign| && |cents| == K
    requires 0 <= c0 < K && CountIn(assign, c0) == 0
    requires forall d :: 0 <= d < c0 ==> CountIn(assign, d) > 0
    ensures forall c :: 0 <= c < c0 ==> PartialMeans(points, assign, cents)[c] == Centre(points, assign, c)
    ensures forall c :: c0 <= c < K ==> PartialMeans(points, assign, cents)[c] == cents[c]
  {
    assert forall c :: c0 <= c < K ==> !FilledThrough(assign, c);
  }

  /** How a run of the clustering loop ended. */
  datatype Outcome = Converged | AbortedEmptyCluster | OutOfFuel

  /**
   * The final assignment, the centroids it was computed from, and how the run
   * ended.
   */
  datatype Clustering = Clustering(assign: seq<int>, cents: seq<Coord>, outcome: Outcome)

  /**
   * At most `fuel` rounds of the clustering loop, from the current assignment
   * and centroids. An empty cluster ends the run whether or not anything
   * moved; otherwise an unchanged assignment is convergence.
   */
  function Run(points: seq<Coord>, assign: seq<int>, cents: seq<Coord>, fuel: nat): (r: Clustering)
    requires |cents| == K
    ensures |r.cents| == K
    decreases fuel, 1
  {
    if fuel == 0 then Clustering(assign, cents, OutOfFuel) else Round(points, assign, cents, fuel)
  }

  /**
   * One round with `fuel` rounds left: assign, then stop or move the
   * centroids and hand the remaining rounds back to Run.
   */
  function Round(points: seq<Coord>, assign: seq<int>, cents: seq<Coord>, fuel: nat): (r: Clustering)
    requires |cents| == K && fuel > 0
    ensures |r.cents| == K
    decreases fuel, 0
  {
    var assign' := Assign(points, cents);
    if HasEmptyCluster(assign') then Clustering(assign', cents, AbortedEmptyCluster)
    else if assign' == assign then Clustering(assign', cents, Converged)
    else Run(points, assign', Means(points, assign'), fuel - 1)
  }

  /** A run leaves one cluster index in [0, K) per point. */
  lemma {:induction false} RunRange(points: seq<Coord>, assign: seq<int>, cents: seq<Coord>, fuel: nat)
    requires |cents| == K && |assign| == |points|
    requires forall i :: 0 <= i < |assign| ==> 0 <= assign[i] < K
    ensures |Run(points, assign, cents, fuel).assign| == |points|
    ensures forall i :: 0 <= i < |points| ==> 0 <= Run(points, assign, cents, fuel).assign[i] < K
    decreases fuel
  {
    if fuel > 0 {
      var assign' := Assign(points, cents);
      if !HasEmptyCluster(assign') && assign' != assign {
        RunRange(points, assign', Means(points, assign'), fuel - 1);
      }
    }
  }

  /**
   * A converged run ends with every cluster non-empty and every point at its
   * nearest centroid; unless it converged in its very first round, those
   * centroids are the means of their own clusters (a fixed point of the two
   * steps).
   */
  lemma {:induction false} RunConverged(points: seq<Coord>, assign: seq<int>, cents: seq<Coord>, fuel: nat)
    requires |cents| == K && |assign| == |points|
    requires Run(points, assign, cents, fuel).outcome == Converged
    ensures var r := Run(points, assign, cents, fuel);
      && r.assign == Assign(points, r.cents)
      && !HasEmptyCluster(r.assign)
      && ((r.assign == assign && r.cents == cents) || r.cents == Means(points, r.assign))
    decreases fuel
  {
    var assign' := Assign(points, cents);
    if !HasEmptyCluster(assign') && assign' != assign {
      RunConverged(points, assign', Means(points, assign'), fuel - 1);
    }
  }

  /** A run that aborts ends with some cluster that no point is assigned to. */
  lemma {:induction false} RunAborted(points: seq<Coord>, assign: seq<int>, cents: seq<Coord>, fuel: nat)
    requires |cents| == K
    requires Run(points, assign, cents, fuel).outcome == AbortedEmptyCluster
    ensures exists c :: 0 <= c < K && c !in Run(points, assign, cents, fuel).assign
    decreases fuel
  {
    var assign' := Assign(points, cents);
    if c :| 0 <= c < K && CountIn(assign', c) == 0 {
      CountInZero(assign', c);
    } else {
      RunAborted(points, assign', Means(points, assign'), fuel - 1);
    }
  }

  /** The cluster indices 0 .. n - 1. */
  function Range(n: nat): (r: set<int>)
    ensures forall c {:trigger c in r} :: c in r <==> 0 <= c < n
    ensures |r| == n
  {
    if n == 0 then {} else Range(n - 1) + {n - 1}
  }

  /** A sequence has no more distinct values than elements. */
  lemma {:induction false} ValuesCard(assign: seq<int>)
    ensures |set x | x in assign| <= |assign|
  {
    if |assign| > 0 {
      var s := assign[..|assign| - 1];
      ValuesCard(s);
      assert assign == s + [assign[|assign| - 1]];
      assert (set x | x in assign) == (set x | x in s) + {assign[|assign| - 1]};
    }
  }

  /** Fewer elements than n leave one of 0 .. n - 1 out (pigeonhole). */
  lemma MissingValue(assign: seq<int>, n: nat) returns (c: int)
    requires |assign| < n
    ensures 0 <= c < n && c !in assign
  {
    var used := set x | x in assign;
    ValuesCard(assign);
    if Range(n) <= used {
      SubsetCard(Range(n), used);
      assert false;
    }
    c :| c in Range(n) && c !in used;
  }

  /** Fewer points than clusters leave a cluster with no point. */
  lemma FewPointsEmptyCluster(assign: seq<int>)
    requires |assign| < K
    ensures HasEmptyCluster(assign)
  {
    var c := MissingValue(assign, K);
    CountInZero(assign, c);
  }

  /**
   * With fewer kept components than digits, the first round already finds an
   * empty cluster and the clustering aborts.
   */
  lemma FewPointsAbort(points: seq<Coord>, assign: seq<int>, cents: seq<Coord>, fuel: nat)
    requires |cents| == K && |points| < K && fuel > 0
    ensures Run(points, assign, cents, fuel).outcome == AbortedEmptyCluster
  {
    FewPointsEmptyCluster(Assign(points, cents));
  }

  /** The clusters of n fresh components: all 0, the C# default. */
  function Zeros(n: nat): (z: seq<int>)
    ensures |z| == n && forall i :: 0 <= i < n ==> z[i] == 0
  {
    seq(n, _ => 0)
  }

  /**
   * Started from fresh components, a converged run cannot have converged in
   * its first round (all points in cluster 0 leave the other clusters
   * empty), so it ends at a fixed point of the two steps: the assignment is
   * nearest-centroid for the centroids, and the centroids are the means of
   * the assignment.
   */
  lemma ConvergedFromZeros(points: seq<Coord>, cents: seq<Coord>, fuel: nat)
    requires |cents| == K
    requires Run(points, Zeros(|points|), cents, fuel).outcome == Converged
    ensures var r := Run(points, Zeros(|points|), cents, fuel);
      && r.assign == Assign(points, r.cents)
      && !HasEmptyCluster(r.assign)
      && r.cents == Means(points, r.assign)
  {
    var r := Run(points, Zeros(|points|), cents, fuel);
    RunConverged(points, Zeros(|points|), cents, fuel);
    if r.assign == Zeros(|points|) {
      CountInZero(r.assign, 1);
    }
  }

  /** The positions the clustering works on: each component's centroid. */
  function Centres(comps: seq<ConnComp>): (ps: seq<Coord>)
    reads comps
  {
    seq(|comps|, i reads comps requires 0 <= i < |comps| => Coord(comps[i].centX, comps[i].centY))
  }

  /** The current cluster of each component. */
  function Clusters(comps: seq<ConnComp>): (cl: seq<int>)
    reads comps
  {
    seq(|comps|, i reads comps requires 0 <= i < |comps| => comps[i].cluster)
  }

  /** No component occurs twice. */
  ghost predicate Distinct(comps: seq<ConnComp>) {
    forall i, j :: 0 <= i < j < |comps| ==> comps[i] != comps[j]
  }

  /** points are the components' centroids, one per component. */
  ghost predicate AtCentres(comps: seq<ConnComp>, points: seq<Coord>)
    reads comps`centX, comps`centY
  {
    |points| == |comps| && forall i :: 0 <= i < |comps| ==> points[i] == Coord(comps[i].centX, comps[i].centY)
  }

  /** assign holds the components' clusters, one per component. */
  ghost predicate InClusters(comps: seq<ConnComp>, assign: seq<int>)
    reads comps`cluster
  {
    |assign| == |comps| && forall i :: 0 <= i < |comps| ==> comps[i].cluster == assign[i]
  }

  /**
   * The assignment step: each component takes the cluster of the centroid
   * nearest to its own centroid; `converged` says that none changed cluster.
   */
  method AssignStep(comps: seq<ConnComp>, centroids: array<Coord>, ghost points: seq<Coord>,
                    ghost before: seq<int>)
    returns (converged: bool)
    requires centroids.Length == K
    requires Distinct(comps)
    requires AtCentres(comps, points) && InClusters(comps, before)
    modifies comps`cluster
    ensures InClusters(comps, Assign(points, centroids[..]))
    ensures converged <==> Assign(points, centroids[..]) == before
  {
    ghost var target := Assign(points, centroids[..]);
    converged := true;
    for i := 0 to |comps|
      invariant forall j :: 0 <= j < i ==> comps[j].cluster == target[j]
      invariant forall j :: i <= j < |comps| ==> comps[j].cluster == before[j]
      invariant converged <==> target[..i] == before[..i]
    {
      var cluster := NearestCentroid(Coord(comps[i].centX, comps[i].centY), centroids);
      assert target[..i + 1] == target[..i] + [cluster] && before[..i + 1] == before[..i] + [before[i]];
      if comps[i].cluster != cluster {
        converged := false;
      }
      comps[i].cluster := cluster;
    }
    assert target[..|comps|] == target && before[..|comps|] == before;
  }

  /**
   * The update step's tallies: per cluster, how many components it has and
   * the sums of their centroid coordinates.
   */
  method Tally(comps: seq<ConnComp>, count: array<int>, sumX: array<int>, sumY: array<int>,
               ghost points: seq<Coord>, ghost assign: seq<int>)
    requires count.Length == K && sumX.Length == K && sumY.Length == K
    requires count != sumX && count != sumY && sumX != sumY
    requires AtCentres(comps, points) && InClusters(comps, assign)
    requires forall i :: 0 <= i < |assign| ==> 0 <= assign[i] < K
    modifies count, sumX, sumY
    ensures forall c :: 0 <= c < K ==> count[c] == CountIn(assign, c)
    ensures forall c :: 0 <= c < K ==>
      sumX[c] == SumIn(Xs(points), assign, c) && sumY[c] == SumIn(Ys(points), assign, c)
  {
    for iter := 0 to K
      invariant forall c :: 0 <= c < iter ==> count[c] == 0 && sumX[c] == 0 && sumY[c] == 0
    {
      count[iter] := 0;
      sumX[iter] := 0;
      sumY[iter] := 0;
    }
    ghost var xs, ys := Xs(points), Ys(points);
    for i := 0 to |comps|
      invariant forall c :: 0 <= c < K ==> count[c] == CountIn(assign[..i], c)
      invariant forall c :: 0 <= c < K ==>
        sumX[c] == SumIn(xs[..i], assign[..i], c) && sumY[c] == SumIn(ys[..i], assign[..i], c)
    {
      var comp := comps[i];
      assert assign[i] == comp.cluster && xs[i] == comp.centX && ys[i] == comp.centY;
      forall c | 0 <= c < K
        ensures CountIn(assign[..i + 1], c) == CountIn(assign[..i], c) + (if assign[i] == c then 1 else 0)
        ensures SumIn(xs[..i + 1], assign[..i + 1], c) == SumIn(xs[..i], assign[..i], c) + (if assign[i] == c then xs[i] else 0)
        ensures SumIn(ys[..i + 1], assign[..i + 1], c) == SumIn(ys[..i], assign[..i], c) + (if assign[i] == c then ys[i] else 0)
      {
        TallyStep(xs, assign, i, c);
        TallyStep(ys, assign, i, c);
      }
      count[comp.cluster] := count[comp.cluster] + 1;
      sumX[comp.cluster] := sumX[comp.cluster] + comp.centX;
      sumY[comp.cluster] := sumY[comp.cluster] + comp.centY;
    }
    assert assign[..|comps|] == assign && xs[..|comps|] == xs && ys[..|comps|] == ys;
  }

  /**
   * The update step's last loop: every centroid moves to the truncated mean of
   * its cluster, in index order, until the first empty cluster aborts the run
   * and leaves that centroid and the later ones as they were.
   */
  method Recentre(centroids: array<Coord>, count: array<int>, sumX: array<int>, sumY: array<int>)
    returns (aborted: bool)
    requires centroids.Length == K && count.Length == K && sumX.Length == K && sumY.Length == K
    requires forall c :: 0 <= c < K ==> count[c] >= 0
    modifies centroids
    ensures aborted <==> exists c :: 0 <= c < K && count[c] == 0
    ensures !aborted ==> forall c :: 0 <= c < K ==>
      count[c] > 0 && centroids[c] == Coord(TruncDiv(sumX[c], count[c]), TruncDiv(sumY[c], count[c]))
    ensures forall c :: 0 <= c < K ==>
      if forall d :: 0 <= d <= c ==> count[d] != 0
      then centroids[c] == Coord(TruncDiv(sumX[c], count[c]), TruncDiv(sumY[c], count[c]))
      else centroids[c] == old(centroids[c])
  {
    aborted := false;
    var iter := 0;
    while iter < K
      invariant 0 <= iter <= K && !aborted
      invariant forall c :: 0 <= c < iter ==>
        count[c] > 0 && centroids[c] == Coord(TruncDiv(sumX[c], count[c]), TruncDiv(sumY[c], count[c]))
      invariant forall c :: iter <= c < K ==> centroids[c] == old(centroids[c])
    {
      if count[iter] == 0 {
        aborted := true;
        break;
      }
      centroids[iter] := Coord(TruncDiv(sumX[iter], count[iter]), TruncDiv(sumY[iter], count[iter]));
      iter := iter + 1;
    }
  }

  /**
   * The update step of a round: tally the clusters, then recentre. It aborts
   * on an empty cluster, leaving the centroids before the first empty one at
   * their means and the rest unchanged; otherwise it leaves every centroid
   * at the mean of its cluster.
   */
  method UpdateStep(comps: seq<ConnComp>, centroids: array<Coord>,
                    count: array<int>, sumX: array<int>, sumY: array<int>,
                    ghost points: seq<Coord>, ghost assign: seq<int>)
    returns (aborted: bool)
    requires centroids.Length == K && count.Length == K && sumX.Length == K && sumY.Length == K
    requires count != sumX && count != sumY && sumX != sumY
    requires AtCentres(comps, points) && InClusters(comps, assign)
    requires forall i :: 0 <= i < |assign| ==> 0 <= assign[i] < K
    modifies centroids, count, sumX, sumY
    ensures aborted <==> HasEmptyCluster(assign)
    ensures centroids[..] == PartialMeans(points, assign, old(centroids[..]))
    ensures !aborted ==> centroids[..] == Means(points, assign)
  {
    ghost var cents := centroids[..];
    Tally(comps, count, sumX, sumY, points, assign);
    aborted := Recentre(centroids, count, sumX, sumY);
    RecentredPartialMeans(points, assign, cents, centroids[..], count[..], sumX[..], sumY[..]);
    if !aborted {
      assert !HasEmptyCluster(assign);
      PartialMeansFull(points, assign, cents);
    }
  }

  /**
   * One round of the clustering loop: the assignment step, then the update
   * step. The loop stops after it on an abort or an unchanged assignment.
   */
  method LloydRound(comps: seq<ConnComp>, centroids: array<Coord>,
                    count: array<int>, sumX: array<int>, sumY: array<int>,
                    ghost points: seq<Coord>, ghost before: seq<int>)
    returns (converged: bool, aborted: bool, ghost assign: seq<int>)
    requires centroids.Length == K && count.Length == K && sumX.Length == K && sumY.Length == K
    requires count != sumX && count != sumY && sumX != sumY
    requires Distinct(comps) && AtCentres(comps, points) && InClusters(comps, before)
    modifies comps`cluster, centroids, count, sumX, sumY
    ensures assign == Assign(points, old(centroids[..])) && InClusters(comps, assign)
    ensures aborted <==> HasEmptyCluster(assign)
    ensures centroids[..] == PartialMeans(points, assign, old(centroids[..]))
    ensures !aborted ==> centroids[..] == Means(points, assign)
    ensures converged <==> aborted || assign == before
  {
    assign := Assign(points, centroids[..]);
    converged := AssignStep(comps, centroids, points, before);
    aborted := UpdateStep(comps, centroids, count, sumX, sumY, points, assign);
    if aborted {
      converged := true;
    }
  }

  /**
   * A round as a step of Run: with fuel f left, a round that stops has
   * produced Run's result, and one that goes on leaves Run with f - 1 rounds
   * to go from the new clusters and centroids.
   */
  method RunRound(comps: seq<ConnComp>, centroids: array<Coord>,
                  count: array<int>, sumX: array<int>, sumY: array<int>,
                  ghost points: seq<Coord>, ghost before: seq<int>, ghost cents: seq<Coord>, ghost f: nat,
                  ghost target: Clustering)
    returns (converged: bool, outcome: Outcome, ghost assign: seq<int>, ghost cents': seq<Coord>)
    requires centroids.Length == K && count.Length == K && sumX.Length == K && sumY.Length == K
    requires count != sumX && count != sumY && sumX != sumY
    requires Distinct(comps) && AtCentres(comps, points) && InClusters(comps, before)
    requires cents == centroids[..] && f > 0 && Run(points, before, cents, f) == target
    modifies comps`cluster, centroids, count, sumX, sumY
    ensures AtCentres(comps, points) && InClusters(comps, assign) && cents' == centroids[..]
    ensures converged ==> assign == target.assign && outcome == target.outcome
    ensures !converged ==> Run(points, assign, cents', f - 1) == target
  {
    var aborted;
    converged, aborted, assign := LloydRound(comps, centroids, count, sumX, sumY, points, before);
    outcome := if aborted then AbortedEmptyCluster else Converged;
    cents' := centroids[..];
  }

  /**
   * The clustering loop: rounds until the assignment is stable or a cluster
   * is empty, at most `fuel` of them.
   */
  method Iterate(comps: seq<ConnComp>, centroids: array<Coord>,
                 count: array<int>, sumX: array<int>, sumY: array<int>, fuel: nat,
                 ghost points: seq<Coord>, ghost assign0: seq<int>)
    returns (outcome: Outcome, ghost assign: seq<int>)
    requires centroids.Length == K && count.Length == K && sumX.Length == K && sumY.Length == K
    requires count != sumX && count != sumY && sumX != sumY
    requires Distinct(comps) && AtCentres(comps, points) && InClusters(comps, assign0)
    modifies comps`cluster, centroids, count, sumX, sumY
    ensures InClusters(comps, assign)
    ensures assign == Run(points, assign0, old(centroids[..]), fuel).assign
    ensures outcome == Run(points, assign0, old(centroids[..]), fuel).outcome
  {
    ghost var cents := centroids[..];
    ghost var target := Run(points, assign0, cents, fuel);
    assign := assign0;
    var converged := false;
    var round := 0;
    ghost var left := fuel;
    outcome := OutOfFuel;
    while !converged && round < fuel
      invariant 0 <= round <= fuel && left == fuel - round
      invariant AtCentres(comps, points) && InClusters(comps, assign) && cents == centroids[..]
      invariant !converged ==> outcome == OutOfFuel && Run(points, assign, cents, left) == target
      invariant converged ==> assign == target.assign && outcome == target.outcome
      decreases fuel - round
    {
      var stop, result;
      stop, result, assign, cents := RunRound(comps, centroids, count, sumX, sumY, points, assign, cents, left, target);
      left := left - 1;
      if stop {
        converged, outcome := true, result;
      }
      round := round + 1;
    }
  }

  /**
   * KMeansCluster: the grid initialization, then the clustering loop. The
   * components' clusters and the outcome are those of Run from the clusters
   * they had.
   */
  method KMeansCluster(comps: seq<ConnComp>, width: nat, height: nat, fuel: nat) returns (outcome: Outcome)
    requires Distinct(comps)
    modifies comps`cluster
    ensures Clusters(comps) == Run(old(Centres(comps)), old(Clusters(comps)), GridSeeds(width, height), fuel).assign
    ensures outcome == Run(old(Centres(comps)), old(Clusters(comps)), GridSeeds(width, height), fuel).outcome
  {
    ghost var points, assign := Centres(comps), Clusters(comps);
    var centroids := new Coord[K](_ => Coord(0, 0));
    InitCentroids(centroids, width, height);
    var sumX := new int[K](_ => 0);
    var sumY := new int[K](_ => 0);
    var count := new int[K](_ => 0);
    outcome, assign := Iterate(comps, centroids, count, sumX, sumY, fuel, points, assign);
    assert Clusters(comps) == assign;
  }
}
