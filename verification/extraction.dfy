/**
 * Component extraction: the span-based "forest fire" flood fill and the
 * column-major scan that floods every remaining foreground cell.
 */
module Extraction {
  import opened Geometry
  import opened Connectivity
  import opened Components
  import opened Flood

  /** Components with this many pixels or fewer are dropped as noise. */
  const MinPixelCount: int := 10

  /** The distinct coordinates of a pixel list (the list may repeat some). */
  function Elements(s: seq<Coord>): set<Coord> {
    set c | c in s
  }

  /** The cells a span appends to a pixel list are, as a set, the span. */
  lemma {:induction false} ElementsSpan(p: seq<Coord>, w: int, e: int, row: int)
    ensures Elements(p + SpanCells(w, e, row)) == Elements(p) + Span(w, e, row)
    decreases e - w
  {
    if e < w {
      assert Span(w, e, row) == {};
      assert p + SpanCells(w, e, row) == p;
    } else {
      ElementsSpan(p, w, e - 1, row);
      var r := p + SpanCells(w, e - 1, row);
      assert p + SpanCells(w, e, row) == r + [Coord(e, row)];
      assert Elements(r + [Coord(e, row)]) == Elements(r) + {Coord(e, row)};
      SpanExtend(w, e, row);
    }
  }

  /** A pixel list has no more distinct cells than entries. */
  lemma {:induction false} ElementsCard(s: seq<Coord>)
    ensures |Elements(s)| <= |s|
  {
    if |s| > 0 {
      var n := |s| - 1;
      ElementsCard(s[..n]);
      assert s == s[..n] + [s[n]];
      assert Elements(s) == Elements(s[..n]) + {s[n]};
    }
  }

  /**
   * Widen west, then east, along the row of c while the neighbouring cell is
   * foreground.
   */
  method WidenSpan(a: array2<bool>, c: Coord) returns (w: int, e: int)
    requires InBounds(a, c)
    ensures 0 <= w && e < a.Length0
    ensures MaximalSpan(Foreground(a), w, e, c)
  {
    w := c.x;
    while w > 0 && a[w - 1, c.y]
      invariant 0 <= w <= c.x
      invariant forall i :: w <= i < c.x ==> a[i, c.y]
    {
      w := w - 1;
    }
    e := c.x;
    while e < a.Length0 - 1 && a[e + 1, c.y]
      invariant c.x <= e < a.Length0
      invariant forall i :: c.x < i <= e ==> a[i, c.y]
    {
      e := e + 1;
    }
  }

  /** Clear one mask cell. */
  method ClearCell(a: array2<bool>, c: Coord)
    requires InBounds(a, c)
    modifies a
    ensures Foreground(a) == old(Foreground(a)) - {c}
  {
    a[c.x, c.y] := false;
  }

  /**
   * One cell of a span: clear it, record it, and queue each foreground cell
   * directly above and below it (above first).
   */
  method ConsumeCell(a: array2<bool>, comp: ConnComp, cell: Coord, q: seq<Coord>)
    returns (q': seq<Coord>, ghost col: seq<Coord>)
    requires InBounds(a, cell)
    modifies a, comp`pixels
    ensures Foreground(a) == old(Foreground(a)) - {cell}
    ensures comp.pixels == old(comp.pixels) + [cell]
    ensures q' == q + col
    ensures forall k :: 0 <= k < |col| ==>
      col[k] in old(Foreground(a)) && col[k].x == cell.x && (col[k].y == cell.y - 1 || col[k].y == cell.y + 1)
    ensures North(cell) in old(Foreground(a)) ==> North(cell) in col
    ensures South(cell) in old(Foreground(a)) ==> South(cell) in col
    ensures col == (if cell.y > 0 && old(a[cell.x, cell.y - 1]) then [North(cell)] else [])
                 + (if cell.y < a.Length1 - 1 && old(a[cell.x, cell.y + 1]) then [South(cell)] else [])
  {
    ghost var fg := Foreground(a);
    ClearCell(a, cell);
    comp.pixels := comp.pixels + [cell];
    assert North(cell) in fg <==> North(cell) in Foreground(a);
    assert South(cell) in fg <==> South(cell) in Foreground(a);
    q', col := q, [];
    if cell.y > 0 && a[cell.x, cell.y - 1] {
      q', col := q' + [North(cell)], col + [North(cell)];
    }
    if cell.y < a.Length1 - 1 && a[cell.x, cell.y + 1] {
      q', col := q' + [South(cell)], col + [South(cell)];
    }
  }

  /**
   * Cell n of span [w, e]: the cleared and recorded span so far grows by one
   * cell, and the queue by that cell's column.
   */
  method ConsumeStep(a: array2<bool>, comp: ConnComp, w: int, n: int, row: int, q0: seq<Coord>, q: seq<Coord>,
                     ghost fg: set<Coord>, ghost pixels0: seq<Coord>, ghost found: seq<Coord>)
    returns (q': seq<Coord>, ghost found': seq<Coord>)
    requires 0 <= w <= n < a.Length0 && 0 <= row < a.Length1
    requires Foreground(a) == fg - Span(w, n - 1, row)
    requires comp.pixels == pixels0 + SpanCells(w, n - 1, row)
    requires q == q0 + found && QueuesNeighbours(fg, w, n - 1, row, found)
    modifies a, comp`pixels
    ensures Foreground(a) == fg - Span(w, n, row)
    ensures comp.pixels == pixels0 + SpanCells(w, n, row)
    ensures q' == q0 + found' && QueuesNeighbours(fg, w, n, row, found')
    ensures found' == found
                      + (if row > 0 && old(a[n, row - 1]) then [North(Coord(n, row))] else [])
                      + (if row < a.Length1 - 1 && old(a[n, row + 1]) then [South(Coord(n, row))] else [])
  {
    var cell := Coord(n, row);
    ghost var g := Foreground(a);
    ghost var col;
    q', col := ConsumeCell(a, comp, cell, q);
    QueuesColumn(fg, g, w, n, row, found, col);
    SpanExtend(w, n, row);
    found' := found + col;
    assert q' == q0 + found';
  }

  /**
   * The inner loop of the fill: clear and record every cell of span [w, e]
   * of row `row`, west to east, queueing the foreground cells directly above
   * and below each.
   */
  method ConsumeSpan(a: array2<bool>, comp: ConnComp, w: int, e: int, row: int, q: seq<Coord>)
    returns (q': seq<Coord>, ghost found: seq<Coord>)
    requires 0 <= w <= e < a.Length0 && 0 <= row < a.Length1
    modifies a, comp`pixels
    ensures Foreground(a) == old(Foreground(a)) - Span(w, e, row)
    ensures comp.pixels == old(comp.pixels) + SpanCells(w, e, row)
    ensures q' == q + found
    ensures QueuesNeighbours(old(Foreground(a)), w, e, row, found)
  {
    ghost var fg := Foreground(a);
    ghost var pixels0 := comp.pixels;
    found := [];
    q' := q;
    var n := w;
    while n <= e
      invariant w <= n <= e + 1
      invariant Foreground(a) == fg - Span(w, n - 1, row)
      invariant comp.pixels == pixels0 + SpanCells(w, n - 1, row)
      invariant q' == q + found
      invariant QueuesNeighbours(fg, w, n - 1, row, found)
    {
      q', found := ConsumeStep(a, comp, w, n, row, q, q', fg, pixels0, found);
      n := n + 1;
    }
  }

  lemma DiffUnion(f: set<Coord>, c: set<Coord>, s: set<Coord>)
    ensures (f - c) - s == f - (c + s)
  {
  }

  /** The state the fill keeps between rounds. */
  ghost predicate FireState(a: array2<bool>, comp: ConnComp, f0: set<Coord>, seed: Coord,
                            consumed: set<Coord>, q: seq<Coord>)
    reads a, comp
  {
    && Foreground(a) == f0 - consumed
    && (forall c :: c in f0 ==> InBounds(a, c))
    && FloodInv(f0, seed, consumed, q)
    && Elements(comp.pixels) == consumed
  }

  lemma FireStart(a: array2<bool>, comp: ConnComp, f0: set<Coord>, seed: Coord)
    requires f0 == Foreground(a) && seed in f0 && comp.pixels == []
    ensures FireState(a, comp, f0, seed, {}, [seed])
  {
    FloodStart(f0, seed);
    assert f0 - {} == f0;
  }

  lemma FireDone(a: array2<bool>, comp: ConnComp, f0: set<Coord>, seed: Coord, consumed: set<Coord>)
    requires FireState(a, comp, f0, seed, consumed, [])
    ensures Foreground(a) == f0 - Component(f0, seed)
    ensures Elements(comp.pixels) == Component(f0, seed)
  {
    FloodComplete(f0, seed, consumed);
  }

  /** A non-empty list has a first element; this names it for the solver. */
  lemma HeadOf(s: seq<Coord>)
    ensures s != [] ==> s[0] in s
  {
  }

  /**
   * An isolated seed widens to itself and queues nothing: its row neighbours
   * and the cells above and below it are not foreground.
   */
  lemma LoneSpan(f0: set<Coord>, g: set<Coord>, seed: Coord, w: int, e: int, found: seq<Coord>)
    requires g <= f0 && Isolated(f0, seed)
    requires MaximalSpan(g, w, e, seed) && QueuesNeighbours(g, w, e, seed.y, found)
    ensures w == seed.x == e && found == []
  {
    if w < seed.x {
      assert false;
    }
    if e > seed.x {
      assert false;
    }
    HeadOf(found);
    if found != [] {
      assert false;
    }
  }

  /**
   * One round of the fill: dequeue a coordinate, widen it to a maximal span
   * of its row, and consume that span.
   */
  method FireRound(a: array2<bool>, comp: ConnComp, q: seq<Coord>,
                   ghost f0: set<Coord>, ghost seed: Coord, ghost consumed: set<Coord>)
    returns (q': seq<Coord>, ghost consumed': set<Coord>)
    requires |q| > 0 && FireState(a, comp, f0, seed, consumed, q)
    modifies a, comp`pixels
    ensures FireState(a, comp, f0, seed, consumed', q')
    ensures FloodProgress(f0, consumed, q, consumed', q')
    ensures Isolated(f0, seed) && q == [seed] ==> q' == [] && comp.pixels == old(comp.pixels) + [seed]
  {
    var coord := q[0];
    var rest := q[1..];
    var w, e := WidenSpan(a, coord);
    ghost var pixels := comp.pixels;
    ghost var found;
    ghost var g := Foreground(a);
    q', found := ConsumeSpan(a, comp, w, e, coord.y, rest);
    if Isolated(f0, seed) && q == [seed] {
      LoneSpan(f0, g, seed, w, e, found);
      assert SpanCells(w, e, coord.y) == [seed];
    }
    consumed' := consumed + Span(w, e, coord.y);
    ElementsSpan(pixels, w, e, coord.y);
    DiffUnion(f0, consumed, Span(w, e, coord.y));
    FloodStep(f0, seed, consumed, q, w, e, found);
  }

  /**
   * The rounds of the fill, from the queue holding the seed until the queue
   * is empty. A seed that is its own component is recorded once.
   */
  method FireRounds(a: array2<bool>, comp: ConnComp, q0: seq<Coord>, ghost f0: set<Coord>, ghost seed: Coord)
    returns (ghost consumed: set<Coord>)
    requires q0 == [seed] && FireState(a, comp, f0, seed, {}, q0)
    requires comp.pixels == []
    modifies a, comp`pixels
    ensures FireState(a, comp, f0, seed, consumed, [])
    ensures Isolated(f0, seed) ==> comp.pixels == [seed]
  {
    consumed := {};
    var q := q0;
    while |q| > 0
      invariant FireState(a, comp, f0, seed, consumed, q)
      invariant Isolated(f0, seed) ==>
        (q == [seed] && comp.pixels == []) || (q == [] && comp.pixels == [seed])
      decreases |f0 - consumed|, StaleCount(q, consumed)
    {
      q, consumed := FireRound(a, comp, q, f0, seed, consumed);
    }
  }

  /**
   * The forest-fire flood fill from a foreground seed. Each dequeued
   * coordinate is widened west and east along its row while the neighbours
   * are foreground; every cell of that span is cleared and recorded, and its
   * foreground neighbours above and below are queued.
   *
   * The mask loses exactly the 4-connected component of the seed, and the
   * recorded pixels are, as a set, that component. A coordinate queued twice
   * is widened twice, so the pixel list can repeat a cell. A seed that is
   * its own component is recorded once.
   */
  method ForestFire(a: array2<bool>, x: int, y: int) returns (comp: ConnComp)
    requires 0 <= x < a.Length0 && 0 <= y < a.Length1 && a[x, y]
    modifies a
    ensures fresh(comp) && comp.cluster == 0
    ensures Foreground(a) == old(Foreground(a)) - Component(old(Foreground(a)), Coord(x, y))
    ensures Elements(comp.pixels) == Component(old(Foreground(a)), Coord(x, y))
    ensures Isolated(old(Foreground(a)), Coord(x, y)) ==> comp.pixels == [Coord(x, y)]
  {
    ghost var f0 := Foreground(a);
    ghost var seed := Coord(x, y);
    comp := new ConnComp();
    FireStart(a, comp, f0, seed);
    ghost var consumed := FireRounds(a, comp, [Coord(x, y)], f0, seed);
    FireDone(a, comp, f0, seed, consumed);
  }

  /** The cells of the components of the seeds. */
  ghost function Covered(f0: set<Coord>, seeds: seq<Coord>): set<Coord>
  {
    if |seeds| == 0 then {}
    else Covered(f0, seeds[..|seeds| - 1]) + Component(f0, seeds[|seeds| - 1])
  }

  /** The cells of f whose component has more than MinPixelCount cells. */
  ghost function BigCells(f: set<Coord>): set<Coord> {
    set c | c in f && |Component(f, c)| > MinPixelCount
  }

  /** A covered cell lies in the component of one of the seeds. */
  lemma {:induction false} CoveredWitness(f0: set<Coord>, seeds: seq<Coord>, c: Coord)
    requires c in Covered(f0, seeds)
    ensures exists i :: 0 <= i < |seeds| && c in Component(f0, seeds[i])
  {
    var n := |seeds| - 1;
    if c !in Component(f0, seeds[n]) {
      CoveredWitness(f0, seeds[..n], c);
      var i :| 0 <= i < n && c in Component(f0, seeds[..n][i]);
      assert seeds[..n][i] == seeds[i];
    }
  }

  /**
   * What the column-major scan of FindConnComp keeps true of the mask's
   * foreground g before it visits cell (x, y), where f0 is the foreground it
   * started from: g is a closed part of f0 with no cell before (x, y); the
   * seeds were visited before (x, y), in scan order, each outside the
   * components of the earlier ones, and their components are gone from g;
   * every cell already flooded whose component has more than MinPixelCount
   * cells lies in the component of a seed.
   */
  ghost predicate ScanSets(f0: set<Coord>, g: set<Coord>, seeds: seq<Coord>, x: int, y: int) {
    && Closed(f0, g)
    && (forall c :: c in g ==> !ScanBefore(c, Coord(x, y)))
    && (forall i :: 0 <= i < |seeds| ==> seeds[i] in f0 && ScanBefore(seeds[i], Coord(x, y)))
    && (forall i, j :: 0 <= i < j < |seeds| ==>
          ScanBefore(seeds[i], seeds[j]) && seeds[j] !in Component(f0, seeds[i]))
    && (forall i :: 0 <= i < |seeds| ==> Component(f0, seeds[i]) !! g)
    && BigCells(f0) - g <= Covered(f0, seeds)
  }

  /** ScanSets of the mask, and each seed's component kept as a distinct object. */
  ghost predicate ScanState(a: array2<bool>, f0: set<Coord>, comps: seq<ConnComp>,
                            seeds: seq<Coord>, x: int, y: int)
    reads a, comps
  {
    ScanSets(f0, Foreground(a), seeds, x, y) && KeptAll(comps, f0, seeds)
  }

  /** Visiting a background cell. */
  lemma ScanSetsSkip(f0: set<Coord>, g: set<Coord>, seeds: seq<Coord>, x: int, y: int)
    requires ScanSets(f0, g, seeds, x, y) && Coord(x, y) !in g
    ensures ScanSets(f0, g, seeds, x, y + 1)
  {
  }

  /**
   * A foreground cell s = (x, y) the scan meets: its component in g is its
   * component in f0, and no cell of it comes before s.
   */
  lemma ScanSetsComponent(f0: set<Coord>, g: set<Coord>, seeds: seq<Coord>, x: int, y: int)
    requires ScanSets(f0, g, seeds, x, y) && Coord(x, y) in g
    ensures Component(g, Coord(x, y)) == Component(f0, Coord(x, y))
    ensures forall c :: c in Component(f0, Coord(x, y)) ==> !ScanBefore(c, Coord(x, y))
  {
    ComponentOfClosedPart(f0, g, Coord(x, y));
  }

  /**
   * Removing the component of a foreground cell s = (x, y) moves the scan
   * on, with s kept as a seed, or dropped when its component has at most
   * MinPixelCount cells.
   */
  lemma ScanSetsFlood(f0: set<Coord>, g: set<Coord>, seeds: seq<Coord>, x: int, y: int, keep: bool)
    requires ScanSets(f0, g, seeds, x, y) && Coord(x, y) in g
    requires keep || |Component(f0, Coord(x, y))| <= MinPixelCount
    ensures ScanSets(f0, g - Component(g, Coord(x, y)), if keep then seeds + [Coord(x, y)] else seeds, x, y + 1)
  {
    var s := Coord(x, y);
    ComponentOfClosedPart(f0, g, s);
    RemoveComponentClosed(f0, g, s);
    ComponentClosed(g, s);
    if keep {
      var seeds' := seeds + [s];
      forall i, j | 0 <= i < j < |seeds'|
        ensures ScanBefore(seeds'[i], seeds'[j]) && seeds'[j] !in Component(f0, seeds'[i])
      {
        if j == |seeds| {
          assert seeds'[j] == s && seeds'[i] == seeds[i];
        }
      }
      assert seeds'[..|seeds|] == seeds;
      assert Covered(f0, seeds') == Covered(f0, seeds) + Component(f0, s);
    } else {
      forall c | c in Component(f0, s)
        ensures c !in BigCells(f0)
      {
        SameComponent(f0, s, c);
      }
    }
  }

  /**
   * A segment of f: as a set, its pixels are the component of `seed` in f,
   * which is more than the seed alone (the seed is not isolated) and has no
   * cell before the seed in scan order. Its pixel list, repeats included,
   * has more than MinPixelCount entries, and its values are computed.
   */
  ghost predicate Segment(comp: ConnComp, f: set<Coord>, seed: Coord)
    reads comp`pixels, comp`centX, comp`centY, comp`width, comp`height
  {
    && seed in f
    && Elements(comp.pixels) == Component(f, seed)
    && !Isolated(f, seed)
    && (forall c :: c in Component(f, seed) ==> !ScanBefore(c, seed))
    && |comp.pixels| > MinPixelCount
    && comp.HasValues()
  }

  /** A component FindConnComp keeps: a segment, still in cluster 0. */
  ghost predicate Kept(comp: ConnComp, f0: set<Coord>, seed: Coord)
    reads comp
  {
    Segment(comp, f0, seed) && comp.cluster == 0
  }

  /** Every component is kept from its own seed, and no object is listed twice. */
  ghost predicate KeptAll(comps: seq<ConnComp>, f0: set<Coord>, seeds: seq<Coord>)
    reads comps
  {
    && |seeds| == |comps|
    && (forall i :: 0 <= i < |seeds| ==> Kept(comps[i], f0, seeds[i]))
    && (forall i, j :: 0 <= i < j < |comps| ==> comps[i] != comps[j])
  }

  /** The scan state from its two halves, once the mask's foreground is known to be g. */
  lemma ScanStateOf(a: array2<bool>, f0: set<Coord>, g: set<Coord>, comps: seq<ConnComp>,
                    seeds: seq<Coord>, x: int, y: int)
    requires Foreground(a) == g && ScanSets(f0, g, seeds, x, y) && KeptAll(comps, f0, seeds)
    ensures ScanState(a, f0, comps, seeds, x, y)
  {
  }

  /** Keeping one more component that is not yet listed. */
  lemma KeptAllAppend(comps: seq<ConnComp>, f0: set<Coord>, seeds: seq<Coord>, comp: ConnComp, seed: Coord)
    requires KeptAll(comps, f0, seeds) && Kept(comp, f0, seed) && comp !in comps
    ensures KeptAll(comps + [comp], f0, seeds + [seed])
  {
  }

  /**
   * comps are the segments of f flooded from seeds, in scan order of the
   * seeds and pairwise disjoint, and every cell of f whose component has
   * more than MinPixelCount cells lies in one of them.
   */
  ghost predicate Extracted(comps: seq<ConnComp>, f: set<Coord>, seeds: seq<Coord>)
    reads comps`pixels, comps`centX, comps`centY, comps`width, comps`height
  {
    && |seeds| == |comps|
    && (forall i :: 0 <= i < |comps| ==> Segment(comps[i], f, seeds[i]))
    && (forall i, j :: 0 <= i < j < |comps| ==>
          ScanBefore(seeds[i], seeds[j]) && Elements(comps[i].pixels) !! Elements(comps[j].pixels))
    && (forall c :: c in BigCells(f) ==> exists i :: 0 <= i < |comps| && c in Elements(comps[i].pixels))
  }

  /** Pixels inside a mask whose dimensions fit an `int` are in `int` range. */
  lemma PixelsInRange(a: array2<bool>, pixels: seq<Coord>, f0: set<Coord>)
    requires a.Length0 <= IntMax && a.Length1 <= IntMax
    requires forall c :: c in f0 ==> InBounds(a, c)
    requires Elements(pixels) <= f0
    ensures InIntRange(pixels)
  {
    forall i | 0 <= i < |pixels|
      ensures IntMin <= pixels[i].x <= IntMax && IntMin <= pixels[i].y <= IntMax
    {
      assert pixels[i] in Elements(pixels);
    }
  }

  /**
   * Keeping a flooded component: its values are computed and it is listed
   * with s as its seed.
   */
  method KeepComponent(a: array2<bool>, comp: ConnComp, ghost comps: seq<ConnComp>, ghost f0: set<Coord>,
                       ghost g: set<Coord>, ghost seeds: seq<Coord>, ghost s: Coord, ghost x: int, ghost y: int)
    requires comp !in comps && comp.cluster == 0
    requires |comp.pixels| > MinPixelCount && InIntRange(comp.pixels)
    requires s in f0 && Elements(comp.pixels) == Component(f0, s) && !Isolated(f0, s)
    requires forall c :: c in Component(f0, s) ==> !ScanBefore(c, s)
    requires KeptAll(comps, f0, seeds) && Foreground(a) == g && ScanSets(f0, g, seeds + [s], x, y + 1)
    modifies comp
    ensures comp.pixels == old(comp.pixels)
    ensures ScanState(a, f0, comps + [comp], seeds + [s], x, y + 1)
  {
    comp.CalcValues();
    KeptAllAppend(comps, f0, seeds, comp, s);
    ScanStateOf(a, f0, g, comps + [comp], seeds + [s], x, y + 1);
  }

  /**
   * The body of the scan for one cell: a foreground cell is flooded, and
   * the component is returned, with its values computed, when its pixel
   * list (`flooded`) has more than MinPixelCount entries; otherwise the
   * result is null.
   */
  method FloodCell(a: array2<bool>, x: int, y: int, ghost comps: seq<ConnComp>,
                  ghost f0: set<Coord>, ghost seeds: seq<Coord>)
    returns (kept: ConnComp?, ghost seeds': seq<Coord>, ghost flooded: seq<Coord>)
    requires 0 <= x < a.Length0 && 0 <= y < a.Length1
    requires a.Length0 <= IntMax && a.Length1 <= IntMax
    requires forall c :: c in f0 ==> InBounds(a, c)
    requires ScanState(a, f0, comps, seeds, x, y)
    modifies a
    ensures old(a[x, y]) ==> Elements(flooded) == Component(old(Foreground(a)), Coord(x, y))
    ensures !old(a[x, y]) ==> flooded == []
    ensures kept != null <==> old(a[x, y]) && |flooded| > MinPixelCount
    ensures kept != null ==> kept.pixels == flooded
    ensures kept != null ==> fresh(kept)
    ensures kept == null ==> ScanState(a, f0, comps, seeds', x, y + 1)
    ensures kept != null ==> ScanState(a, f0, comps + [kept], seeds', x, y + 1)
  {
    kept, seeds', flooded := null, seeds, [];
    ghost var g := Foreground(a);
    ghost var s := Coord(x, y);
    if a[x, y] {
      ScanSetsComponent(f0, g, seeds, x, y);
      var comp := ForestFire(a, x, y);
      flooded := comp.pixels;
      ghost var g' := Foreground(a);
      assert comp !in comps && g' == g - Component(g, s);
      if |comp.pixels| > MinPixelCount {
        ScanSetsFlood(f0, g, seeds, x, y, true);
        PixelsInRange(a, comp.pixels, f0);
        assert !Isolated(f0, s);
        KeepComponent(a, comp, comps, f0, g', seeds, s, x, y);
        kept, seeds' := comp, seeds + [s];
      } else {
        ElementsCard(comp.pixels);
        ScanSetsFlood(f0, g, seeds, x, y, false);
        ScanStateOf(a, f0, g - Component(g, s), comps, seeds', x, y + 1);
      }
    } else {
      ScanSetsSkip(f0, g, seeds, x, y);
      ScanStateOf(a, f0, g, comps, seeds', x, y + 1);
    }
  }

  /** One visit of the scan: the component FloodCell keeps, if any, is added to the list. */
  method ScanCell(a: array2<bool>, x: int, y: int, comps: seq<ConnComp>,
                  ghost f0: set<Coord>, ghost seeds: seq<Coord>)
    returns (comps': seq<ConnComp>, ghost seeds': seq<Coord>)
    requires 0 <= x < a.Length0 && 0 <= y < a.Length1
    requires a.Length0 <= IntMax && a.Length1 <= IntMax
    requires forall c :: c in f0 ==> InBounds(a, c)
    requires ScanState(a, f0, comps, seeds, x, y)
    modifies a
    ensures ScanState(a, f0, comps', seeds', x, y + 1)
    ensures forall i :: 0 <= i < |comps'| ==> comps'[i] in comps || fresh(comps'[i])
  {
    var comp;
    ghost var flooded;
    comp, seeds', flooded := FloodCell(a, x, y, comps, f0, seeds);
    comps' := comps;
    if comp != null {
      comps' := comps + [comp];
    }
  }

  lemma ScanStart(a: array2<bool>)
    ensures ScanState(a, Foreground(a), [], [], 0, 0)
  {
    ClosedSelf(Foreground(a));
  }

  /** Past the last row of column x, the scan continues at the top of column x + 1. */
  lemma ScanNextColumn(a: array2<bool>, f0: set<Coord>, comps: seq<ConnComp>, seeds: seq<Coord>, x: int)
    requires ScanState(a, f0, comps, seeds, x, a.Length1)
    ensures ScanState(a, f0, comps, seeds, x + 1, 0)
  {
  }

  /**
   * Once the scan is past the last column the mask is empty, and the kept
   * components are the extracted segments of f0.
   */
  lemma ScanDone(a: array2<bool>, f0: set<Coord>, comps: seq<ConnComp>, seeds: seq<Coord>)
    requires ScanState(a, f0, comps, seeds, a.Length0, 0)
    ensures Foreground(a) == {}
    ensures Extracted(comps, f0, seeds)
  {
    forall i, j | 0 <= i < j < |comps|
      ensures Elements(comps[i].pixels) !! Elements(comps[j].pixels)
    {
      assert Kept(comps[i], f0, seeds[i]) && Kept(comps[j], f0, seeds[j]);
      ComponentsDisjoint(f0, seeds[i], seeds[j]);
    }
    forall c | c in BigCells(f0)
      ensures exists i :: 0 <= i < |comps| && c in Elements(comps[i].pixels)
    {
      CoveredWitness(f0, seeds, c);
      var i :| 0 <= i < |seeds| && c in Component(f0, seeds[i]);
      assert Kept(comps[i], f0, seeds[i]);
    }
  }

  /**
   * The column-major scan (x outer, y inner) that floods every foreground
   * cell it meets and keeps the components with more than MinPixelCount
   * pixels, each with its values computed.
   *
   * The mask ends empty. The kept components are new, in cluster 0, and
   * extracted from the original mask: they come in scan order of their
   * seeds; each is, as a set of pixels, the 4-connected component of its
   * seed, no cell of it comes before its seed, and no two share a pixel;
   * and every component of more than MinPixelCount cells is among them.
   */
  method FindConnComp(a: array2<bool>) returns (comps: seq<ConnComp>, ghost seeds: seq<Coord>)
    requires a.Length0 <= IntMax && a.Length1 <= IntMax
    modifies a
    ensures Foreground(a) == {}
    ensures Extracted(comps, old(Foreground(a)), seeds)
    ensures forall i :: 0 <= i < |comps| ==> fresh(comps[i]) && comps[i].cluster == 0
    ensures forall i, j :: 0 <= i < j < |comps| ==> comps[i] != comps[j]
  {
    ghost var f0 := Foreground(a);
    ScanStart(a);
    comps, seeds := [], [];
    var x := 0;
    while x < a.Length0
      invariant 0 <= x <= a.Length0
      invariant ScanState(a, f0, comps, seeds, x, 0)
      invariant forall i :: 0 <= i < |comps| ==> fresh(comps[i])
    {
      var y := 0;
      while y < a.Length1
        invariant 0 <= y <= a.Length1
        invariant ScanState(a, f0, comps, seeds, x, y)
        invariant forall i :: 0 <= i < |comps| ==> fresh(comps[i])
      {
        comps, seeds := ScanCell(a, x, y, comps, f0, seeds);
        y := y + 1;
      }
      ScanNextColumn(a, f0, comps, seeds, x);
      x := x + 1;
    }
    ScanDone(a, f0, comps, seeds);
  }
}
