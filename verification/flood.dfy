/**
 * The invariant of the forest-fire flood fill and the facts that carry it
 * from one dequeued coordinate to the next.
 *
 * f0 is the foreground on entry, `consumed` the cells cleared so far, q the
 * work queue. The flood keeps four things true: everything consumed or
 * queued is reachable from the seed; a consumed cell never has an
 * unconsumed foreground cell beside it in its row (spans are maximal); an
 * unconsumed foreground cell above or below a consumed one is queued; and
 * the seed is consumed or queued. When the queue runs dry, the consumed set
 * is closed, so it is exactly the seed's component.
 */
module Flood {
  import opened Geometry
  import opened Connectivity

  /** The cells of row `row` from column w to column e inclusive. */
  function Span(w: int, e: int, row: int): set<Coord> {
    set i | w <= i <= e :: Coord(i, row)
  }

  /** The same cells in the order the fill records them: west to east. */
  function SpanCells(w: int, e: int, row: int): seq<Coord>
    decreases e - w
  {
    if e < w then [] else SpanCells(w, e - 1, row) + [Coord(e, row)]
  }

  lemma SpanExtend(w: int, n: int, row: int)
    requires w <= n
    ensures Span(w, n, row) == Span(w, n - 1, row) + {Coord(n, row)}
  {
  }

  ghost predicate RowClosed(f0: set<Coord>, consumed: set<Coord>) {
    forall c :: c in consumed ==>
      (West(c) in f0 ==> West(c) in consumed) && (East(c) in f0 ==> East(c) in consumed)
  }

  ghost predicate ColumnsQueued(f0: set<Coord>, consumed: set<Coord>, q: seq<Coord>) {
    forall c :: c in consumed ==>
      (North(c) in f0 && North(c) !in consumed ==> North(c) in q) &&
      (South(c) in f0 && South(c) !in consumed ==> South(c) in q)
  }

  ghost predicate FloodInv(f0: set<Coord>, seed: Coord, consumed: set<Coord>, q: seq<Coord>) {
    && consumed <= f0
    && consumed <= Component(f0, seed)
    && (forall k :: 0 <= k < |q| ==> q[k] in Component(f0, seed))
    && RowClosed(f0, consumed)
    && ColumnsQueued(f0, consumed, q)
    && (seed in consumed || seed in q)
  }

  /**
   * [w, e] is the widest run of row c.y through column c.x whose cells other
   * than c are in g: widening stops at the first cell outside g on each side.
   */
  ghost predicate MaximalSpan(g: set<Coord>, w: int, e: int, c: Coord) {
    && w <= c.x <= e
    && (forall i :: w <= i <= e && i != c.x ==> Coord(i, c.y) in g)
    && West(Coord(w, c.y)) !in g
    && East(Coord(e, c.y)) !in g
  }

  /**
   * What clearing span [w, e] of row `row` queues: cells that were foreground
   * (in fg) directly above or below the span, and every such cell.
   */
  ghost predicate QueuesNeighbours(fg: set<Coord>, w: int, e: int, row: int, found: seq<Coord>) {
    && (forall k :: 0 <= k < |found| ==>
          found[k] in fg && w <= found[k].x <= e && (found[k].y == row - 1 || found[k].y == row + 1))
    && (forall i :: w <= i <= e ==>
          (North(Coord(i, row)) in fg ==> North(Coord(i, row)) in found) &&
          (South(Coord(i, row)) in fg ==> South(Coord(i, row)) in found))
  }

  /**
   * Queueing the cells above and below column n that are still foreground
   * (g is fg with the span so far cleared) extends the span by that column.
   */
  lemma QueuesColumn(fg: set<Coord>, g: set<Coord>, w: int, n: int, row: int,
                     found: seq<Coord>, col: seq<Coord>)
    requires w <= n && QueuesNeighbours(fg, w, n - 1, row, found)
    requires g == fg - Span(w, n - 1, row)
    requires forall k :: 0 <= k < |col| ==>
      col[k] in g && col[k].x == n && (col[k].y == row - 1 || col[k].y == row + 1)
    requires North(Coord(n, row)) in g ==> North(Coord(n, row)) in col
    requires South(Coord(n, row)) in g ==> South(Coord(n, row)) in col
    ensures QueuesNeighbours(fg, w, n, row, found + col)
  {
    var found' := found + col;
    forall k | 0 <= k < |found'|
      ensures found'[k] in fg && w <= found'[k].x <= n && (found'[k].y == row - 1 || found'[k].y == row + 1)
    {
      if k >= |found| {
        assert found'[k] == col[k - |found|];
      }
    }
    assert North(Coord(n, row)) !in Span(w, n - 1, row);
    assert South(Coord(n, row)) !in Span(w, n - 1, row);
  }

  lemma FloodStart(f0: set<Coord>, seed: Coord)
    requires seed in f0
    ensures FloodInv(f0, seed, {}, [seed])
  {
    ReachableSelf(f0, seed);
  }

  /** Every cell of a span through a reachable cell, whose other cells are foreground, is reachable. */
  lemma {:induction false} SpanReachable(f0: set<Coord>, seed: Coord, coord: Coord, w: int, e: int)
    requires w <= coord.x <= e && coord in f0 && Reachable(f0, seed, coord)
    requires forall i :: w <= i <= e ==> Coord(i, coord.y) in f0
    ensures forall i :: w <= i <= e ==> Reachable(f0, seed, Coord(i, coord.y))
    decreases e - w
  {
    if w < coord.x {
      SpanReachable(f0, seed, coord, w + 1, e);
      ReachableStep(f0, seed, Coord(w + 1, coord.y), Coord(w, coord.y));
    } else if coord.x < e {
      SpanReachable(f0, seed, coord, w, e - 1);
      ReachableStep(f0, seed, Coord(e - 1, coord.y), Coord(e, coord.y));
    }
  }

  /**
   * Clearing a maximal span through the dequeued coordinate and queueing its
   * vertical foreground neighbours keeps the flood invariant.
   */
  lemma FloodStep(f0: set<Coord>, seed: Coord, consumed: set<Coord>, q: seq<Coord>,
                  w: int, e: int, found: seq<Coord>)
    requires FloodInv(f0, seed, consumed, q) && |q| > 0
    requires MaximalSpan(f0 - consumed, w, e, q[0])
    requires QueuesNeighbours(f0 - consumed, w, e, q[0].y, found)
    ensures FloodInv(f0, seed, consumed + Span(w, e, q[0].y), q[1..] + found)
    ensures FloodProgress(f0, consumed, q, consumed + Span(w, e, q[0].y), q[1..] + found)
  {
    var coord, row := q[0], q[0].y;
    var span := Span(w, e, row);
    var consumed', q' := consumed + span, q[1..] + found;
    assert coord in span;
    assert consumed' <= f0 && consumed' <= Component(f0, seed) by {
      SpanReachable(f0, seed, coord, w, e);
      SpanStepReach(f0, seed, consumed, w, e, row, found);
    }
    assert forall k :: 0 <= k < |q'| ==> q'[k] in Component(f0, seed) by {
      SpanReachable(f0, seed, coord, w, e);
      SpanStepReach(f0, seed, consumed, w, e, row, found);
      QueueStepIn(Component(f0, seed), q, found);
    }
    assert RowClosed(f0, consumed') by {
      SpanStepRows(f0, consumed, w, e, row);
    }
    assert ColumnsQueued(f0, consumed', q') by {
      SpanStepColumns(f0, consumed, q, w, e, found);
    }
    assert seed in consumed' || seed in q' by {
      if seed !in consumed && seed != coord {
        assert seed in q[1..];
      }
    }
    assert FloodProgress(f0, consumed, q, consumed', q') by {
      forall k | 0 <= k < |found|
        ensures found[k] in f0 - consumed'
      {
        assert found[k].y != row;
      }
      FloodMeasure(f0, consumed, q, span, found);
    }
  }

  lemma SpanStepReach(f0: set<Coord>, seed: Coord, consumed: set<Coord>,
                      w: int, e: int, row: int, found: seq<Coord>)
    requires forall i :: w <= i <= e ==> Coord(i, row) in f0 && Reachable(f0, seed, Coord(i, row))
    requires QueuesNeighbours(f0 - consumed, w, e, row, found)
    ensures Span(w, e, row) <= Component(f0, seed)
    ensures forall k :: 0 <= k < |found| ==> found[k] in Component(f0, seed)
  {
    forall k | 0 <= k < |found|
      ensures Reachable(f0, seed, found[k])
    {
      var d := found[k];
      ReachableStep(f0, seed, Coord(d.x, row), d);
    }
  }

  /** Dequeuing one coordinate and queueing `found` keeps every queued cell in r. */
  lemma QueueStepIn(r: set<Coord>, q: seq<Coord>, found: seq<Coord>)
    requires |q| > 0
    requires forall k :: 0 <= k < |q| ==> q[k] in r
    requires forall k :: 0 <= k < |found| ==> found[k] in r
    ensures forall k :: 0 <= k < |q[1..] + found| ==> (q[1..] + found)[k] in r
  {
    var q' := q[1..] + found;
    forall k | 0 <= k < |q'|
      ensures q'[k] in r
    {
      if k < |q| - 1 {
        assert q'[k] == q[k + 1];
      } else {
        assert q'[k] == found[k - (|q| - 1)];
      }
    }
  }

  lemma SpanStepRows(f0: set<Coord>, consumed: set<Coord>, w: int, e: int, row: int)
    requires RowClosed(f0, consumed)
    requires West(Coord(w, row)) !in f0 - consumed
    requires East(Coord(e, row)) !in f0 - consumed
    ensures RowClosed(f0, consumed + Span(w, e, row))
  {
    var span := Span(w, e, row);
    forall c | c in consumed + span
      ensures West(c) in f0 ==> West(c) in consumed + span
      ensures East(c) in f0 ==> East(c) in consumed + span
    {
      if c in span && c !in consumed {
        if c.x > w {
          assert West(c) in span;
        }
        if c.x < e {
          assert East(c) in span;
        }
      }
    }
  }

  lemma SpanStepColumns(f0: set<Coord>, consumed: set<Coord>, q: seq<Coord>,
                        w: int, e: int, found: seq<Coord>)
    requires ColumnsQueued(f0, consumed, q) && |q| > 0 && w <= q[0].x <= e
    requires QueuesNeighbours(f0 - consumed, w, e, q[0].y, found)
    ensures ColumnsQueued(f0, consumed + Span(w, e, q[0].y), q[1..] + found)
  {
    var row := q[0].y;
    var span := Span(w, e, row);
    assert q[0] in span;
    forall c | c in consumed + span
      ensures North(c) in f0 && North(c) !in consumed + span ==> North(c) in q[1..] + found
      ensures South(c) in f0 && South(c) !in consumed + span ==> South(c) in q[1..] + found
    {
      if c in consumed {
        if North(c) in f0 && North(c) !in consumed + span {
          assert North(c) in q && North(c) != q[0];
        }
        if South(c) in f0 && South(c) !in consumed + span {
          assert South(c) in q && South(c) != q[0];
        }
      } else {
        assert c == Coord(c.x, row) && w <= c.x <= e;
      }
    }
  }

  /** When the queue is empty the consumed cells are exactly the seed's component. */
  lemma FloodComplete(f0: set<Coord>, seed: Coord, consumed: set<Coord>)
    requires FloodInv(f0, seed, consumed, [])
    ensures consumed == Component(f0, seed)
  {
    assert Closed(f0, consumed);
    ClosedContainsComponent(f0, consumed, seed);
  }

  /** How many queued coordinates name a cell that is already consumed. */
  function StaleCount(q: seq<Coord>, consumed: set<Coord>): nat {
    if |q| == 0 then 0 else (if q[0] in consumed then 1 else 0) + StaleCount(q[1..], consumed)
  }

  lemma {:induction false} StaleCountFresh(r: seq<Coord>, consumed: set<Coord>)
    requires forall k :: 0 <= k < |r| ==> r[k] !in consumed
    ensures StaleCount(r, consumed) == 0
  {
    if |r| > 0 {
      StaleCountFresh(r[1..], consumed);
    }
  }

  lemma {:induction false} StaleCountAppend(q: seq<Coord>, r: seq<Coord>, consumed: set<Coord>)
    requires forall k :: 0 <= k < |r| ==> r[k] !in consumed
    ensures StaleCount(q + r, consumed) == StaleCount(q, consumed)
  {
    if |q| == 0 {
      StaleCountFresh(r, consumed);
      assert q + r == r;
    } else {
      assert (q + r)[1..] == q[1..] + r;
      StaleCountAppend(q[1..], r, consumed);
    }
  }

  /**
   * The termination measure of the fill, ordered lexicographically: unconsumed
   * foreground cells, then stale queue entries.
   */
  ghost predicate FloodProgress(f0: set<Coord>, consumed: set<Coord>, q: seq<Coord>,
                                consumed': set<Coord>, q': seq<Coord>) {
    || |f0 - consumed'| < |f0 - consumed|
    || (|f0 - consumed'| == |f0 - consumed| && StaleCount(q', consumed') < StaleCount(q, consumed))
  }

  /**
   * Each round of the fill either consumes a new cell, or consumes nothing
   * and drops a stale coordinate from the queue (the queued cells it adds
   * are foreground, so not stale).
   */
  lemma FloodMeasure(f0: set<Coord>, consumed: set<Coord>, q: seq<Coord>, span: set<Coord>, found: seq<Coord>)
    requires |q| > 0 && consumed <= f0 && span <= f0 && q[0] in span
    requires forall k :: 0 <= k < |found| ==> found[k] in f0 - (consumed + span)
    ensures FloodProgress(f0, consumed, q, consumed + span, q[1..] + found)
  {
    var consumed' := consumed + span;
    if consumed' == consumed {
      StaleCountAppend(q[1..], found, consumed);
    } else {
      var c :| c in span && c !in consumed;
      assert f0 - consumed' <= (f0 - consumed) - {c};
      SubsetCard(f0 - consumed', (f0 - consumed) - {c});
    }
  }
}
