/**
 * Reading one digit off the segments of a cluster (IdentifyNumber) and
 * putting the readings of all clusters together into the displayed text.
 *
 * The rules look only at how many segments a cluster has and, for five or
 * six segments, at which of them are vertical (taller than wide) and where
 * their centroids lie. The five-segment rule indexes the first and the
 * second vertical segment without checking that they exist; with fewer
 * than two verticals that fault is the value OutOfRange here, and it ends
 * the assembly of the text.
 */
module Classifier {
  import opened Components
  import opened Clustering

  /** What the rules use of a component. */
  datatype Part = Part(centX: int, centY: int, width: int, height: int, cluster: int)

  function Snapshot(c: ConnComp): Part
    reads c
  {
    Part(c.centX, c.centY, c.width, c.height, c.cluster)
  }

  function Snapshots(comps: seq<ConnComp>): (ps: seq<Part>)
    reads comps
    ensures |ps| == |comps|
  {
    seq(|comps|, i reads comps requires 0 <= i < |comps| => Snapshot(comps[i]))
  }

  /** Snapshots distributes over appending one component. */
  lemma SnapshotsAppend(comps: seq<ConnComp>, c: ConnComp)
    ensures Snapshots(comps + [c]) == Snapshots(comps) + [Snapshot(c)]
  {
    assert forall i :: 0 <= i < |comps| ==> (comps + [c])[i] == comps[i];
  }

  /** The text given for a cluster whose number of segments fits no digit. */
  const FailureMarker := "failed to ID digit"

  /** A segment taller than it is wide is vertical; a square one is not. */
  predicate IsVertical(p: Part) {
    p.height > p.width
  }

  /** The vertical segments, in their original order. */
  function Verticals(parts: seq<Part>): (vs: seq<Part>)
    ensures |vs| <= |parts|
    ensures forall i :: 0 <= i < |vs| ==> IsVertical(vs[i]) && vs[i] in parts
  {
    if |parts| == 0 then []
    else
      var n := |parts| - 1;
      var init := Verticals(parts[..n]);
      assert forall i :: 0 <= i < |init| ==> init[i] in parts[..n];
      if IsVertical(parts[n]) then init + [parts[n]] else init
  }

  /** No vertical segment is dropped. */
  lemma {:induction false} VerticalsComplete(parts: seq<Part>, i: int)
    requires 0 <= i < |parts| && IsVertical(parts[i])
    ensures parts[i] in Verticals(parts)
  {
    var n := |parts| - 1;
    if i < n {
      VerticalsComplete(parts[..n], i);
    }
  }

  /**
   * The x centroid the five-segment rule compares the verticals with: that
   * of the last non-vertical segment, or 0 (a fresh component's) when all
   * segments are vertical.
   */
  function HorizontalCentX(parts: seq<Part>): int
  {
    if |parts| == 0 then 0
    else if !IsVertical(parts[|parts| - 1]) then parts[|parts| - 1].centX
    else HorizontalCentX(parts[..|parts| - 1])
  }

  /** HorizontalCentX is taken from the LAST non-vertical segment, and is 0 when there is none. */
  lemma {:induction false} HorizontalIsLast(parts: seq<Part>)
    ensures (forall i :: 0 <= i < |parts| ==> IsVertical(parts[i])) ==> HorizontalCentX(parts) == 0
    ensures (exists i :: 0 <= i < |parts| && !IsVertical(parts[i])) ==>
      exists i :: 0 <= i < |parts| && !IsVertical(parts[i]) && HorizontalCentX(parts) == parts[i].centX &&
        forall j :: i < j < |parts| ==> IsVertical(parts[j])
  {
    if |parts| > 0 && IsVertical(parts[|parts| - 1]) {
      var n := |parts| - 1;
      HorizontalIsLast(parts[..n]);
      assert forall i :: 0 <= i < n ==> parts[..n][i] == parts[i];
    }
  }

  /** How many of the segments have their centroid strictly right of x. */
  function CountRightOf(vs: seq<Part>, x: int): (n: nat)
    ensures n <= |vs|
  {
    if |vs| == 0 then 0
    else CountRightOf(vs[..|vs| - 1], x) + (if vs[|vs| - 1].centX > x then 1 else 0)
  }

  /** a and b lie on a rising or a falling diagonal of each other (strictly in both axes). */
  predicate Diagonal(a: Part, b: Part) {
    (a.centX > b.centX && a.centY > b.centY) || (a.centX < b.centX && a.centY < b.centY)
  }

  /** What IdentifyNumber gives: a text, or the fault of indexing a missing vertical. */
  datatype Answer = Answer(text: string) | OutOfRange

  /** The rule for five segments: 9, 3, 5 or 2. */
  function FivePartDigit(parts: seq<Part>): Answer
  {
    var vs := Verticals(parts);
    if |vs| == 3 then Answer("9")
    else if CountRightOf(vs, HorizontalCentX(parts)) == 2 then Answer("3")
    else if |vs| < 2 then OutOfRange
    else if Diagonal(vs[0], vs[1]) then Answer("5")
    else Answer("2")
  }

  /** The digit a cluster of segments shows, by the number of its segments. */
  function Identify(parts: seq<Part>): Answer
  {
    if |parts| == 2 then Answer("1")
    else if |parts| == 3 then Answer("7")
    else if |parts| == 4 then Answer("4")
    else if |parts| == 5 then FivePartDigit(parts)
    else if |parts| == 6 then (if |Verticals(parts)| == 4 then Answer("0") else Answer("6"))
    else if |parts| == 7 then Answer("8")
    else Answer(FailureMarker)
  }

  /** A single decimal digit. */
  predicate IsDigit(s: string) {
    |s| == 1 && '0' <= s[0] <= '9'
  }

  /** A cluster the rules read as a digit: two to seven segments, and two verticals when five. */
  predicate Readable(parts: seq<Part>) {
    2 <= |parts| <= 7 && (|parts| == 5 ==> |Verticals(parts)| >= 2)
  }

  /**
   * Which answer goes with which segment count: each digit other than those
   * of the five-segment rule in both directions, the fault, and the marker.
   */
  lemma IdentifyByCount(parts: seq<Part>)
    ensures Identify(parts) == Answer("1") <==> |parts| == 2
    ensures Identify(parts) == Answer("7") <==> |parts| == 3
    ensures Identify(parts) == Answer("4") <==> |parts| == 4
    ensures Identify(parts) == Answer("8") <==> |parts| == 7
    ensures Identify(parts) == Answer("9") <==> |parts| == 5 && |Verticals(parts)| == 3
    ensures Identify(parts) == Answer("0") <==> |parts| == 6 && |Verticals(parts)| == 4
    ensures Identify(parts) == Answer("6") <==> |parts| == 6 && |Verticals(parts)| != 4
    ensures Identify(parts) == OutOfRange <==> |parts| == 5 && |Verticals(parts)| < 2
    ensures Identify(parts) == Answer(FailureMarker) <==> !(2 <= |parts| <= 7)
  {
    if |parts| == 5 {
      var vs := Verticals(parts);
      assert |vs| < 2 ==> CountRightOf(vs, HorizontalCentX(parts)) < 2;
      assert Identify(parts) in {Answer("9"), Answer("3"), Answer("5"), Answer("2"), OutOfRange};
    }
  }

  /**
   * The five-segment digits other than 9: 3 when exactly two verticals lie
   * right of the horizontal segment, otherwise 5 or 2 by the diagonal of the
   * first two verticals.
   */
  lemma FivePartCases(parts: seq<Part>)
    requires |parts| == 5
    ensures var vs := Verticals(parts);
      && (Identify(parts) == Answer("3") <==> |vs| != 3 && CountRightOf(vs, HorizontalCentX(parts)) == 2)
      && (Identify(parts) == Answer("5") <==>
            2 <= |vs| != 3 && CountRightOf(vs, HorizontalCentX(parts)) != 2 && Diagonal(vs[0], vs[1]))
      && (Identify(parts) == Answer("2") <==>
            2 <= |vs| != 3 && CountRightOf(vs, HorizontalCentX(parts)) != 2 && !Diagonal(vs[0], vs[1]))
  {
  }

  /** The rules read a digit exactly from the readable clusters; otherwise the marker or the fault. */
  lemma IdentifyDigit(parts: seq<Part>)
    ensures Identify(parts).Answer? && IsDigit(Identify(parts).text) <==> Readable(parts)
    ensures !Readable(parts) ==> Identify(parts) in {Answer(FailureMarker), OutOfRange}
  {
    IdentifyByCount(parts);
    assert |FailureMarker| == 18;
  }

  /**
   * The vertical segments and the last non-vertical one (a fresh component
   * when there is none), as the five-segment case's first loop finds them.
   */
  method SplitParts(parts: seq<ConnComp>) returns (vertComp: seq<ConnComp>, horComp: ConnComp)
    ensures Snapshots(vertComp) == Verticals(Snapshots(parts))
    ensures horComp.centX == HorizontalCentX(Snapshots(parts))
  {
    vertComp := [];
    horComp := new ConnComp();
    ghost var ps := Snapshots(parts);
    for i := 0 to |parts|
      invariant Snapshots(vertComp) == Verticals(ps[..i])
      invariant horComp.centX == HorizontalCentX(ps[..i])
    {
      assert ps[..i + 1][..i] == ps[..i] && ps[i] == Snapshot(parts[i]);
      if parts[i].height > parts[i].width {
        SnapshotsAppend(vertComp, parts[i]);
        vertComp := vertComp + [parts[i]];
      } else {
        horComp := parts[i];
      }
    }
    assert ps[..|parts|] == ps;
  }

  /** How many of the segments have their centroid strictly right of x, by a counting loop. */
  method RightOf(vertComp: seq<ConnComp>, x: int) returns (rightVertCount: int)
    ensures rightVertCount == CountRightOf(Snapshots(vertComp), x)
  {
    ghost var vs := Snapshots(vertComp);
    rightVertCount := 0;
    for j := 0 to |vertComp|
      invariant rightVertCount == CountRightOf(vs[..j], x)
    {
      assert vs[..j + 1][..j] == vs[..j];
      if vertComp[j].centX > x {
        rightVertCount := rightVertCount + 1;
      }
    }
    assert vs[..|vertComp|] == vs;
  }

  /** The six-segment case's loop: the vertical segments, in order. */
  method VerticalParts(parts: seq<ConnComp>) returns (vertiComp: seq<ConnComp>)
    ensures Snapshots(vertiComp) == Verticals(Snapshots(parts))
  {
    vertiComp := [];
    ghost var ps := Snapshots(parts);
    for i := 0 to |parts|
      invariant Snapshots(vertiComp) == Verticals(ps[..i])
    {
      assert ps[..i + 1][..i] == ps[..i] && ps[i] == Snapshot(parts[i]);
      if parts[i].height > parts[i].width {
        SnapshotsAppend(vertiComp, parts[i]);
        vertiComp := vertiComp + [parts[i]];
      }
    }
    assert ps[..|parts|] == ps;
  }

  /** IdentifyNumber: the switch on the number of segments. */
  method IdentifyNumber(parts: seq<ConnComp>) returns (r: Answer)
    ensures r == Identify(Snapshots(parts))
  {
    if |parts| == 2 {
      r := Answer("1");
    } else if |parts| == 3 {
      r := Answer("7");
    } else if |parts| == 4 {
      r := Answer("4");
    } else if |parts| == 5 {
      var vertComp, horComp := SplitParts(parts);
      ghost var vs := Snapshots(vertComp);
      if |vertComp| == 3 {
        r := Answer("9");
      } else {
        var rightVertCount := RightOf(vertComp, horComp.centX);
        if rightVertCount == 2 {
          r := Answer("3");
        } else if |vertComp| < 2 {
          r := OutOfRange;
        } else if (vertComp[0].centX > vertComp[1].centX && vertComp[0].centY > vertComp[1].centY)
               || (vertComp[0].centX < vertComp[1].centX && vertComp[0].centY < vertComp[1].centY) {
          assert vs[0] == Snapshot(vertComp[0]) && vs[1] == Snapshot(vertComp[1]);
          r := Answer("5");
        } else {
          assert vs[0] == Snapshot(vertComp[0]) && vs[1] == Snapshot(vertComp[1]);
          r := Answer("2");
        }
      }
    } else if |parts| == 6 {
      var vertiComp := VerticalParts(parts);
      if |vertiComp| == 4 {
        r := Answer("0");
      } else {
        r := Answer("6");
      }
    } else if |parts| == 7 {
      r := Answer("8");
    } else {
      r := Answer(FailureMarker);
    }
  }

  /** The segments of cluster c, in component order. */
  function InCluster(parts: seq<Part>, c: int): (ps: seq<Part>)
    ensures |ps| <= |parts|
    ensures forall i :: 0 <= i < |ps| ==> ps[i].cluster == c && ps[i] in parts
  {
    if |parts| == 0 then []
    else
      var n := |parts| - 1;
      var init := InCluster(parts[..n], c);
      assert forall i :: 0 <= i < |init| ==> init[i] in parts[..n];
      if parts[n].cluster == c then init + [parts[n]] else init
  }

  /** No segment of cluster c is dropped. */
  lemma {:induction false} InClusterComplete(parts: seq<Part>, i: int)
    requires 0 <= i < |parts|
    ensures parts[i] in InCluster(parts, parts[i].cluster)
  {
    var n := |parts| - 1;
    if i < n {
      InClusterComplete(parts[..n], i);
    }
  }

  /** The readings of clusters 0 .. n - 1, in cluster order. */
  function Readings(parts: seq<Part>, n: nat): (rs: seq<Answer>)
    ensures |rs| == n
  {
    seq(n, c requires 0 <= c < n => Identify(InCluster(parts, c)))
  }

  /** The text so far, and whether every reading so far came without the fault. */
  datatype Transcript = Transcript(text: string, complete: bool)

  /**
   * The readings appended in order up to the first fault, which keeps the
   * text read before it.
   */
  function Transcribe(answers: seq<Answer>): Transcript
  {
    if |answers| == 0 then Transcript("", true)
    else
      var t := Transcribe(answers[..|answers| - 1]);
      if !t.complete then t
      else match answers[|answers| - 1]
        case Answer(s) => Transcript(t.text + s, true)
        case OutOfRange => Transcript(t.text, false)
  }

  /** The transcript is complete exactly when no reading is the fault. */
  lemma {:induction false} TranscribeComplete(answers: seq<Answer>)
    ensures Transcribe(answers).complete <==> forall i :: 0 <= i < |answers| ==> answers[i].Answer?
  {
    if |answers| > 0 {
      var n := |answers| - 1;
      TranscribeComplete(answers[..n]);
      assert forall i :: 0 <= i < n ==> answers[..n][i] == answers[i];
    }
  }

  /** Once a reading faults, later readings change nothing. */
  lemma {:induction false} TranscribeStuck(answers: seq<Answer>, m: nat)
    requires m <= |answers| && !Transcribe(answers[..m]).complete
    ensures Transcribe(answers) == Transcribe(answers[..m])
  {
    if m < |answers| {
      var n := |answers| - 1;
      assert answers[..n][..m] == answers[..m];
      TranscribeStuck(answers[..n], m);
    } else {
      assert answers[..m] == answers;
    }
  }

  /** When every reading is a digit, the text is those digits, in order. */
  lemma {:induction false} TranscribeDigits(answers: seq<Answer>)
    requires forall i :: 0 <= i < |answers| ==> answers[i].Answer? && IsDigit(answers[i].text)
    ensures Transcribe(answers).complete && |Transcribe(answers).text| == |answers|
    ensures forall i :: 0 <= i < |answers| ==> answers[i].text == [Transcribe(answers).text[i]]
  {
    if |answers| > 0 {
      var n := |answers| - 1;
      assert forall i :: 0 <= i < n ==> answers[..n][i] == answers[i];
      TranscribeDigits(answers[..n]);
    }
  }

  /** Readable clusters give digit readings; then the text has one digit per cluster. */
  lemma ReadableDigits(parts: seq<Part>, n: nat)
    requires forall c :: 0 <= c < n ==> Readable(InCluster(parts, c))
    ensures Transcribe(Readings(parts, n)).complete && |Transcribe(Readings(parts, n)).text| == n
    ensures forall c :: 0 <= c < n ==>
      && Identify(InCluster(parts, c)).Answer?
      && Identify(InCluster(parts, c)).text == [Transcribe(Readings(parts, n)).text[c]]
      && IsDigit(Identify(InCluster(parts, c)).text)
  {
    forall c | 0 <= c < n
      ensures Identify(InCluster(parts, c)).Answer? && IsDigit(Identify(InCluster(parts, c)).text)
    {
      IdentifyDigit(InCluster(parts, c));
    }
    TranscribeDigits(Readings(parts, n));
  }

  /** The parts of cluster `iter`, as the assembly loop's inner loop collects them. */
  method CollectCluster(comps: seq<ConnComp>, iter: int) returns (parts: seq<ConnComp>)
    ensures Snapshots(parts) == InCluster(Snapshots(comps), iter)
  {
    ghost var all := Snapshots(comps);
    parts := [];
    for j := 0 to |comps|
      invariant Snapshots(parts) == InCluster(all[..j], iter)
    {
      assert all[..j + 1][..j] == all[..j] && all[j] == Snapshot(comps[j]);
      if comps[j].cluster == iter {
        SnapshotsAppend(parts, comps[j]);
        parts := parts + [comps[j]];
      }
    }
    assert all[..|comps|] == all;
  }

  /**
   * The assembly loop: for each cluster 0 .. K - 1 in turn, read its digit
   * and append it to the text; the fault stops the loop, leaving the text
   * read so far.
   */
  method AssembleText(comps: seq<ConnComp>) returns (text: string, complete: bool)
    ensures Transcript(text, complete) == Transcribe(Readings(Snapshots(comps), K))
  {
    ghost var answers := Readings(Snapshots(comps), K);
    text, complete := "", true;
    for iter := 0 to K
      invariant Readings(Snapshots(comps), K) == answers
      invariant complete && Transcript(text, complete) == Transcribe(answers[..iter])
    {
      var parts := CollectCluster(comps, iter);
      var num := IdentifyNumber(parts);
      assert answers[..iter + 1][..iter] == answers[..iter] && answers[iter] == num;
      if num.OutOfRange? {
        complete := false;
        TranscribeStuck(answers, iter + 1);
        return;
      }
      text := text + num.text;
    }
    assert answers[..K] == answers;
  }
}
