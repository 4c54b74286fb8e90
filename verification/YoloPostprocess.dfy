/** The whole of YOLOv5 postprocessing: decode the tensor, then suppress overlapping boxes. */
module YoloPostprocess {
  import opened Boxes
  import opened YoloDecode
  import Nms

  const IOU_THRESHOLD := 0.50

  ghost function Candidates(m: Model, data: seq<real>, modelW: nat, modelH: nat): seq<Box>
    requires RowsBefore(modelW, modelH, |Scales()|) <= |Tensor(m, data)|
  {
    Decode(m, Tensor(m, data)[..RowsBefore(modelW, modelH, |Scales()|)])
  }

  /** More than half of the pixels that either box covers are common to both. */
  ghost predicate HalfShared(a: Box, b: Box) {
    2 * |Pixels(a) * Pixels(b)| > |Pixels(a) + Pixels(b)|
  }

  lemma HalfIsRule(a: Box, b: Box)
    ensures Nms.Overlaps(Nms.Rule(IOU_THRESHOLD, false), a, b) <==> HalfShared(a, b)
  {
    Nms.OverlapsExactly(Nms.Rule(IOU_THRESHOLD, false), a, b);
  }

  /** The box is published, or one of at least its score is that shares more than half with it. */
  ghost predicate Shown(detections: seq<Box>, b: Box) {
    b in detections || exists d :: d in detections && HalfShared(d, b) && d.score >= b.score
  }

  /** No two published boxes share more than half, and their scores fall. */
  ghost predicate HalfApart(detections: seq<Box>) {
    forall i, j :: 0 <= i < j < |detections| ==>
      !HalfShared(detections[i], detections[j]) && detections[i].score >= detections[j].score
  }

  /** What suppression leaves of some candidates. */
  ghost predicate Suppressed(candidates: seq<Box>, out: seq<Box>) {
    var rule := Nms.Rule(IOU_THRESHOLD, false);
    && multiset(out) <= multiset(candidates)
    && Nms.Apart(rule, out) && Nms.Descending(out)
    && forall b :: b in candidates ==> b in out || Nms.Covered(rule, out, b)
  }

  lemma SuppressedInPixels(candidates: seq<Box>, out: seq<Box>)
    requires Suppressed(candidates, out)
    ensures HalfApart(out) && forall b :: b in candidates ==> Shown(out, b)
  {
    var rule := Nms.Rule(IOU_THRESHOLD, false);
    forall i, j | 0 <= i < j < |out| ensures !HalfShared(out[i], out[j]) {
      HalfIsRule(out[i], out[j]);
    }
    forall b | b in candidates ensures Shown(out, b) {
      if b !in out {
        var a :| 0 <= a < |out| && out[a].score >= b.score && Nms.Overlaps(rule, out[a], b);
        HalfIsRule(out[a], b);
      }
    }
  }

  /** `row` is one of the first `n` rows, and both its box and some class are confident enough. */
  ghost predicate Confident(m: Model, tensor: seq<seq<real>>, n: nat, row: nat)
    requires Wide(m, tensor) && n <= |tensor|
  {
    row < n && tensor[row][4] >= 0.40 && exists k :: 5 <= k < |tensor[row]| && tensor[row][k] >= 0.20
  }

  /** A box is a candidate if and only if it is that of a confident row. */
  lemma CandidatesExactly(m: Model, data: seq<real>, modelW: nat, modelH: nat, b: Box)
    requires RowsBefore(modelW, modelH, |Scales()|) <= |Tensor(m, data)|
    ensures b in Candidates(m, data, modelW, modelH) <==>
            exists row: nat :: Confident(m, Tensor(m, data), RowsBefore(modelW, modelH, |Scales()|), row) &&
                               b == BoxOf(m, Tensor(m, data)[row])
  {
    var tensor, n := Tensor(m, data), RowsBefore(modelW, modelH, |Scales()|);
    var picks := DecodeExactly(m, tensor[..n]);
    forall row: nat | row < n ensures Confident(m, tensor, n, row) <==> row in picks {
      PassesExactly(m, tensor[row]);
    }
    if b in Candidates(m, data, modelW, modelH) {
      var i :| 0 <= i < |picks| && Candidates(m, data, modelW, modelH)[i] == b;
      assert Confident(m, tensor, n, picks[i]);
    }
    if row: nat :| Confident(m, tensor, n, row) && b == BoxOf(m, tensor[row]) {
      var i :| 0 <= i < |picks| && picks[i] == row;
      assert Candidates(m, data, modelW, modelH)[i] == b;
    }
  }

  lemma EveryConfidentRowShown(m: Model, data: seq<real>, modelW: nat, modelH: nat, detections: seq<Box>)
    requires RowsBefore(modelW, modelH, |Scales()|) <= |Tensor(m, data)|
    requires Suppressed(Candidates(m, data, modelW, modelH), detections)
    ensures forall row: nat :: Confident(m, Tensor(m, data), RowsBefore(modelW, modelH, |Scales()|), row) ==>
              Shown(detections, BoxOf(m, Tensor(m, data)[row]))
  {
    SuppressedInPixels(Candidates(m, data, modelW, modelH), detections);
    forall row: nat | Confident(m, Tensor(m, data), RowsBefore(modelW, modelH, |Scales()|), row)
      ensures Shown(detections, BoxOf(m, Tensor(m, data)[row]))
    {
      CandidatesExactly(m, data, modelW, modelH, BoxOf(m, Tensor(m, data)[row]));
    }
  }

  /**
   * What is published, in terms of the tensor and of pixels: boxes of confident rows, no
   * two sharing more than half of what they cover, by falling score; and the box of every
   * confident row is published, or shares more than half with a published one of at least
   * its score.
   */
  method Postprocess(m: Model, data: seq<real>, modelW: nat, modelH: nat) returns (detections: seq<Box>)
    requires RowsBefore(modelW, modelH, |Scales()|) <= |Tensor(m, data)|
    ensures multiset(detections) <= multiset(Candidates(m, data, modelW, modelH))
    ensures HalfApart(detections)
    ensures forall row: nat :: Confident(m, Tensor(m, data), RowsBefore(modelW, modelH, |Scales()|), row) ==>
              Shown(detections, BoxOf(m, Tensor(m, data)[row]))
  {
    var bboxList := WalkScales(m, data, modelW, modelH);
    var list := new Box[|bboxList|](i requires 0 <= i < |bboxList| => bboxList[i]);
    assert list[..] == bboxList;
    var rule := Nms.Rule(IOU_THRESHOLD, false);
    detections := Nms.Nms(rule, list, []);
    ghost var sorted := list[..];
    assert detections == Nms.Survivors(rule, sorted);
    Nms.SurvivorsAreTheKernel(rule, sorted);
    forall b | b in bboxList ensures b in detections || Nms.Covered(rule, detections, b) {
      assert b in multiset(sorted);
      var j :| 0 <= j < |sorted| && sorted[j] == b;
    }
    assert Suppressed(bboxList, detections);
    SuppressedInPixels(bboxList, detections);
    EveryConfidentRowShown(m, data, modelW, modelH, detections);
  }
}
