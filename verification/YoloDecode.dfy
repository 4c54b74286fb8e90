/**
 * Decoding the output tensor: three grids, one after the other in memory, each a
 * run of rows of `5 + classes` numbers, of which some become boxes.
 */
module YoloDecode {
  import opened Prelude
  import opened Boxes

  const GRID_CHANNEL := 3
  const BOX_CONFIDENCE := 0.40
  const CLASS_CONFIDENCE := 0.20

  function Scales(): seq<nat> {
    [8, 16, 32]
  }

  /** Classes in the model, and the camera image's width and height. */
  datatype Model = Model(classes: nat, width: int, height: int)

  function RowLength(m: Model): nat {
    m.classes + 5
  }

  /** A cast from a real number drops its fraction. */
  function Truncate(v: real): int {
    if v >= 0.0 then v.Floor else -(-v).Floor
  }

  /** A fraction of the image's side, in pixels. */
  function Scaled(fraction: real, side: int): int {
    Truncate(fraction * side as real)
  }

  /** The original's integer halving, which rounds towards zero. */
  function Half(v: int): int {
    if v >= 0 then v / 2 else -(-v / 2)
  }

  // ---------------------------------------------------------------------------
  // One row

  /** The class that wins, and its confidence, scanning from (0, 0.0). */
  function Best(conf: seq<real>): (nat, real) {
    if |conf| == 0 then (0, 0.0)
    else
      var n := |conf| - 1;
      if conf[n] > Best(conf[..n]).1 then (n, conf[n]) else Best(conf[..n])
  }

  function Row(m: Model, data: seq<real>, index: nat): seq<real>
    requires index + RowLength(m) <= |data|
  {
    data[index..index + RowLength(m)]
  }

  predicate Passes(row: seq<real>)
    requires |row| >= 5
  {
    row[4] >= BOX_CONFIDENCE && Best(row[5..]).1 >= CLASS_CONFIDENCE
  }

  /** The box of a row; `classConf` is what the class scan read last. */
  function BoxOf(m: Model, row: seq<real>): Box
    requires |row| == RowLength(m)
  {
    var best := Best(row[5..]);
    var w := Scaled(row[2], m.width);
    var h := Scaled(row[3], m.height);
    Box(best.0, if m.classes == 0 then 0.0 else row[|row| - 1], row[4], best.1,
        Scaled(row[0], m.width) - Half(w), Scaled(row[1], m.height) - Half(h), w, h)
  }

  /** The winner is the first of the greatest confidences, if any is above zero. */
  lemma {:induction false} BestIsFirstGreatest(conf: seq<real>)
    ensures var (id, c) := Best(conf);
            && (forall k :: 0 <= k < |conf| ==> conf[k] <= c)
            && c >= 0.0
            && (c > 0.0 ==> id < |conf| && conf[id] == c && forall k :: 0 <= k < id ==> conf[k] < c)
            && (c == 0.0 ==> id == 0)
  {
    if |conf| > 0 {
      var init := conf[..|conf| - 1];
      BestIsFirstGreatest(init);
      assert forall k :: 0 <= k < |init| ==> conf[k] == init[k];
    }
  }

  /** A row becomes a box if and only if its box and some class are confident enough. */
  lemma PassesExactly(m: Model, row: seq<real>)
    requires |row| == RowLength(m)
    ensures Passes(row) <==> row[4] >= 0.40 && exists k :: 5 <= k < |row| && row[k] >= 0.20
    ensures Passes(row) ==>
              var id := BoxOf(m, row).classId;
              && 0 <= id < m.classes
              && BoxOf(m, row).score == row[5 + id] && BoxOf(m, row).detectionConf == row[4]
              && (forall k :: 5 <= k < |row| ==> row[k] <= row[5 + id])
              && (forall k :: 5 <= k < 5 + id ==> row[k] < row[5 + id])
  {
    var conf := row[5..];
    BestIsFirstGreatest(conf);
    forall k | 5 <= k < |row|
      ensures row[k] <= Best(conf).1 && (k < 5 + Best(conf).0 && Best(conf).1 > 0.0 ==> row[k] < Best(conf).1)
    {
      assert conf[k - 5] == row[k];
    }
    if k :| 5 <= k < |row| && row[k] >= CLASS_CONFIDENCE {
      assert conf[k - 5] == row[k];
    }
    if Passes(row) {
      assert row[5 + Best(conf).0] >= CLASS_CONFIDENCE;
    }
  }

  /** What the box calls its class confidence is that of its class if and only if the last class wins or ties. */
  lemma ClassConfidenceExactly(m: Model, row: seq<real>)
    requires |row| == RowLength(m) && Passes(row)
    ensures 0 <= BoxOf(m, row).classId < m.classes
    ensures BoxOf(m, row).classConf == row[5 + BoxOf(m, row).classId] <==>
            forall k :: 5 <= k < |row| ==> row[k] <= row[|row| - 1]
  {
    PassesExactly(m, row);
  }

  /** `t` is `v` with its fraction dropped. */
  ghost predicate IsWholePart(t: int, v: real) {
    if v >= 0.0 then t as real <= v < t as real + 1.0 && t >= 0 else t as real - 1.0 < v <= t as real && t <= 0
  }

  /** `t` is the given fraction of the image's side, in whole pixels. */
  ghost predicate IsScaled(t: int, fraction: real, side: int) {
    IsWholePart(t, fraction * side as real)
  }

  /**
   * The corner lies half the size before the centre, up to half a pixel; centre and size
   * are fractions of the image.
   */
  lemma BoxIsCentred(m: Model, row: seq<real>) returns (cx: int, cy: int)
    requires |row| == RowLength(m)
    ensures IsScaled(cx, row[0], m.width) && IsScaled(cy, row[1], m.height)
    ensures IsScaled(BoxOf(m, row).w, row[2], m.width) && IsScaled(BoxOf(m, row).h, row[3], m.height)
    ensures -1 <= 2 * BoxOf(m, row).x + BoxOf(m, row).w - 2 * cx <= 1
    ensures -1 <= 2 * BoxOf(m, row).y + BoxOf(m, row).h - 2 * cy <= 1
  {
    cx, cy := Scaled(row[0], m.width), Scaled(row[1], m.height);
  }

  method ScanClasses(m: Model, data: seq<real>, index: nat)
    returns (classId: nat, confidence: real, confidenceOfClass: real)
    requires index + RowLength(m) <= |data|
    ensures (classId, confidence) == Best(Row(m, data, index)[5..])
    ensures confidenceOfClass == if m.classes == 0 then 0.0 else data[index + RowLength(m) - 1]
  {
    classId, confidence, confidenceOfClass := 0, 0.0, 0.0;
    ghost var conf := Row(m, data, index)[5..];
    for classIndex := 0 to m.classes
      invariant (classId, confidence) == Best(conf[..classIndex])
      invariant confidenceOfClass == if classIndex == 0 then 0.0 else data[index + 5 + classIndex - 1]
    {
      assert conf[..classIndex + 1][..classIndex] == conf[..classIndex];
      confidenceOfClass := data[index + 5 + classIndex];
      if confidenceOfClass > confidence {
        confidence := confidenceOfClass;
        classId := classIndex;
      }
    }
    assert conf[..m.classes] == conf;
  }

  // ---------------------------------------------------------------------------
  // A run of rows

  ghost predicate Wide(m: Model, rows: seq<seq<real>>) {
    forall i :: 0 <= i < |rows| ==> |rows[i]| == RowLength(m)
  }

  /** The boxes of a run of rows. */
  function Decode(m: Model, rows: seq<seq<real>>): seq<Box>
    requires Wide(m, rows)
  {
    if |rows| == 0 then []
    else
      var last := rows[|rows| - 1];
      Decode(m, rows[..|rows| - 1]) + (if Passes(last) then [BoxOf(m, last)] else [])
  }

  /** `picks` lists, in order, exactly the rows that pass. */
  ghost predicate ListsPassing(m: Model, rows: seq<seq<real>>, picks: seq<nat>)
    requires Wide(m, rows)
  {
    && (forall i :: 0 <= i < |picks| ==> picks[i] < |rows|)
    && (forall i, j :: 0 <= i < j < |picks| ==> picks[i] < picks[j])
    && (forall row :: 0 <= row < |rows| ==> (row in picks <==> Passes(rows[row])))
  }

  /** The boxes are those of the rows that pass, one each, in row order. */
  lemma {:induction false} DecodeExactly(m: Model, rows: seq<seq<real>>) returns (picks: seq<nat>)
    requires Wide(m, rows)
    ensures ListsPassing(m, rows, picks)
    ensures |Decode(m, rows)| == |picks|
    ensures forall i :: 0 <= i < |picks| ==> Decode(m, rows)[i] == BoxOf(m, rows[picks[i]])
  {
    picks := [];
    if |rows| > 0 {
      var n := |rows| - 1;
      var fewer := DecodeExactly(m, rows[..n]);
      picks := fewer + if Passes(rows[n]) then [n] else [];
      forall row | 0 <= row < |rows| ensures row in picks <==> Passes(rows[row]) {
        assert row < n ==> rows[..n][row] == rows[row];
      }
    }
  }

  lemma {:induction false} DecodeAppends(m: Model, rows: seq<seq<real>>, more: seq<seq<real>>)
    requires Wide(m, rows) && Wide(m, more)
    ensures Decode(m, rows + more) == Decode(m, rows) + Decode(m, more)
  {
    if more == [] {
      assert rows + more == rows;
    } else {
      var n := |more| - 1;
      DecodeAppends(m, rows, more[..n]);
      assert (rows + more)[..|rows| + n] == rows + more[..n];
    }
  }

  // ---------------------------------------------------------------------------
  // The program

  ghost function Tensor(m: Model, data: seq<real>): (rows: seq<seq<real>>)
    ensures Wide(m, rows)
  {
    Split(RowLength(m), data)
  }

  function GridRows(gridW: nat, gridH: nat): nat {
    gridH * (gridW * GRID_CHANNEL)
  }

  /** What the loops keep: from row `first` on, `row` rows are done, and `index` numbers lie behind. */
  ghost predicate Decoded(
    m: Model, tensor: seq<seq<real>>, first: nat, row: nat, index: nat, bboxList: seq<Box>, out: seq<Box>)
  {
    && Wide(m, tensor)
    && first + row <= |tensor|
    && index == row * RowLength(m)
    && out == bboxList + Decode(m, tensor[first..first + row])
  }

  lemma DecodedStep(
    m: Model, tensor: seq<seq<real>>, first: nat, row: nat, index: nat, bboxList: seq<Box>, out: seq<Box>,
    box: seq<Box>)
    requires Decoded(m, tensor, first, row, index, bboxList, out) && first + row < |tensor|
    requires box == if Passes(tensor[first + row]) then [BoxOf(m, tensor[first + row])] else []
    ensures Decoded(m, tensor, first, row + 1, index + RowLength(m), bboxList, out + box)
  {
    Line(row, RowLength(m));
    var rows := tensor[first..first + row + 1];
    assert rows[..row] == tensor[first..first + row];
  }

  lemma DecodedTwice(
    m: Model, tensor: seq<seq<real>>, first: nat, rows: nat, base: nat, index: nat, done: seq<Box>, out: seq<Box>)
    requires Decoded(m, tensor, 0, first, base, [], done) && Decoded(m, tensor, first, rows, index, done, out)
    ensures Decoded(m, tensor, 0, first + rows, base + index, [], out)
  {
    DecodeAppends(m, tensor[..first], tensor[first..first + rows]);
    assert tensor[..first + rows] == tensor[..first] + tensor[first..first + rows];
    assert (first + rows) * RowLength(m) == first * RowLength(m) + rows * RowLength(m);
  }

  lemma Line(y: nat, perLine: nat)
    ensures (y + 1) * perLine == y * perLine + perLine
  {
  }

  lemma RowInTensor(m: Model, data: seq<real>, first: nat, row: nat, base: nat, index: nat)
    requires first + row < |Tensor(m, data)|
    requires base == first * RowLength(m) && index == row * RowLength(m)
    ensures base + index + RowLength(m) <= |data|
    ensures Tensor(m, data)[first + row] == Row(m, data, base + index)
  {
    SplitAt(RowLength(m), data, first + row);
    assert (first + row) * RowLength(m) == base + index;
  }

  /** One anchor, whose row starts at `at`. */
  method DecodeRow(m: Model, data: seq<real>, at: nat, bboxList: seq<Box>) returns (out: seq<Box>)
    requires at + RowLength(m) <= |data|
    ensures out == bboxList + if Passes(Row(m, data, at)) then [BoxOf(m, Row(m, data, at))] else []
  {
    ghost var row := Row(m, data, at);
    out := bboxList;
    var boxConfidence := data[at + 4];
    if boxConfidence >= BOX_CONFIDENCE {
      var classId, confidence, confidenceOfClass := ScanClasses(m, data, at);
      if confidence >= CLASS_CONFIDENCE {
        var cx := Scaled(data[at], m.width);
        var cy := Scaled(data[at + 1], m.height);
        var w := Scaled(data[at + 2], m.width);
        var h := Scaled(data[at + 3], m.height);
        var box := Box(classId, confidenceOfClass, boxConfidence, confidence, cx - Half(w), cy - Half(h), w, h);
        assert row[0] == data[at] && row[1] == data[at + 1] && row[2] == data[at + 2] && row[3] == data[at + 3];
        assert box == BoxOf(m, row);
        out := bboxList + [box];
      }
    }
  }

  /** `base` is where the tensor pointer stands, `first` how many rows lie before it. */
  method GetBbox(m: Model, data: seq<real>, base: nat, ghost first: nat, gridW: nat, gridH: nat, bboxList: seq<Box>)
    returns (out: seq<Box>, index: nat)
    requires base == first * RowLength(m) && first + GridRows(gridW, gridH) <= |Tensor(m, data)|
    ensures Decoded(m, Tensor(m, data), first, GridRows(gridW, gridH), index, bboxList, out)
  {
    ghost var tensor, perLine := Tensor(m, data), gridW * GRID_CHANNEL;
    out, index := bboxList, 0;
    ghost var row := 0;
    for gridY := 0 to gridH
      invariant row == gridY * perLine && Decoded(m, tensor, first, row, index, bboxList, out)
    {
      MulStep(gridY, gridH, perLine);
      ghost var lineStart := row;
      for gridX := 0 to gridW
        invariant row == lineStart + gridX * GRID_CHANNEL && Decoded(m, tensor, first, row, index, bboxList, out)
      {
        for gridC := 0 to GRID_CHANNEL
          invariant row == lineStart + gridX * GRID_CHANNEL + gridC
          invariant Decoded(m, tensor, first, row, index, bboxList, out)
        {
          RowInTensor(m, data, first, row, base, index);
          var before := out;
          out := DecodeRow(m, data, base + index, before);
          DecodedStep(m, tensor, first, row, index, bboxList, before, out[|before|..]);
          index := index + RowLength(m);
          row := row + 1;
        }
      }
      Line(gridY, perLine);
    }
  }

  /** The pointer advance made after a call is the index that call ended with. */
  lemma AdvanceIsLastIndex(m: Model, gridW: nat, gridH: nat)
    ensures gridW * gridH * GRID_CHANNEL * RowLength(m) == GridRows(gridW, gridH) * RowLength(m)
  {
    assert gridW * gridH * GRID_CHANNEL == GridRows(gridW, gridH);
  }

  /** Rows of the first `k` grids. */
  function RowsBefore(modelW: nat, modelH: nat, k: nat): nat
    requires k <= |Scales()|
  {
    if k == 0 then 0
    else RowsBefore(modelW, modelH, k - 1) + GridRows(modelW / Scales()[k - 1], modelH / Scales()[k - 1])
  }

  /**
   * For sides that are multiples of 32 the three grids have three rows for each cell of 8,
   * 16 and 32 pixels: sixteen fine cells, four middle ones and a coarse one for every 32 by 32.
   */
  lemma RowsInAll(modelW: nat, modelH: nat)
    requires modelW % 32 == 0 && modelH % 32 == 0
    ensures RowsBefore(modelW, modelH, |Scales()|) == 63 * ((modelW / 32) * (modelH / 32))
  {
    var w, h := modelW / 32, modelH / 32;
    assert Scales() == [8, 16, 32];
    assert modelW == 32 * w && modelH == 32 * h;
    assert RowsBefore(modelW, modelH, 1) == GridRows(4 * w, 4 * h);
    assert RowsBefore(modelW, modelH, 2) == GridRows(4 * w, 4 * h) + GridRows(2 * w, 2 * h);
    Cells(w, h, 4);
    Cells(w, h, 2);
    Cells(w, h, 1);
  }

  lemma Cells(w: nat, h: nat, k: nat)
    ensures GridRows(k * w, k * h) == 3 * (k * k) * (w * h)
  {
    assert k * h * (k * w * 3) == 3 * (k * k) * (w * h);
  }

  lemma {:induction false} RowsGrow(modelW: nat, modelH: nat, k: nat, l: nat)
    requires k <= l <= |Scales()|
    ensures RowsBefore(modelW, modelH, k) <= RowsBefore(modelW, modelH, l)
  {
    if k < l {
      RowsGrow(modelW, modelH, k, l - 1);
    }
  }

  /**
   * The walk over the three scales decodes the rows of the tensor from the first one
   * on, each exactly once and without a gap.
   */
  method WalkScales(m: Model, data: seq<real>, modelW: nat, modelH: nat) returns (bboxList: seq<Box>)
    requires RowsBefore(modelW, modelH, |Scales()|) <= |Tensor(m, data)|
    ensures bboxList == Decode(m, Tensor(m, data)[..RowsBefore(modelW, modelH, |Scales()|)])
  {
    bboxList := [];
    var outputTensor: nat := 0;
    ghost var first := 0;
    for k := 0 to |Scales()|
      invariant first == RowsBefore(modelW, modelH, k)
      invariant Decoded(m, Tensor(m, data), 0, first, outputTensor, [], bboxList)
    {
      var gridW, gridH := modelW / Scales()[k], modelH / Scales()[k];
      ghost var rows := GridRows(gridW, gridH);
      RowsGrow(modelW, modelH, k + 1, |Scales()|);
      ghost var done := bboxList;
      var index;
      bboxList, index := GetBbox(m, data, outputTensor, first, gridW, gridH, bboxList);
      DecodedTwice(m, Tensor(m, data), first, rows, outputTensor, index, done, bboxList);
      AdvanceIsLastIndex(m, gridW, gridH);
      outputTensor := outputTensor + gridW * gridH * GRID_CHANNEL * RowLength(m);
      first := first + rows;
    }
  }
}
