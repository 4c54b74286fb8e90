/** Detection boxes and how much two of them overlap, in exact arithmetic. */
module Boxes {
  import opened Prelude

  datatype Box = Box(classId: int, classConf: real, detectionConf: real, score: real, x: int, y: int, w: int, h: int)

  /** `None` is the not-a-number of a zero area divided by a zero area. */
  function Iou(a: Box, b: Box): Option<real> {
    var x0 := Max(a.x, b.x);
    var y0 := Max(a.y, b.y);
    var x1 := Min(a.x + a.w, b.x + b.w);
    var y1 := Min(a.y + a.h, b.y + b.h);
    if x1 < x0 || y1 < y0 then Some(0.0)
    else
      var areaInter := (x1 - x0) * (y1 - y0);
      var areaSum := a.w * a.h + b.w * b.h - areaInter;
      if areaSum == 0 then None else Some(areaInter as real / areaSum as real)
  }

  // ---------------------------------------------------------------------------
  // The same overlap, counted pixel by pixel

  ghost function Rect(x0: int, y0: int, x1: int, y1: int): set<(int, int)> {
    set px: int, py: int | x0 <= px < x1 && y0 <= py < y1 :: (px, py)
  }

  ghost function Pixels(b: Box): set<(int, int)> {
    Rect(b.x, b.y, b.x + b.w, b.y + b.h)
  }

  lemma {:induction false} ColumnCount(x: int, y0: int, y1: int)
    requires y0 <= y1
    ensures |Rect(x, y0, x + 1, y1)| == y1 - y0
    decreases y1 - y0
  {
    if y0 == y1 {
      assert Rect(x, y0, x + 1, y1) == {};
    } else {
      ColumnCount(x, y0, y1 - 1);
      assert Rect(x, y0, x + 1, y1) == Rect(x, y0, x + 1, y1 - 1) + {(x, y1 - 1)};
    }
  }

  lemma {:induction false} RectCount(x0: int, y0: int, x1: int, y1: int)
    requires x0 <= x1 && y0 <= y1
    ensures |Rect(x0, y0, x1, y1)| == (x1 - x0) * (y1 - y0)
    decreases x1 - x0
  {
    if x0 == x1 {
      assert Rect(x0, y0, x1, y1) == {};
    } else {
      RectCount(x0, y0, x1 - 1, y1);
      ColumnCount(x1 - 1, y0, y1);
      var init, last := Rect(x0, y0, x1 - 1, y1), Rect(x1 - 1, y0, x1, y1);
      assert Rect(x0, y0, x1, y1) == init + last;
      assert init !! last;
      assert (x1 - x0) * (y1 - y0) == (x1 - 1 - x0) * (y1 - y0) + (y1 - y0);
    }
  }

  lemma CommonPixels(a: Box, b: Box)
    ensures Pixels(a) * Pixels(b)
         == Rect(Max(a.x, b.x), Max(a.y, b.y), Min(a.x + a.w, b.x + b.w), Min(a.y + a.h, b.y + b.h))
  {
  }

  lemma BoxCount(b: Box)
    requires b.w >= 0 && b.h >= 0
    ensures |Pixels(b)| == b.w * b.h
  {
    var x1, y1 := b.x + b.w, b.y + b.h;
    RectCount(b.x, b.y, x1, y1);
    assert x1 - b.x == b.w && y1 - b.y == b.h;
  }

  lemma MeetingBoxes(a: Box, b: Box)
    requires Max(a.x, b.x) <= Min(a.x + a.w, b.x + b.w) && Max(a.y, b.y) <= Min(a.y + a.h, b.y + b.h)
    ensures |Pixels(a) * Pixels(b)|
         == (Min(a.x + a.w, b.x + b.w) - Max(a.x, b.x)) * (Min(a.y + a.h, b.y + b.h) - Max(a.y, b.y))
    ensures |Pixels(a) + Pixels(b)| == a.w * a.h + b.w * b.h - |Pixels(a) * Pixels(b)|
  {
    CommonPixels(a, b);
    RectCount(Max(a.x, b.x), Max(a.y, b.y), Min(a.x + a.w, b.x + b.w), Min(a.y + a.h, b.y + b.h));
    BoxCount(a);
    BoxCount(b);
  }

  lemma Share(n: int, d: int)
    requires d != 0
    ensures n as real / d as real * d as real == n as real
  {
  }

  ghost predicate IsShare(score: Option<real>, both: nat, all: nat) {
    && (all != 0 ==> score.Some?)
    && (score.Some? ==> score.value * all as real == both as real)
    && (all == 0 ==> score.None? || score.value == 0.0)
  }

  lemma DivisionIsShare(both: nat, all: nat)
    ensures IsShare(if all == 0 then None else Some(both as real / all as real), both, all)
  {
    if all != 0 {
      Share(both, all);
    }
  }

  lemma IouOfMeeting(a: Box, b: Box)
    requires Max(a.x, b.x) <= Min(a.x + a.w, b.x + b.w) && Max(a.y, b.y) <= Min(a.y + a.h, b.y + b.h)
    ensures var areaInter := (Min(a.x + a.w, b.x + b.w) - Max(a.x, b.x)) * (Min(a.y + a.h, b.y + b.h) - Max(a.y, b.y));
            var areaSum := a.w * a.h + b.w * b.h - areaInter;
            Iou(a, b) == if areaSum == 0 then None else Some(areaInter as real / areaSum as real)
  {
  }

  /** For all boxes, of any size and sign, the score is the share that the pixels common to both have of all. */
  lemma ScoreIsShare(a: Box, b: Box)
    ensures IsShare(Iou(a, b), |Pixels(a) * Pixels(b)|, |Pixels(a) + Pixels(b)|)
  {
    if Max(a.x, b.x) <= Min(a.x + a.w, b.x + b.w) && Max(a.y, b.y) <= Min(a.y + a.h, b.y + b.h) {
      MeetingBoxes(a, b);
      IouOfMeeting(a, b);
      DivisionIsShare(|Pixels(a) * Pixels(b)|, |Pixels(a) + Pixels(b)|);
    } else {
      CommonPixels(a, b);
      assert Pixels(a) * Pixels(b) == {};
    }
  }

  lemma Counts(a: Box, b: Box) returns (both: nat, all: nat)
    ensures both == |Pixels(a) * Pixels(b)| && all == |Pixels(a) + Pixels(b)|
    ensures both <= all && (all == 0 <==> Pixels(a) + Pixels(b) == {})
    ensures IsShare(Iou(a, b), both, all)
  {
    ScoreIsShare(a, b);
    SubsetSize(Pixels(a) * Pixels(b), Pixels(a) + Pixels(b));
    both, all := |Pixels(a) * Pixels(b)|, |Pixels(a) + Pixels(b)|;
  }

  /**
   * Where either box covers a pixel, the score is the share of pixels common to both,
   * and where neither does it is 0 or undefined.
   */
  lemma IouCountsPixels(a: Box, b: Box)
    ensures Pixels(a) + Pixels(b) != {} ==> Iou(a, b).Some?
    ensures Iou(a, b).Some? ==>
              Iou(a, b).value * |Pixels(a) + Pixels(b)| as real == |Pixels(a) * Pixels(b)| as real
    ensures Pixels(a) + Pixels(b) == {} ==> Iou(a, b).None? || Iou(a, b).value == 0.0
  {
    ScoreIsShare(a, b);
  }

  lemma ShareIsUnique(s: Option<real>, t: Option<real>, both: nat, all: nat)
    requires all > 0 && IsShare(s, both, all) && IsShare(t, both, all)
    ensures s == t
  {
    var d := all as real;
    SameSign(s.value - t.value, d);
    assert (s.value - t.value) * d == s.value * d - t.value * d;
  }

  lemma SameSign(x: real, d: real)
    requires d > 0.0
    ensures x * d > 0.0 <==> x > 0.0
    ensures x * d < 0.0 <==> x < 0.0
  {
  }

  lemma ShareAtMostOne(s: Option<real>, both: nat, all: nat)
    requires s.Some? && IsShare(s, both, all) && both <= all
    ensures 0.0 <= s.value <= 1.0
  {
    var v, d := s.value, all as real;
    if all > 0 {
      var n := both as real;
      assert v * d == n && 0.0 <= n <= d;
      SameSign(v - 1.0, d);
      SameSign(v, d);
      assert (v - 1.0) * d == n - d;
    }
  }

  /** Two boxes of the same place and size overlap in full, if they cover a pixel. */
  lemma SameBoxScoresOne(a: Box, b: Box)
    requires a.w > 0 && a.h > 0 && (a.x, a.y, a.w, a.h) == (b.x, b.y, b.w, b.h)
    ensures Iou(a, b) == Some(1.0)
  {
    ScoreIsShare(a, b);
    assert Pixels(a) + Pixels(b) == Pixels(a) == Pixels(a) * Pixels(b);
    assert (a.x, a.y) in Pixels(a);
    ShareIsUnique(Iou(a, b), Some(1.0), |Pixels(a)|, |Pixels(a)|);
  }

  lemma IouIsSymmetric(a: Box, b: Box)
    ensures Iou(a, b) == Iou(b, a)
  {
  }

  lemma IouLaws(a: Box, b: Box)
    ensures Iou(a, b) == Iou(b, a)
    ensures Iou(a, b).Some? ==> 0.0 <= Iou(a, b).value <= 1.0
  {
    IouIsSymmetric(a, b);
    var both, all := Counts(a, b);
    if Iou(a, b).Some? {
      ShareAtMostOne(Iou(a, b), both, all);
    }
  }
}
