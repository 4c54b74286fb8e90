/**
 * Resizing a grey or an interleaved colour image with a bilinear lookup table.
 * Each output byte is a weighted sum of four input bytes, divided by 256 and cut
 * down to a whole number. The table stores its weights as bytes, so a weight of
 * 256 does not fit; the lemmas here say when that shows, and that a colour image
 * is resized as if its three planes were grey images, except for the two taps the
 * program swaps between green and blue.
 */
module Resize {
  import opened Prelude
  import opened ResizeTable

  function Interp(e: Entry, p0: Byte, p1: Byte, p2: Byte, p3: Byte): nat {
    (p0 * e.f0 + p1 * e.f1 + p2 * e.f2 + p3 * e.f3) / 256
  }

  lemma Bounded(p: nat, f: nat, low: nat, high: nat)
    requires low <= p <= high
    ensures low * f <= p * f <= high * f
  {
  }

  lemma Distribute(c: nat, f0: nat, f1: nat, f2: nat, f3: nat)
    ensures c * (f0 + f1 + f2 + f3) == c * f0 + c * f1 + c * f2 + c * f3
  {
  }

  lemma TotalAtMost(sum: nat, high: nat)
    requires sum <= 256
    ensures high * sum <= 256 * high
  {
    Bounded(sum, high, 0, 256);
  }

  lemma TotalAtLeast(sum: nat, low: nat)
    requires 253 <= sum
    ensures 253 * low <= low * sum
  {
    Bounded(253, low, 0, sum);
  }

  lemma SumAtMost(e: Entry, p0: nat, p1: nat, p2: nat, p3: nat, high: nat)
    requires p0 <= high && p1 <= high && p2 <= high && p3 <= high
    ensures 0 <= p0 * e.f0 + p1 * e.f1 + p2 * e.f2 + p3 * e.f3 <= high * (e.f0 + e.f1 + e.f2 + e.f3)
  {
    Bounded(p0, e.f0, 0, high);
    Bounded(p1, e.f1, 0, high);
    Bounded(p2, e.f2, 0, high);
    Bounded(p3, e.f3, 0, high);
    Distribute(high, e.f0, e.f1, e.f2, e.f3);
  }

  lemma SumAtLeast(e: Entry, p0: nat, p1: nat, p2: nat, p3: nat, low: nat)
    requires low <= p0 && low <= p1 && low <= p2 && low <= p3
    ensures low * (e.f0 + e.f1 + e.f2 + e.f3) <= p0 * e.f0 + p1 * e.f1 + p2 * e.f2 + p3 * e.f3
  {
    Bounded(p0, e.f0, low, p0);
    Bounded(p1, e.f1, low, p1);
    Bounded(p2, e.f2, low, p2);
    Bounded(p3, e.f3, low, p3);
    Distribute(low, e.f0, e.f1, e.f2, e.f3);
  }

  lemma DotAtMost(e: Entry, p0: Byte, p1: Byte, p2: Byte, p3: Byte, high: Byte)
    requires e.f0 + e.f1 + e.f2 + e.f3 <= 256 && p0 <= high && p1 <= high && p2 <= high && p3 <= high
    ensures 0 <= p0 * e.f0 + p1 * e.f1 + p2 * e.f2 + p3 * e.f3 <= 256 * high
  {
    SumAtMost(e, p0, p1, p2, p3, high);
    TotalAtMost(e.f0 + e.f1 + e.f2 + e.f3, high);
  }

  lemma DotAtLeast(e: Entry, p0: Byte, p1: Byte, p2: Byte, p3: Byte, low: Byte)
    requires 253 <= e.f0 + e.f1 + e.f2 + e.f3 && low <= p0 && low <= p1 && low <= p2 && low <= p3
    ensures 253 * low <= p0 * e.f0 + p1 * e.f1 + p2 * e.f2 + p3 * e.f3
  {
    SumAtLeast(e, p0, p1, p2, p3, low);
    TotalAtLeast(e.f0 + e.f1 + e.f2 + e.f3, low);
  }

  lemma DivAtMost(dot: nat, high: nat)
    requires dot <= 256 * high
    ensures dot / 256 <= high
  {
  }

  lemma DivAtLeast(dot: nat, low: nat)
    requires 253 * low <= dot
    ensures 253 * low / 256 <= dot / 256
  {
  }

  /** No value is larger than its largest tap, so it fits a byte. */
  lemma InterpAtMost(e: Entry, p0: Byte, p1: Byte, p2: Byte, p3: Byte, high: Byte)
    requires e.f0 + e.f1 + e.f2 + e.f3 <= 256
    requires p0 <= high && p1 <= high && p2 <= high && p3 <= high
    ensures Interp(e, p0, p1, p2, p3) <= high
  {
    DotAtMost(e, p0, p1, p2, p3, high);
    DivAtMost(p0 * e.f0 + p1 * e.f1 + p2 * e.f2 + p3 * e.f3, high);
  }

  /** Between the taps, but for the little that the truncated weights lose. */
  lemma InterpBetweenTaps(z: Size, e: Entry, p0: Byte, p1: Byte, p2: Byte, p3: Byte, low: Byte, high: Byte)
    requires Usable(z, e)
    requires low <= p0 <= high && low <= p1 <= high && low <= p2 <= high && low <= p3 <= high
    ensures 253 * low / 256 <= Interp(e, p0, p1, p2, p3) <= high
  {
    InterpAtMost(e, p0, p1, p2, p3, high);
    DotAtLeast(e, p0, p1, p2, p3, low);
    DivAtLeast(p0 * e.f0 + p1 * e.f1 + p2 * e.f2 + p3 * e.f3, low);
  }

  /** The value that exact shares would give, times the area they share out. */
  function Exact(n: (nat, nat, nat, nat), p0: nat, p1: nat, p2: nat, p3: nat): nat {
    n.0 * p0 + n.1 * p1 + n.2 * p2 + n.3 * p3
  }

  /** What truncating one weight costs, at one tap. */
  lemma TapLoss(n: nat, whole: nat, p: Byte)
    requires whole > 0
    ensures Weight(n, whole) * p * whole <= 256 * (n * p) <= Weight(n, whole) * p * whole + 255 * whole
  {
    WeightBounds(n, whole);
    var f := Weight(n, whole);
    var loss := n * 256 - f * whole;
    assert 256 * (n * p) == f * p * whole + loss * p;
    Bounded(p, loss, 0, 255);
    Bounded(loss, 255, 0, whole);
  }

  lemma FloorBounds(dot: nat, whole: nat, exact: nat)
    requires dot * whole <= 256 * exact <= dot * whole + 4 * 255 * whole && whole > 0
    ensures dot / 256 * whole <= exact < (dot / 256 + 5) * whole
  {
    var q := dot / 256;
    Bounded(256 * q, whole, 0, dot);
    Bounded(dot, whole, 0, 256 * q + 255);
    assert 256 * q * whole == 256 * (q * whole) && (256 * q + 255) * whole == 256 * (q * whole) + 255 * whole;
    assert (q + 5) * whole == q * whole + 5 * whole;
  }

  lemma Distribute4(a: nat, b: nat, c: nat, d: nat, whole: nat)
    ensures (a + b + c + d) * whole == a * whole + b * whole + c * whole + d * whole
  {
  }

  lemma SumLoss(n: (nat, nat, nat, nat), whole: nat, p0: Byte, p1: Byte, p2: Byte, p3: Byte)
    requires whole > 0
    ensures var dot := Weight(n.0, whole) * p0 + Weight(n.1, whole) * p1 +
                       Weight(n.2, whole) * p2 + Weight(n.3, whole) * p3;
            dot / 256 * whole <= Exact(n, p0, p1, p2, p3) < (dot / 256 + 5) * whole
  {
    TapLoss(n.0, whole, p0);
    TapLoss(n.1, whole, p1);
    TapLoss(n.2, whole, p2);
    TapLoss(n.3, whole, p3);
    var a, b := Weight(n.0, whole) * p0, Weight(n.1, whole) * p1;
    var c, d := Weight(n.2, whole) * p2, Weight(n.3, whole) * p3;
    Distribute4(a, b, c, d, whole);
    FloorBounds(a + b + c + d, whole, Exact(n, p0, p1, p2, p3));
  }

  /** The value of a pixel is the exact bilinear one, rounded down, or less than five below it. */
  lemma InterpIsBilinear(z: Size, u: nat, v: nat, p0: Byte, p1: Byte, p2: Byte, p3: Byte)
    requires u < z.wOut && v < z.hOut && !Blank(z, u, v)
    ensures 0 <= Rest(z.wIn, z.wOut, u) < z.wOut && 0 <= Rest(z.hIn, z.hOut, v) < z.hOut
    ensures var n := Shares(Rest(z.wIn, z.wOut, u), z.wOut, Rest(z.hIn, z.hOut, v), z.hOut);
            var value := Interp(EntryFor(z, u, v), p0, p1, p2, p3);
            value * (z.wOut * z.hOut) <= Exact(n, p0, p1, p2, p3) < (value + 5) * (z.wOut * z.hOut)
  {
    FractionsInside(z, u, v);
    Positive(z.wOut, z.hOut);
    var n := Shares(Rest(z.wIn, z.wOut, u), z.wOut, Rest(z.hIn, z.hOut, v), z.hOut);
    SumLoss(n, z.wOut * z.hOut, p0, p1, p2, p3);
  }

  /**
   * Where both fractions vanish, the exact value is the corner's; the stored one is a
   * fraction of that, and for 255 less than it.
   */
  lemma TopLeftScaled(z: Size, u: nat, v: nat, wrap: Byte, p0: Byte, p1: Byte, p2: Byte, p3: Byte)
    requires u < z.wOut && v < z.hOut && !Blank(z, u, v) && EntryFor(z, u, v).f0 == 256
    ensures Interp(EntryFor(z, u, v), p0, p1, p2, p3) == p0
    ensures Interp(Stored(EntryFor(z, u, v), wrap), p0, p1, p2, p3) == p0 * wrap / 256
    ensures p0 == 255 ==> p0 * wrap / 256 < p0
  {
    StoredIsReadable(z, u, v, wrap);
    var e := EntryFor(z, u, v);
    assert p1 * e.f1 == 0 && p2 * e.f2 == 0 && p3 * e.f3 == 0;
  }

  /**
   * The table in bytes gives every pixel its value if and only if not both fractions
   * vanish, whichever byte a weight of 256 turns into; in the first pixel both do.
   */
  lemma StoringIsHarmlessExactly(z: Size, u: nat, v: nat, wrap: Byte)
    requires u < z.wOut && v < z.hOut && !Blank(z, u, v)
    ensures var e := EntryFor(z, u, v);
            (forall p0: Byte, p1: Byte, p2: Byte, p3: Byte ::
               Interp(Stored(e, wrap), p0, p1, p2, p3) == Interp(e, p0, p1, p2, p3))
            <==> !(Rest(z.wIn, z.wOut, u) == 0 && Rest(z.hIn, z.hOut, v) == 0)
    ensures u == 0 && v == 0 ==> Rest(z.wIn, z.wOut, u) == 0 && Rest(z.hIn, z.hOut, v) == 0
  {
    var e := EntryFor(z, u, v);
    BytesHoldWeightsExactly(z, u, v);
    StoredIsReadable(z, u, v, wrap);
    if e.f0 == 256 {
      TopLeftScaled(z, u, v, wrap, 255, 0, 0, 0);
    }
  }

  // ---------------------------------------------------------------------------
  // One pixel

  function At(z: Size, x: int, y: int): int {
    z.wIn * y + x
  }

  lemma AtInside(z: Size, x: nat, y: nat)
    requires x < z.wIn && y < z.hIn
    ensures 0 <= At(z, x, y) < z.wIn * z.hIn
  {
    MulStep(y, z.hIn, z.wIn);
  }

  lemma AtDistinct(z: Size, x: nat, y: nat, x': nat, y': nat)
    requires x < z.wIn && x' < z.wIn && At(z, x, y) == At(z, x', y')
    ensures x == x' && y == y'
  {
    if y < y' {
      MulStep(y, y', z.wIn);
    } else if y' < y {
      MulStep(y', y, z.wIn);
    }
  }

  lemma TapsInside(z: Size, e: Entry)
    requires CornersInside(z, e)
    ensures 0 <= At(z, e.x, e.y) < z.wIn * z.hIn && 0 <= At(z, e.x + 1, e.y) < z.wIn * z.hIn
    ensures 0 <= At(z, e.x, e.y + 1) < z.wIn * z.hIn && 0 <= At(z, e.x + 1, e.y + 1) < z.wIn * z.hIn
  {
    AtInside(z, e.x, e.y);
    AtInside(z, e.x + 1, e.y);
    AtInside(z, e.x, e.y + 1);
    AtInside(z, e.x + 1, e.y + 1);
  }

  ghost function GreyAt(z: Size, e: Entry, image: seq<Byte>): nat
    requires CornersInside(z, e) && |image| == z.wIn * z.hIn
  {
    TapsInside(z, e);
    Interp(e, image[At(z, e.x, e.y)], image[At(z, e.x + 1, e.y)],
           image[At(z, e.x, e.y + 1)], image[At(z, e.x + 1, e.y + 1)])
  }

  /** The byte that the table entry `e` makes of a grey image. */
  ghost function Grey(z: Size, e: Entry, image: seq<Byte>): nat
    requires Readable(z, e) && |image| == z.wIn * z.hIn
  {
    if e.x < 0 then 0 else GreyAt(z, Loaded(e), image)
  }

  /** One colour of an interleaved image. */
  ghost function Plane(rgb: seq<Byte>, colour: nat): (p: seq<Byte>)
    requires |rgb| % 3 == 0 && colour < 3
    ensures |p| == |rgb| / 3
    ensures forall i :: 0 <= i < |p| ==> p[i] == rgb[3 * i + colour]
  {
    seq(|rgb| / 3, i requires 0 <= i < |rgb| / 3 => rgb[3 * i + colour])
  }

  /** The third tap of blue is read from green, and the fourth of green from blue. */
  ghost function ColourAt(z: Size, e: Entry, rgb: seq<Byte>): (nat, nat, nat)
    requires CornersInside(z, e) && |rgb| == 3 * (z.wIn * z.hIn)
  {
    TapsInside(z, e);
    var r, g, b := Plane(rgb, 0), Plane(rgb, 1), Plane(rgb, 2);
    var i0, i1, i2, i3 := At(z, e.x, e.y), At(z, e.x + 1, e.y), At(z, e.x, e.y + 1), At(z, e.x + 1, e.y + 1);
    (Interp(e, r[i0], r[i1], r[i2], r[i3]),
     Interp(e, g[i0], g[i1], g[i2], b[i2]),
     Interp(e, b[i0], b[i1], g[i3], b[i3]))
  }

  /** The three bytes that the table entry `e` makes of a colour image. */
  ghost function Colours(z: Size, e: Entry, rgb: seq<Byte>): (nat, nat, nat)
    requires Readable(z, e) && |rgb| == 3 * (z.wIn * z.hIn)
  {
    if e.x < 0 then (0, 0, 0) else ColourAt(z, Loaded(e), rgb)
  }

  function Component(pixel: (nat, nat, nat), colour: nat): nat
    requires colour < 3
  {
    if colour == 0 then pixel.0 else if colour == 1 then pixel.1 else pixel.2
  }

  /** An image that is 1 in one colour but for one pixel, and 255 in the others. */
  function Painted(n: nat, colour: nat, hole: nat): (rgb: seq<Byte>)
    ensures |rgb| == 3 * n
    ensures forall k :: 0 <= k < 3 * n ==>
              rgb[k] == if k % 3 != colour then 255 else if k / 3 == hole then 0 else 1
  {
    seq(3 * n, k => if k % 3 != colour then 255 else if k / 3 == hole then 0 else 1)
  }

  lemma PaintedPlane(n: nat, colour: nat, hole: nat, c: nat, i: nat)
    requires colour < 3 && c < 3 && i < n
    ensures Plane(Painted(n, colour, hole), c)[i] == if c != colour then 255 else if i == hole then 0 else 1
  {
    var k := 3 * i + c;
    assert k % 3 == c && k / 3 == i;
  }

  /** Three taps of 1, one of 0, and the same with 255 for the 0. */
  lemma OnesAndAHole(e: Entry)
    requires Weighted((e.f0, e.f1, e.f2, e.f3))
    ensures e.f3 > 0 ==> Interp(e, 1, 1, 1, 0) == 0 && Interp(e, 1, 1, 1, 255) > 0
    ensures e.f2 > 0 ==> Interp(e, 1, 1, 0, 1) == 0 && Interp(e, 1, 1, 255, 1) > 0
  {
  }

  lemma GreenTaps(z: Size, e: Entry) returns (rgb: seq<Byte>)
    requires CornersInside(z, e)
    ensures |rgb| == 3 * (z.wIn * z.hIn)
    ensures GreyAt(z, e, Plane(rgb, 1)) == Interp(e, 1, 1, 1, 0) && ColourAt(z, e, rgb).1 == Interp(e, 1, 1, 1, 255)
  {
    TapsInside(z, e);
    CornersDiffer(z, e);
    var n := z.wIn * z.hIn;
    var i0, i1, i2, i3 := At(z, e.x, e.y), At(z, e.x + 1, e.y), At(z, e.x, e.y + 1), At(z, e.x + 1, e.y + 1);
    rgb := Painted(n, 1, i3);
    PaintedPlane(n, 1, i3, 1, i0);
    PaintedPlane(n, 1, i3, 1, i1);
    PaintedPlane(n, 1, i3, 1, i2);
    PaintedPlane(n, 1, i3, 1, i3);
    PaintedPlane(n, 1, i3, 2, i2);
  }

  lemma BlueTaps(z: Size, e: Entry) returns (rgb: seq<Byte>)
    requires CornersInside(z, e)
    ensures |rgb| == 3 * (z.wIn * z.hIn)
    ensures GreyAt(z, e, Plane(rgb, 2)) == Interp(e, 1, 1, 0, 1) && ColourAt(z, e, rgb).2 == Interp(e, 1, 1, 255, 1)
  {
    TapsInside(z, e);
    CornersDiffer(z, e);
    var n := z.wIn * z.hIn;
    var i0, i1, i2, i3 := At(z, e.x, e.y), At(z, e.x + 1, e.y), At(z, e.x, e.y + 1), At(z, e.x + 1, e.y + 1);
    rgb := Painted(n, 2, i2);
    PaintedPlane(n, 2, i2, 2, i0);
    PaintedPlane(n, 2, i2, 2, i1);
    PaintedPlane(n, 2, i2, 2, i2);
    PaintedPlane(n, 2, i2, 2, i3);
    PaintedPlane(n, 2, i2, 1, i3);
  }

  lemma GreenCrossed(z: Size, e: Entry) returns (rgb: seq<Byte>)
    requires Usable(z, e) && e.f3 > 0
    ensures |rgb| == 3 * (z.wIn * z.hIn) && !IsItsPlane(z, e, rgb, 1)
  {
    OnesAndAHole(e);
    rgb := GreenTaps(z, e);
  }

  lemma BlueCrossed(z: Size, e: Entry) returns (rgb: seq<Byte>)
    requires Usable(z, e) && e.f2 > 0
    ensures |rgb| == 3 * (z.wIn * z.hIn) && !IsItsPlane(z, e, rgb, 2)
  {
    OnesAndAHole(e);
    rgb := BlueTaps(z, e);
  }

  ghost predicate IsItsPlane(z: Size, e: Entry, rgb: seq<Byte>, colour: nat)
    requires CornersInside(z, e) && |rgb| == 3 * (z.wIn * z.hIn) && colour < 3
  {
    Component(ColourAt(z, e, rgb), colour) == GreyAt(z, e, Plane(rgb, colour))
  }

  /**
   * Whatever the image, red is resized like a grey image of its own; green is if and
   * only if its fourth weight is zero, and blue if and only if its third is.
   */
  lemma ColoursAreTheirPlanesExactly(z: Size, e: Entry, colour: nat)
    requires Usable(z, e) && colour < 3
    ensures (forall rgb: seq<Byte> :: |rgb| == 3 * (z.wIn * z.hIn) ==> IsItsPlane(z, e, rgb, colour))
            <==> colour == 0 || (colour == 1 && e.f3 == 0) || (colour == 2 && e.f2 == 0)
  {
    if colour == 1 && e.f3 > 0 {
      var rgb := GreenCrossed(z, e);
      assert !IsItsPlane(z, e, rgb, 1);
    } else if colour == 2 && e.f2 > 0 {
      var rgb := BlueCrossed(z, e);
      assert !IsItsPlane(z, e, rgb, 2);
    }
  }

  lemma NothingCrossed(z: Size, e: Entry, rgb: seq<Byte>, colour: nat)
    requires CornersInside(z, e) && |rgb| == 3 * (z.wIn * z.hIn)
    requires colour == 0 || (colour == 1 && e.f3 == 0) || (colour == 2 && e.f2 == 0)
    ensures IsItsPlane(z, e, rgb, colour)
  {
  }

  /**
   * What is crossed is the blue of the lower left pixel with the green of the lower right:
   * in an image where these agree, every colour is resized like a grey image of its own.
   */
  lemma NothingElseIsCrossed(z: Size, e: Entry, rgb: seq<Byte>, colour: nat)
    requires CornersInside(z, e) && |rgb| == 3 * (z.wIn * z.hIn) && colour < 3
    ensures 0 <= 3 * At(z, e.x, e.y + 1) + 2 < |rgb| && 0 <= 3 * At(z, e.x + 1, e.y + 1) + 1 < |rgb|
    ensures rgb[3 * At(z, e.x, e.y + 1) + 2] == rgb[3 * At(z, e.x + 1, e.y + 1) + 1] ==> IsItsPlane(z, e, rgb, colour)
  {
    TapsInside(z, e);
  }

  /** The same of the entries as they are stored; one that reads as blank makes every colour 0. */
  lemma StoredColoursExactly(z: Size, u: nat, v: nat, wrap: Byte, colour: nat)
    requires u < z.wOut && v < z.hOut && !Blank(z, u, v) && colour < 3
    ensures var s := Stored(EntryFor(z, u, v), wrap);
            Readable(z, s) &&
            ((forall rgb: seq<Byte> :: |rgb| == 3 * (z.wIn * z.hIn) ==>
                Component(Colours(z, s, rgb), colour) == Grey(z, s, Plane(rgb, colour)))
             <==> s.x < 0 || colour == 0 || (colour == 1 && s.f3 == 0) || (colour == 2 && s.f2 == 0))
  {
    EntryIsUsable(z, u, v);
    StoredIsReadable(z, u, v, wrap);
    var s := Stored(EntryFor(z, u, v), wrap);
    if s.x >= 0 {
      if EntryFor(z, u, v).f0 < 256 {
        ColoursAreTheirPlanesExactly(z, Loaded(s), colour);
        StoredColoursAre(z, s, colour);
      } else {
        forall rgb: seq<Byte> | |rgb| == 3 * (z.wIn * z.hIn) ensures IsItsPlane(z, Loaded(s), rgb, colour) {
          NothingCrossed(z, Loaded(s), rgb, colour);
        }
        StoredColoursAre(z, s, colour);
      }
    }
  }

  lemma StoredColoursAre(z: Size, s: Entry, colour: nat)
    requires s.x >= 0 && Readable(z, s) && colour < 3
    ensures (forall rgb: seq<Byte> :: |rgb| == 3 * (z.wIn * z.hIn) ==>
               Component(Colours(z, s, rgb), colour) == Grey(z, s, Plane(rgb, colour)))
            <==> (forall rgb: seq<Byte> :: |rgb| == 3 * (z.wIn * z.hIn) ==> IsItsPlane(z, Loaded(s), rgb, colour))
  {
    if forall rgb: seq<Byte> :: |rgb| == 3 * (z.wIn * z.hIn) ==>
         Component(Colours(z, s, rgb), colour) == Grey(z, s, Plane(rgb, colour))
    {
      forall rgb: seq<Byte> | |rgb| == 3 * (z.wIn * z.hIn) ensures IsItsPlane(z, Loaded(s), rgb, colour) {
        assert Component(Colours(z, s, rgb), colour) == Grey(z, s, Plane(rgb, colour));
      }
    } else {
      var rgb: seq<Byte> :| |rgb| == 3 * (z.wIn * z.hIn) &&
                            Component(Colours(z, s, rgb), colour) != Grey(z, s, Plane(rgb, colour));
      assert !IsItsPlane(z, Loaded(s), rgb, colour);
    }
  }

  lemma CornersDiffer(z: Size, e: Entry)
    requires CornersInside(z, e)
    ensures At(z, e.x, e.y) != At(z, e.x + 1, e.y + 1) && At(z, e.x, e.y) != At(z, e.x, e.y + 1)
    ensures At(z, e.x + 1, e.y) != At(z, e.x + 1, e.y + 1) && At(z, e.x + 1, e.y) != At(z, e.x, e.y + 1)
    ensures At(z, e.x, e.y + 1) != At(z, e.x + 1, e.y + 1)
  {
    if At(z, e.x, e.y) == At(z, e.x + 1, e.y + 1) {
      AtDistinct(z, e.x, e.y, e.x + 1, e.y + 1);
    }
    if At(z, e.x, e.y) == At(z, e.x, e.y + 1) {
      AtDistinct(z, e.x, e.y, e.x, e.y + 1);
    }
    if At(z, e.x + 1, e.y) == At(z, e.x + 1, e.y + 1) {
      AtDistinct(z, e.x + 1, e.y, e.x + 1, e.y + 1);
    }
    if At(z, e.x + 1, e.y) == At(z, e.x, e.y + 1) {
      AtDistinct(z, e.x + 1, e.y, e.x, e.y + 1);
    }
  }

  /** An image that is 255 in the four pixels around a corner and 0 elsewhere. */
  ghost function Spot(z: Size, e: Entry): (image: seq<Byte>)
    requires CornersInside(z, e)
    ensures |image| == z.wIn * z.hIn
    ensures forall k :: 0 <= k < |image| ==> image[k] == if IsTap(z, e, k) then 255 else 0
  {
    AtInside(z, e.x, e.y);
    seq(z.wIn * z.hIn, k => if IsTap(z, e, k) then 255 else 0)
  }

  ghost predicate IsTap(z: Size, e: Entry, k: int)
    requires CornersInside(z, e)
  {
    k == At(z, e.x, e.y) || k == At(z, e.x + 1, e.y) || k == At(z, e.x, e.y + 1) || k == At(z, e.x + 1, e.y + 1)
  }

  lemma FarIsNoTap(z: Size, e: Entry, x: nat, y: nat)
    requires CornersInside(z, e) && x < z.wIn && (x > e.x + 1 || x < e.x || y > e.y + 1 || y < e.y)
    ensures !IsTap(z, e, At(z, x, y))
  {
    if IsTap(z, e, At(z, x, y)) {
      var a := if At(z, x, y) == At(z, e.x, e.y) || At(z, x, y) == At(z, e.x, e.y + 1) then e.x else e.x + 1;
      var b := if At(z, x, y) == At(z, e.x, e.y) || At(z, x, y) == At(z, e.x + 1, e.y) then e.y else e.y + 1;
      AtDistinct(z, x, y, a, b);
    }
  }

  lemma SpotIsSeen(z: Size, e: Entry)
    requires Usable(z, e)
    ensures GreyAt(z, e, Spot(z, e)) >= 252
  {
    TapsInside(z, e);
    InterpBetweenTaps(z, e, 255, 255, 255, 255, 255, 255);
  }

  lemma SpotIsNotSeenFrom(z: Size, e: Entry, far: Entry)
    requires CornersInside(z, e) && CornersInside(z, far)
    requires far.x > e.x + 1 || far.x + 1 < e.x || far.y > e.y + 1 || far.y + 1 < e.y
    ensures GreyAt(z, far, Spot(z, e)) == 0
  {
    TapsInside(z, far);
    FarIsNoTap(z, e, far.x, far.y);
    FarIsNoTap(z, e, far.x + 1, far.y);
    FarIsNoTap(z, e, far.x, far.y + 1);
    FarIsNoTap(z, e, far.x + 1, far.y + 1);
  }

  /** A corner that 16 bits lose is far from the one that is read instead, if any is. */
  lemma LostCornerShows(z: Size, u: nat, v: nat, wrap: Byte) returns (image: seq<Byte>)
    requires u < z.wOut && v < z.hOut && !Blank(z, u, v)
    requires EntryFor(z, u, v).x >= 0x8000 || EntryFor(z, u, v).y >= 0x1_0000
    ensures |image| == z.wIn * z.hIn && Readable(z, Stored(EntryFor(z, u, v), wrap))
    ensures CornersInside(z, EntryFor(z, u, v))
    ensures Grey(z, Stored(EntryFor(z, u, v), wrap), image) != GreyAt(z, EntryFor(z, u, v), image)
  {
    EntryIsUsable(z, u, v);
    StoredIsReadable(z, u, v, wrap);
    CornersSurviveExactly(z, u, v, wrap);
    var e := EntryFor(z, u, v);
    var s := Stored(e, wrap);
    image := Spot(z, e);
    SpotIsSeen(z, e);
    if s.x >= 0 {
      SpotIsNotSeenFrom(z, e, Loaded(s));
    }
  }

  /**
   * The stored entry gives a pixel its value in every image if and only if not both
   * fractions vanish and 16 bits hold the corner.
   */
  lemma TableIsRightExactly(z: Size, u: nat, v: nat, wrap: Byte)
    requires u < z.wOut && v < z.hOut && !Blank(z, u, v)
    ensures var e, s := EntryFor(z, u, v), Stored(EntryFor(z, u, v), wrap);
            CornersInside(z, e) && Readable(z, s) &&
            ((forall image: seq<Byte> :: |image| == z.wIn * z.hIn ==> Grey(z, s, image) == GreyAt(z, e, image))
             <==> e.x < 0x8000 && e.y < 0x1_0000 &&
                  !(Rest(z.wIn, z.wOut, u) == 0 && Rest(z.hIn, z.hOut, v) == 0))
  {
    EntryIsUsable(z, u, v);
    BytesHoldWeightsExactly(z, u, v);
    StoredIsReadable(z, u, v, wrap);
    CornersSurviveExactly(z, u, v, wrap);
    var e, s := EntryFor(z, u, v), Stored(EntryFor(z, u, v), wrap);
    if e.x >= 0x8000 || e.y >= 0x1_0000 {
      var image := LostCornerShows(z, u, v, wrap);
      assert Grey(z, s, image) != GreyAt(z, e, image);
    } else if e.f0 == 256 {
      TapsInside(z, e);
      TopLeftScaled(z, u, v, wrap, 255, 255, 255, 255);
      var image := Spot(z, e);
      assert Grey(z, s, image) != GreyAt(z, e, image);
    } else {
      assert Loaded(s) == e;
    }
  }

  // ---------------------------------------------------------------------------
  // From the image to the value, whatever the table is made of

  /** An image that rises evenly, by `right` a column and by `down` a row. */
  ghost predicate Slope(z: Size, image: seq<Byte>, base: int, right: int, down: int)
    requires |image| == z.wIn * z.hIn
  {
    forall x: nat, y: nat :: x < z.wIn && y < z.hIn ==>
      0 <= z.wIn * y + x < |image| && image[z.wIn * y + x] == base + right * x + down * y
  }

  /** That image at the coordinate of output pixel (u, v), times the output's area. */
  function SlopeAt(z: Size, u: nat, v: nat, base: int, right: int, down: int): int {
    base * (z.wOut * z.hOut) + right * ((z.wIn - 1) * u * z.hOut) + down * ((z.hIn - 1) * v * z.wOut)
  }

  /** Taking the shares at the corner gives the coordinate itself. */
  lemma CornerAndRest(x: int, a: int, w: int, b: int, y: int, h: int, base: int, right: int, down: int)
    ensures w * h * (base + right * x + down * y) + a * h * right + b * w * down ==
            base * (w * h) + right * ((x * w + a) * h) + down * ((y * h + b) * w)
  {
  }

  lemma ExactOnSlope(z: Size, u: nat, v: nat, image: seq<Byte>, base: int, right: int, down: int)
    requires u < z.wOut && v < z.hOut && !Blank(z, u, v) && CornersInside(z, EntryFor(z, u, v))
    requires |image| == z.wIn * z.hIn && Slope(z, image, base, right, down)
    ensures 0 <= Rest(z.wIn, z.wOut, u) < z.wOut && 0 <= Rest(z.hIn, z.hOut, v) < z.hOut
    ensures var e := EntryFor(z, u, v);
            var n := Shares(Rest(z.wIn, z.wOut, u), z.wOut, Rest(z.hIn, z.hOut, v), z.hOut);
            && TapsIn(z, e, image)
            && Exact(n, image[At(z, e.x, e.y)], image[At(z, e.x + 1, e.y)],
                     image[At(z, e.x, e.y + 1)], image[At(z, e.x + 1, e.y + 1)]) ==
               SlopeAt(z, u, v, base, right, down)
  {
    FractionsInside(z, u, v);
    var e := EntryFor(z, u, v);
    TapsInside(z, e);
    var a, b := Rest(z.wIn, z.wOut, u), Rest(z.hIn, z.hOut, v);
    var corner := base + right * e.x + down * e.y;
    Neighbours(e.x, e.y, base, right, down);
    SharesAreBilinear(a, z.wOut, b, z.hOut, corner, right, down);
    CornerAndRest(e.x, a, z.wOut, b, e.y, z.hOut, base, right, down);
  }

  lemma Neighbours(x: int, y: int, base: int, right: int, down: int)
    ensures base + right * (x + 1) + down * y == base + right * x + down * y + right
    ensures base + right * x + down * (y + 1) == base + right * x + down * y + down
    ensures base + right * (x + 1) + down * (y + 1) == base + right * x + down * y + right + down
  {
  }

  ghost predicate TapsIn(z: Size, e: Entry, image: seq<Byte>) {
    && 0 <= At(z, e.x, e.y) < |image| && 0 <= At(z, e.x + 1, e.y) < |image|
    && 0 <= At(z, e.x, e.y + 1) < |image| && 0 <= At(z, e.x + 1, e.y + 1) < |image|
  }

  /**
   * What a table makes of an image that rises evenly, said in terms of sides and
   * coordinates alone: the value at the pixel's own coordinate, rounded down, or less
   * than five below it; or, where both fractions vanish, that of the corner pixel scaled
   * by the byte that stands for 256.
   */
  lemma TableResamples(z: Size, wrap: Byte, table: seq<Entry>, u: nat, v: nat, image: seq<Byte>,
                       base: int, right: int, down: int)
    requires TableHolds(z, wrap, table, u, v) && |image| == z.wIn * z.hIn && Slope(z, image, base, right, down)
    requires 2 <= z.wIn <= 0x8001 && 2 <= z.hIn <= 0x1_0001
    ensures var e := table[z.wOut * v + u];
            var area := z.wOut * z.hOut;
            && Readable(z, e)
            && if (z.wIn - 1) * u % z.wOut == 0 && (z.hIn - 1) * v % z.hOut == 0 then
                 Grey(z, e, image) == (base + right * ((z.wIn - 1) * u / z.wOut) +
                                       down * ((z.hIn - 1) * v / z.hOut)) * wrap / 256
               else
                 Grey(z, e, image) * area <= SlopeAt(z, u, v, base, right, down) < (Grey(z, e, image) + 5) * area
  {
    BlankExactly(z, u, v);
    EntryIsUsable(z, u, v);
    StoredIsReadable(z, u, v, wrap);
    CornersSurviveExactly(z, u, v, wrap);
    BytesHoldWeightsExactly(z, u, v);
    var e := EntryFor(z, u, v);
    TapsInside(z, e);
    RestIsRemainder(z.wIn, z.wOut, u);
    RestIsRemainder(z.hIn, z.hOut, v);
    var p0, p1 := image[At(z, e.x, e.y)], image[At(z, e.x + 1, e.y)];
    var p2, p3 := image[At(z, e.x, e.y + 1)], image[At(z, e.x + 1, e.y + 1)];
    if e.f0 == 256 {
      TopLeftScaled(z, u, v, wrap, p0, p1, p2, p3);
    } else {
      InterpIsBilinear(z, u, v, p0, p1, p2, p3);
      ExactOnSlope(z, u, v, image, base, right, down);
    }
  }

  /** Where the input has fewer than two rows or columns every pixel is 0. */
  lemma BlankTableIsZero(z: Size, wrap: Byte, table: seq<Entry>, u: nat, v: nat, image: seq<Byte>, rgb: seq<Byte>)
    requires TableHolds(z, wrap, table, u, v) && (z.wIn < 2 || z.hIn < 2)
    requires |image| == z.wIn * z.hIn && |rgb| == 3 * (z.wIn * z.hIn)
    ensures Readable(z, table[z.wOut * v + u])
    ensures Grey(z, table[z.wOut * v + u], image) == 0 && Colours(z, table[z.wOut * v + u], rgb) == (0, 0, 0)
  {
    BlankExactly(z, u, v);
  }

  lemma RestIsRemainder(sideIn: int, sideOut: nat, u: nat)
    requires u < sideOut && sideIn >= 1
    ensures Rest(sideIn, sideOut, u) == (sideIn - 1) * u % sideOut
    ensures Whole(sideIn, sideOut, u) == (sideIn - 1) * u / sideOut
  {
    CoordinateInside(sideIn, sideOut, u);
    assert (sideIn - 1) * u >= 0;
  }

  // ---------------------------------------------------------------------------
  // The program

  lemma FractionsInside(z: Size, u: nat, v: nat)
    requires u < z.wOut && v < z.hOut && !Blank(z, u, v)
    ensures 0 <= Rest(z.wIn, z.wOut, u) < z.wOut && 0 <= Rest(z.hIn, z.hOut, v) < z.hOut
  {
    BlankExactly(z, u, v);
    CoordinateInside(z.wIn, z.wOut, u);
    CoordinateInside(z.hIn, z.hOut, v);
  }

  lemma SharesAreNatural(a: nat, w: nat, b: nat, h: nat)
    requires a < w && b < h
    ensures w * h > 0 && (w - a) * (h - b) >= 0 && a * (h - b) >= 0 && b * (w - a) >= 0 && a * b >= 0
  {
    Positive(w, h);
  }

  /** One pixel of the table. */
  method FillPixel(z: Size, wrap: Byte, table: array<Entry>, u: nat, v: nat)
    requires u < z.wOut && v < z.hOut && table.Length == z.wOut * z.hOut
    modifies table
    ensures 0 <= z.wOut * v + u < table.Length
    ensures TableHolds(z, wrap, table[..], u, v) && Readable(z, table[z.wOut * v + u])
    ensures forall k :: 0 <= k < table.Length && k != z.wOut * v + u ==> table[k] == old(table[k])
  {
    PixelInside(z.wOut, z.hOut, u, v);
    var xl := Truncated((z.wIn - 1) * u, z.wOut);
    var yl := Truncated((z.hIn - 1) * v, z.hOut);
    var x2, y2 := xl + 1, yl + 1;
    var xw := (z.wIn - 1) * u - xl * z.wOut;
    var yw := (z.hIn - 1) * v - yl * z.hOut;
    var pix := z.wOut * v + u;
    if (xl < 0 || x2 > z.wIn - 1) || (yl < 0 || y2 > z.hIn - 1) {
      table[pix] := Entry(-1, -1, table[pix].f0, table[pix].f1, table[pix].f2, table[pix].f3);
    } else {
      assert !Blank(z, u, v);
      StoredIsReadable(z, u, v, wrap);
      FractionsInside(z, u, v);
      SharesAreNatural(xw, z.wOut, yw, z.hOut);
      var f0 := Weight((z.wOut - xw) * (z.hOut - yw), z.wOut * z.hOut);
      table[pix] := Entry(Int16(xl), Int16(yl),
                          if f0 == 256 then wrap else f0,
                          Weight(xw * (z.hOut - yw), z.wOut * z.hOut),
                          Weight(yw * (z.wOut - xw), z.wOut * z.hOut),
                          Weight(xw * yw, z.wOut * z.hOut));
      assert table[pix] == Stored(EntryFor(z, u, v), wrap);
    }
  }

  lemma OtherPixelKept(z: Size, wrap: Byte, before: seq<Entry>, after: seq<Entry>, u: nat, v: nat, u': nat, v': nat)
    requires TableHolds(z, wrap, before, u', v') && |after| == |before|
    requires u < z.wOut && u' < z.wOut && (v' < v || (v' == v && u' < u))
    requires forall k :: 0 <= k < |before| && k != z.wOut * v + u ==> after[k] == before[k]
    ensures TableHolds(z, wrap, after, u', v')
  {
    PixelsDiffer(z.wOut, u, v, u', v');
  }

  lemma PixelInside(wOut: nat, hOut: nat, u: nat, v: nat)
    requires u < wOut && v < hOut
    ensures 0 <= wOut * v + u < wOut * hOut
  {
    MulStep(v, hOut, wOut);
  }

  lemma PixelsDiffer(wOut: nat, u: nat, v: nat, u': nat, v': nat)
    requires u < wOut && u' < wOut && (v' < v || (v' == v && u' < u))
    ensures wOut * v' + u' < wOut * v + u
  {
    if v' < v {
      MulStep(v', v, wOut);
    }
  }

  /** The table entry of pixel (u, v). */
  ghost predicate TableHolds(z: Size, wrap: Byte, table: seq<Entry>, u: nat, v: nat) {
    && u < z.wOut && v < z.hOut
    && 0 <= z.wOut * v + u < |table|
    && var e := table[z.wOut * v + u];
       if Blank(z, u, v) then e.x == -1 && e.y == -1 else e == Stored(EntryFor(z, u, v), wrap)
  }

  class UndistortMap {
    var size: Size
    var L: array<Entry>

    ghost predicate Valid()
      reads this, L
    {
      && L.Length == size.wOut * size.hOut
      && forall pix :: 0 <= pix < L.Length ==> Readable(size, L[pix])
    }

    constructor ()
      ensures Valid()
    {
      size := Size(0, 0, 0, 0);
      L := new Entry[0];
    }

    /** `gotMemory` is whether the table could be allocated, `wrap` the byte a weight of 256 turns into. */
    method InitResizeMap(wIn: int, hIn: int, wOut: nat, hOut: nat, gotMemory: bool, wrap: Byte) returns (r: int)
      modifies this
      ensures size == Size(wIn, hIn, wOut, hOut)
      ensures r == if gotMemory then 0 else -1
      ensures if gotMemory then Valid() && fresh(L) else L == old(L)
      ensures gotMemory ==> forall u: nat, v: nat :: u < wOut && v < hOut ==> TableHolds(size, wrap, L[..], u, v)
    {
      size := Size(wIn, hIn, wOut, hOut);
      if !gotMemory {
        return -1;
      }
      var table := new Entry[wOut * hOut](_ => Entry(-1, -1, 0, 0, 0, 0));
      L := table;
      for v := 0 to hOut
        modifies table
        invariant forall pix :: 0 <= pix < table.Length ==> Readable(size, table[pix])
        invariant forall u: nat, w: nat :: u < wOut && w < v ==> TableHolds(size, wrap, table[..], u, w)
      {
        for u := 0 to wOut
          modifies table
          invariant forall pix :: 0 <= pix < table.Length ==> Readable(size, table[pix])
          invariant forall u': nat, w: nat :: u' < wOut && w < hOut && (w < v || (w == v && u' < u)) ==>
                                                TableHolds(size, wrap, table[..], u', w)
        {
          ghost var before := table[..];
          FillPixel(size, wrap, table, u, v);
          forall u': nat, w: nat | u' < wOut && w < hOut && (w < v || (w == v && u' < u))
            ensures TableHolds(size, wrap, table[..], u', w)
          {
            OtherPixelKept(size, wrap, before, table[..], u, v, u', w);
          }
        }
      }
      return 0;
    }
  }

  method ResizeImage(input: array<Byte>, output: array<Byte>, undistortMap: UndistortMap) returns (r: int)
    requires undistortMap.Valid() && input != output
    requires input.Length == undistortMap.size.wIn * undistortMap.size.hIn && output.Length >= undistortMap.L.Length
    modifies output
    ensures r == 0
    ensures forall pix :: 0 <= pix < undistortMap.L.Length ==>
              output[pix] == Grey(undistortMap.size, undistortMap.L[pix], input[..])
    ensures forall k :: undistortMap.L.Length <= k < output.Length ==> output[k] == old(output[k])
  {
    var z, L := undistortMap.size, undistortMap.L;
    var nPix := z.wOut * z.hOut;
    for pix := 0 to nPix
      invariant forall k :: 0 <= k < pix ==> output[k] == Grey(z, L[k], input[..])
      invariant forall k :: pix <= k < output.Length ==> output[k] == old(output[k])
    {
      var e := L[pix];
      if e.x < 0 {
        output[pix] := 0;
        continue;
      }
      var x1, y1 := Uint16(e.x), Uint16(e.y);
      TapsInside(z, Loaded(e));
      var p0 := input[z.wIn * y1 + x1];
      var p1 := input[z.wIn * y1 + x1 + 1];
      var p2 := input[z.wIn * (y1 + 1) + x1];
      var p3 := input[z.wIn * (y1 + 1) + x1 + 1];
      InterpAtMost(e, p0, p1, p2, p3, 255);
      output[pix] := (p0 * e.f0 + p1 * e.f1 + p2 * e.f2 + p3 * e.f3) / 256;
    }
    return 0;
  }

  /** The three bytes of output pixel `pix`. */
  ghost predicate Coloured(z: Size, e: Entry, rgb: seq<Byte>, output: seq<Byte>, pix: nat)
    requires Readable(z, e) && |rgb| == 3 * (z.wIn * z.hIn) && 3 * pix + 2 < |output|
  {
    Colours(z, e, rgb) == (output[3 * pix], output[3 * pix + 1], output[3 * pix + 2])
  }

  /** One pixel of a colour image; the names of the taps are the original's. */
  method ColourPixel(z: Size, e: Entry, rgb: array<Byte>) returns (r: Byte, g: Byte, b: Byte)
    requires e.x >= 0 && Readable(z, e) && rgb.Length == 3 * (z.wIn * z.hIn)
    ensures Colours(z, e, rgb[..]) == (r, g, b)
  {
    var x1, y1 := Uint16(e.x), Uint16(e.y);
    TapsInside(z, Loaded(e));
    ghost var red, green, blue := Plane(rgb[..], 0), Plane(rgb[..], 1), Plane(rgb[..], 2);
    var i0, i1 := z.wIn * y1 + x1, z.wIn * y1 + x1 + 1;
    var i2, i3 := z.wIn * (y1 + 1) + x1, z.wIn * (y1 + 1) + x1 + 1;
    var p0, p4, p8 := rgb[i0 * 3], rgb[i0 * 3 + 1], rgb[i0 * 3 + 2];
    var p1, p5, p9 := rgb[i1 * 3], rgb[i1 * 3 + 1], rgb[i1 * 3 + 2];
    var p2, p6, p7 := rgb[i2 * 3], rgb[i2 * 3 + 1], rgb[i2 * 3 + 2];
    var p3, p10, p11 := rgb[i3 * 3], rgb[i3 * 3 + 1], rgb[i3 * 3 + 2];
    assert i0 == At(z, x1, y1) && i1 == At(z, x1 + 1, y1) && i2 == At(z, x1, y1 + 1) && i3 == At(z, x1 + 1, y1 + 1);
    assert red[i0] == p0 && red[i1] == p1 && red[i2] == p2 && red[i3] == p3;
    assert green[i0] == p4 && green[i1] == p5 && green[i2] == p6 && blue[i2] == p7;
    assert blue[i0] == p8 && blue[i1] == p9 && green[i3] == p10 && blue[i3] == p11;
    InterpAtMost(e, p0, p1, p2, p3, 255);
    InterpAtMost(e, p4, p5, p6, p7, 255);
    InterpAtMost(e, p8, p9, p10, p11, 255);
    r := (p0 * e.f0 + p1 * e.f1 + p2 * e.f2 + p3 * e.f3) / 256;
    g := (p4 * e.f0 + p5 * e.f1 + p6 * e.f2 + p7 * e.f3) / 256;
    b := (p8 * e.f0 + p9 * e.f1 + p10 * e.f2 + p11 * e.f3) / 256;
  }

  method Resize8uc3Image(rgbInput: array<Byte>, output: array<Byte>, undistortMap: UndistortMap) returns (r: int)
    requires undistortMap.Valid() && rgbInput != output
    requires rgbInput.Length == 3 * (undistortMap.size.wIn * undistortMap.size.hIn)
    requires output.Length >= 3 * undistortMap.L.Length
    modifies output
    ensures r == 0
    ensures forall pix :: 0 <= pix < undistortMap.L.Length ==>
              Coloured(undistortMap.size, undistortMap.L[pix], rgbInput[..], output[..], pix)
    ensures forall k :: 3 * undistortMap.L.Length <= k < output.Length ==> output[k] == old(output[k])
  {
    var z, L := undistortMap.size, undistortMap.L;
    var nPix := z.wOut * z.hOut;
    for pix := 0 to nPix
      invariant forall k :: 0 <= k < pix ==> Coloured(z, L[k], rgbInput[..], output[..], k)
      invariant forall k :: 3 * nPix <= k < output.Length ==> output[k] == old(output[k])
    {
      var outPix := pix * 3;
      var e := L[pix];
      ghost var before := output[..];
      if e.x < 0 {
        output[outPix] := 0;
        output[outPix + 1] := 0;
        output[outPix + 2] := 0;
      } else {
        var red, green, blue := ColourPixel(z, e, rgbInput);
        output[outPix] := red;
        output[outPix + 1] := green;
        output[outPix + 2] := blue;
      }
      forall k | 0 <= k < pix ensures Coloured(z, L[k], rgbInput[..], output[..], k) {
        assert Coloured(z, L[k], rgbInput[..], before, k);
      }
    }
    return 0;
  }

  /** A grey image resized as a whole. */
  ghost function GreyImage(z: Size, table: seq<Entry>, image: seq<Byte>): seq<nat>
    requires (forall i :: 0 <= i < |table| ==> Readable(z, table[i])) && |image| == z.wIn * z.hIn
  {
    seq(|table|, i requires 0 <= i < |table| && Readable(z, table[i]) => Grey(z, table[i], image))
  }

  /** The red plane of a resized colour image is the resized red plane. */
  lemma RedPlaneIsGreyImage(z: Size, table: seq<Entry>, rgb: seq<Byte>, output: seq<Byte>)
    requires (forall i :: 0 <= i < |table| ==> Readable(z, table[i])) && |rgb| == 3 * (z.wIn * z.hIn)
    requires |output| == 3 * |table| && forall i :: 0 <= i < |table| ==> Coloured(z, table[i], rgb, output, i)
    ensures Plane(output, 0) == GreyImage(z, table, Plane(rgb, 0))
  {
    var red, grey := Plane(output, 0), GreyImage(z, table, Plane(rgb, 0));
    forall i | 0 <= i < |table| ensures red[i] == grey[i] {
      assert Coloured(z, table[i], rgb, output, i);
    }
  }
}
