/**
 * The bilinear lookup table: for each output pixel, the top left corner of four
 * input pixels and their weights, computed from exact fractions. The weights are
 * shares of 256, each cut down to a whole number, so that four of them sum to
 * between 253 and 256. Inputs too small to have four pixels around a point leave
 * the table blank.
 */
module ResizeTable {
  import opened Prelude

  datatype Size = Size(wIn: int, hIn: int, wOut: nat, hOut: nat)

  /** Corner and weights; a corner of -1 marks a blank pixel. */
  datatype Entry = Entry(x: int, y: int, f0: nat, f1: nat, f2: nat, f3: nat)

  /** A cast of the fraction `n / d` to an integer. */
  function Truncated(n: int, d: nat): int
    requires d > 0
  {
    if n >= 0 then n / d else -(-n / d)
  }

  /** The integer part of the coordinate that output coordinate `u` maps to. */
  function Whole(sideIn: int, sideOut: nat, u: nat): int
    requires u < sideOut
  {
    Truncated((sideIn - 1) * u, sideOut)
  }

  /** The rest of that coordinate, as a numerator over `sideOut`. */
  function Rest(sideIn: int, sideOut: nat, u: nat): int
    requires u < sideOut
  {
    (sideIn - 1) * u - Whole(sideIn, sideOut, u) * sideOut
  }

  predicate Blank(z: Size, u: nat, v: nat)
    requires u < z.wOut && v < z.hOut
  {
    var x, y := Whole(z.wIn, z.wOut, u), Whole(z.hIn, z.hOut, v);
    (x < 0 || x + 1 > z.wIn - 1) || (y < 0 || y + 1 > z.hIn - 1)
  }

  lemma ProductAtMost(a: nat, b: nat, c: nat)
    requires a <= b
    ensures a * c <= b * c
  {
  }

  lemma ProductLess(a: nat, b: nat, c: nat)
    requires b < c && 0 < a
    ensures a * b < a * c
  {
  }

  lemma QuotientBelow(n: nat, m: nat, d: nat)
    requires d > 0 && n < m * d
    ensures n / d < m
  {
    assert n / d * d <= n;
    if n / d >= m {
      ProductAtMost(m, n / d, d);
    }
  }

  lemma QuotientRest(n: nat, d: nat)
    requires d > 0
    ensures 0 <= n - n / d * d < d
  {
    assert n == n / d * d + n % d;
  }

  lemma Quotient(m: nat, u: nat, d: nat)
    requires u < d
    ensures 0 <= m * u - m * u / d * d < d
    ensures m > 0 ==> 0 <= m * u / d < m
  {
    QuotientRest(m * u, d);
    if m > 0 {
      ProductLess(m, u, d);
      QuotientBelow(m * u, m, d);
    }
  }

  lemma CoordinateInside(sideIn: int, sideOut: nat, u: nat)
    requires u < sideOut
    ensures sideIn >= 2 ==> 0 <= Whole(sideIn, sideOut, u) <= sideIn - 2
    ensures sideIn >= 1 ==> 0 <= Rest(sideIn, sideOut, u) < sideOut
    ensures sideIn < 2 ==> Whole(sideIn, sideOut, u) + 1 > sideIn - 1
  {
    if sideIn >= 1 {
      ScaledUp(sideIn, sideOut, u);
    } else {
      ScaledDown(sideIn, sideOut, u);
    }
  }

  lemma ScaledUp(sideIn: nat, sideOut: nat, u: nat)
    requires u < sideOut && sideIn >= 1
    ensures sideIn >= 2 ==> 0 <= Whole(sideIn, sideOut, u) <= sideIn - 2
    ensures sideIn == 1 ==> Whole(sideIn, sideOut, u) == 0
    ensures 0 <= Rest(sideIn, sideOut, u) < sideOut
  {
    Quotient(sideIn - 1, u, sideOut);
    assert (sideIn - 1) * u >= 0;
  }

  lemma ScaledDown(sideIn: int, sideOut: nat, u: nat)
    requires u < sideOut && sideIn < 1
    ensures Whole(sideIn, sideOut, u) > sideIn - 2
  {
    var m := 1 - sideIn;
    Quotient(m, u, sideOut);
    assert -((sideIn - 1) * u) == m * u;
  }

  /** No pixel is blank, or all are: it depends only on the input having two rows and two columns. */
  lemma BlankExactly(z: Size, u: nat, v: nat)
    requires u < z.wOut && v < z.hOut
    ensures Blank(z, u, v) <==> z.wIn < 2 || z.hIn < 2
  {
    CoordinateInside(z.wIn, z.wOut, u);
    CoordinateInside(z.hIn, z.hOut, v);
  }

  // ---------------------------------------------------------------------------
  // Weights

  function Weight(share: nat, whole: nat): nat
    requires whole > 0
  {
    share * 256 / whole
  }

  /** How much of one input pixel's area around the coordinate lies towards each corner, out of `w * h`. */
  function Shares(a: nat, w: nat, b: nat, h: nat): (n: (nat, nat, nat, nat))
    requires a < w && b < h
  {
    ((w - a) * (h - b), a * (h - b), b * (w - a), a * b)
  }

  /** The weights for the fractions `a / w` and `b / h`. */
  function Weights(a: nat, w: nat, b: nat, h: nat): (nat, nat, nat, nat)
    requires a < w && b < h
  {
    assert w * h > 0;
    var n := Shares(a, w, b, h);
    (Weight(n.0, w * h), Weight(n.1, w * h), Weight(n.2, w * h), Weight(n.3, w * h))
  }

  lemma SharesSum(a: nat, w: nat, b: nat, h: nat)
    requires a < w && b < h
    ensures var n := Shares(a, w, b, h);
            n.1 + n.3 == a * h && n.2 + n.3 == b * w && n.0 + n.1 + n.2 + n.3 == w * h
  {
    assert (w - a) * (h - b) + a * (h - b) == w * (h - b);
    assert a * (h - b) + a * b == a * h;
    assert b * (w - a) + a * b == b * w;
  }

  lemma Spread(n0: int, n1: int, n2: int, n3: int, base: int, right: int, down: int)
    ensures n0 * base + n1 * (base + right) + n2 * (base + down) + n3 * (base + right + down)
         == (n0 + n1 + n2 + n3) * base + (n1 + n3) * right + (n2 + n3) * down
  {
  }

  /**
   * The shares reproduce every image that rises evenly, by `right` a column and
   * `down` a row, at the very coordinate: `base + right * a / w + down * b / h`.
   */
  lemma SharesAreBilinear(a: nat, w: nat, b: nat, h: nat, base: int, right: int, down: int)
    requires a < w && b < h
    ensures var n := Shares(a, w, b, h);
            n.0 * base + n.1 * (base + right) + n.2 * (base + down) + n.3 * (base + right + down) ==
            w * h * base + a * h * right + b * w * down
  {
    var n := Shares(a, w, b, h);
    SharesSum(a, w, b, h);
    Spread(n.0, n.1, n.2, n.3, base, right, down);
  }

  lemma WeightBounds(share: nat, whole: nat)
    requires whole > 0
    ensures Weight(share, whole) * whole <= share * 256 < Weight(share, whole) * whole + whole
  {
  }

  lemma FourTimes(a: nat, b: nat, c: nat, d: nat, whole: nat)
    ensures (a + b + c + d) * whole == a * whole + b * whole + c * whole + d * whole
  {
  }

  lemma SumBetween(sum: nat, whole: nat)
    requires whole > 0 && sum * whole <= 256 * whole < sum * whole + 4 * whole
    ensures 253 <= sum <= 256
  {
    if sum > 256 {
      MulStep(256, sum, whole);
    } else if sum < 253 {
      ProductAtMost(sum, 252, whole);
    }
  }

  /** Truncation loses less than one from each of the four weights. */
  lemma WeightsSum(n0: nat, n1: nat, n2: nat, n3: nat, whole: nat)
    requires whole > 0 && n0 + n1 + n2 + n3 == whole
    ensures 253 <= Weight(n0, whole) + Weight(n1, whole) + Weight(n2, whole) + Weight(n3, whole) <= 256
  {
    WeightBounds(n0, whole);
    WeightBounds(n1, whole);
    WeightBounds(n2, whole);
    WeightBounds(n3, whole);
    var a, b, c, d := Weight(n0, whole), Weight(n1, whole), Weight(n2, whole), Weight(n3, whole);
    FourTimes(a, b, c, d, whole);
    SumBetween(a + b + c + d, whole);
  }

  lemma FirstWeight(share: nat, whole: nat)
    requires whole > 0 && share <= whole
    ensures Weight(share, whole) <= 256
    ensures Weight(share, whole) == 256 <==> share == whole
  {
    WeightBounds(share, whole);
    if share == whole {
      DivUnique(whole * 256, whole, 256);
    } else if Weight(share, whole) >= 256 {
      ProductAtMost(256, Weight(share, whole), whole);
      assert false;
    }
  }

  ghost predicate Weighted(f: (nat, nat, nat, nat)) {
    253 <= f.0 + f.1 + f.2 + f.3 <= 256
  }

  /** The whole area belongs to one corner exactly where the coordinate has no fraction. */
  lemma FullShare(a: nat, w: nat, b: nat, h: nat)
    requires a < w && b < h
    ensures (w - a) * (h - b) <= w * h && a * (h - b) < w * h && b * (w - a) < w * h && a * b < w * h
    ensures (w - a) * (h - b) == w * h <==> a == 0 && b == 0
  {
    SharesSum(a, w, b, h);
    Positive(w - a, h - b);
    if a > 0 {
      Positive(a, h - b);
    }
    if b > 0 {
      Positive(b, w - a);
    }
  }

  lemma Positive(a: nat, b: nat)
    requires a > 0 && b > 0
    ensures a * b > 0
  {
  }

  /** Only the first weight can be 256, and it is exactly where the coordinate has no fraction at all. */
  lemma WeightsLaws(a: nat, w: nat, b: nat, h: nat)
    requires a < w && b < h
    ensures Weighted(Weights(a, w, b, h))
    ensures Weights(a, w, b, h).0 == 256 <==> a == 0 && b == 0
    ensures Weights(a, w, b, h).1 < 256 && Weights(a, w, b, h).2 < 256 && Weights(a, w, b, h).3 < 256
  {
    SharesSum(a, w, b, h);
    FullShare(a, w, b, h);
    var n0, n1, n2, n3, whole := (w - a) * (h - b), a * (h - b), b * (w - a), a * b, w * h;
    assert Weights(a, w, b, h) == (Weight(n0, whole), Weight(n1, whole), Weight(n2, whole), Weight(n3, whole));
    WeightsSum(n0, n1, n2, n3, whole);
    FirstWeight(n0, whole);
    FirstWeight(n1, whole);
    FirstWeight(n2, whole);
    FirstWeight(n3, whole);
  }

  // ---------------------------------------------------------------------------
  // Entries

  function EntryFor(z: Size, u: nat, v: nat): Entry
    requires u < z.wOut && v < z.hOut && !Blank(z, u, v)
  {
    CoordinateInside(z.wIn, z.wOut, u);
    CoordinateInside(z.hIn, z.hOut, v);
    BlankExactly(z, u, v);
    var f := Weights(Rest(z.wIn, z.wOut, u), z.wOut, Rest(z.hIn, z.hOut, v), z.hOut);
    Entry(Whole(z.wIn, z.wOut, u), Whole(z.hIn, z.hOut, v), f.0, f.1, f.2, f.3)
  }

  ghost predicate CornersInside(z: Size, e: Entry) {
    0 <= e.x && e.x + 1 < z.wIn && 0 <= e.y && e.y + 1 < z.hIn
  }

  /** All four corners lie in the input, and the weights are right. */
  ghost predicate Usable(z: Size, e: Entry) {
    CornersInside(z, e) && Weighted((e.f0, e.f1, e.f2, e.f3))
  }

  /** Enough to read the input through the entry: the weights are bytes and make no value too large. */
  ghost predicate Legible(z: Size, e: Entry) {
    && CornersInside(z, e)
    && e.f0 < 256 && e.f1 < 256 && e.f2 < 256 && e.f3 < 256
    && e.f0 + e.f1 + e.f2 + e.f3 <= 256
  }

  lemma EntryIsUsable(z: Size, u: nat, v: nat)
    requires u < z.wOut && v < z.hOut && !Blank(z, u, v)
    ensures Usable(z, EntryFor(z, u, v))
  {
    CoordinateInside(z.wIn, z.wOut, u);
    CoordinateInside(z.hIn, z.hOut, v);
    BlankExactly(z, u, v);
    WeightsLaws(Rest(z.wIn, z.wOut, u), z.wOut, Rest(z.hIn, z.hOut, v), z.hOut);
  }

  /** The corner of output pixel (u, v) is the last input pixel at or before its coordinate, by column and by row. */
  lemma CornerExactly(z: Size, u: nat, v: nat)
    requires u < z.wOut && v < z.hOut && !Blank(z, u, v)
    ensures var e := EntryFor(z, u, v);
            && e.x * z.wOut <= (z.wIn - 1) * u < (e.x + 1) * z.wOut
            && e.y * z.hOut <= (z.hIn - 1) * v < (e.y + 1) * z.hOut
  {
    CoordinateInside(z.wIn, z.wOut, u);
    CoordinateInside(z.hIn, z.hOut, v);
    BlankExactly(z, u, v);
    var e := EntryFor(z, u, v);
    assert (e.x + 1) * z.wOut == e.x * z.wOut + z.wOut && (e.y + 1) * z.hOut == e.y * z.hOut + z.hOut;
  }

  /** The weights survive being stored as bytes except where both fractions vanish. */
  lemma BytesHoldWeightsExactly(z: Size, u: nat, v: nat)
    requires u < z.wOut && v < z.hOut && !Blank(z, u, v)
    ensures var e := EntryFor(z, u, v);
            && e.f0 <= 256 && e.f1 < 256 && e.f2 < 256 && e.f3 < 256
            && (e.f0 < 256 <==> !(Rest(z.wIn, z.wOut, u) == 0 && Rest(z.hIn, z.hOut, v) == 0))
  {
    CoordinateInside(z.wIn, z.wOut, u);
    CoordinateInside(z.hIn, z.hOut, v);
    BlankExactly(z, u, v);
    var a, b := Rest(z.wIn, z.wOut, u), Rest(z.hIn, z.hOut, v);
    WeightsLaws(a, z.wOut, b, z.hOut);
  }

  /** Conversion to 16 bits, with and without a sign, as compilers do it: the low bits stay. */
  function Int16(v: int): int {
    if v % 0x1_0000 < 0x8000 then v % 0x1_0000 else v % 0x1_0000 - 0x1_0000
  }

  function Uint16(v: int): int {
    v % 0x1_0000
  }

  /**
   * The entry as it is stored, corners in 16 bits and weights in bytes. The language
   * leaves open which byte a weight of 256 turns into; `wrap` stands for it.
   */
  function Stored(e: Entry, wrap: Byte): Entry {
    Entry(Int16(e.x), Int16(e.y), if e.f0 == 256 then wrap else e.f0, e.f1, e.f2, e.f3)
  }

  /** The entry as it is used, unless its first corner reads as blank. */
  function Loaded(e: Entry): Entry {
    e.(x := Uint16(e.x), y := Uint16(e.y))
  }

  ghost predicate Readable(z: Size, e: Entry) {
    e.x < 0 || Legible(z, Loaded(e))
  }

  lemma StoredIsReadable(z: Size, u: nat, v: nat, wrap: Byte)
    requires u < z.wOut && v < z.hOut && !Blank(z, u, v)
    ensures var e, s := EntryFor(z, u, v), Stored(EntryFor(z, u, v), wrap);
            && Readable(z, s)
            && (e.f0 < 256 ==> s == e.(x := s.x, y := s.y))
            && (e.f0 == 256 ==> e.f1 == 0 && e.f2 == 0 && e.f3 == 0)
  {
    EntryIsUsable(z, u, v);
    BytesHoldWeightsExactly(z, u, v);
  }

  /**
   * A corner is still the right one after 16 bits if and only if it is in the first
   * 32768 columns and the first 65536 rows, the row having no sign when it is used.
   */
  lemma CornersSurviveExactly(z: Size, u: nat, v: nat, wrap: Byte)
    requires u < z.wOut && v < z.hOut && !Blank(z, u, v)
    ensures var e, s := EntryFor(z, u, v), Stored(EntryFor(z, u, v), wrap);
            && (s.x >= 0 && Loaded(s).x == e.x && Loaded(s).y == e.y <==> e.x < 0x8000 && e.y < 0x1_0000)
            && (z.wIn <= 0x8001 && z.hIn <= 0x1_0001 ==> e.x < 0x8000 && e.y < 0x1_0000)
  {
    EntryIsUsable(z, u, v);
  }
}
