/**
 * The suggested size of a camera pipe: room for eight images, clamped, and rounded
 * up to a power of two by smearing the highest bit over all lower ones. The size of
 * an image follows from its two sides and its format. Sides whose product does not
 * fit an `int` are left out, as the program's result for them is undefined.
 */
module PipeSize {
  import opened Prelude

  const MIN_IMAGES := 8
  const MIB := 0x10_0000
  const INT_MAX := 0x7fff_ffff

  // ---------------------------------------------------------------------------
  // Bits of natural numbers

  function Shr(n: nat, k: nat): nat {
    if k == 0 then n else Shr(n / 2, k - 1)
  }

  function Or(a: nat, b: nat): nat {
    if a == 0 && b == 0 then 0 else 2 * Or(a / 2, b / 2) + Max(a % 2, b % 2)
  }

  /** `k` one bits. */
  function Ones(k: nat): nat {
    if k == 0 then 0 else 2 * Ones(k - 1) + 1
  }

  function Pow2(k: nat): (p: nat)
    ensures p == Ones(k) + 1
  {
    if k == 0 then 1 else 2 * Pow2(k - 1)
  }

  lemma {:induction false} ShrTwice(n: nat, j: nat, k: nat)
    ensures Shr(Shr(n, j), k) == Shr(n, j + k)
  {
    if j > 0 {
      ShrTwice(n / 2, j - 1, k);
    }
  }

  lemma {:induction false} ShrOnes(s: nat, j: nat)
    requires j <= s
    ensures Shr(Ones(s), j) == Ones(s - j)
  {
    if j > 0 {
      assert Ones(s) / 2 == Ones(s - 1);
      ShrOnes(s - 1, j - 1);
    }
  }

  lemma {:induction false} ShrZero(k: nat)
    ensures Shr(0, k) == 0
  {
    if k > 0 {
      ShrZero(k - 1);
    }
  }

  lemma {:induction false} ShrOr(a: nat, b: nat, t: nat)
    ensures Shr(Or(a, b), t) == Or(Shr(a, t), Shr(b, t))
    decreases t
  {
    if t > 0 {
      if a == 0 && b == 0 {
        ShrZero(t);
      } else {
        assert Or(a, b) / 2 == Or(a / 2, b / 2);
        ShrOr(a / 2, b / 2, t - 1);
      }
    }
  }

  lemma {:induction false} OrZero(a: nat)
    ensures Or(a, 0) == a
  {
    if a > 0 {
      OrZero(a / 2);
    }
  }

  lemma {:induction false} OrOnes(a: nat, s: nat, k: nat)
    requires Shr(a, s) == Ones(k)
    ensures Or(a, Ones(s)) == Ones(k + s)
    decreases s
  {
    if s == 0 {
      OrZero(a);
    } else {
      assert Ones(s) / 2 == Ones(s - 1) && Ones(s) % 2 == 1;
      OrOnes(a / 2, s - 1, k);
    }
  }

  /** The highest `s` of the `w` bits of `n` are ones. */
  ghost predicate Filled(n: nat, w: nat, s: nat) {
    s <= w && Shr(n, w - s) == Ones(s)
  }

  lemma SmearHalf(n: nat, w: nat, s: nat)
    requires Filled(n, w, s) && 2 * s <= w
    ensures Filled(Or(n, Shr(n, s)), w, 2 * s)
  {
    var t := w - 2 * s;
    ShrOr(n, Shr(n, s), t);
    ShrTwice(n, s, t);
    ShrTwice(n, t, s);
    OrOnes(Shr(n, t), s, s);
  }

  lemma SmearRest(n: nat, w: nat, s: nat)
    requires Filled(n, w, s) && 2 * s > w
    ensures Filled(Or(n, Shr(n, s)), w, w)
  {
    ShrTwice(n, w - s, 2 * s - w);
    ShrOnes(s, 2 * s - w);
    OrOnes(n, w - s, s);
  }

  lemma SmearNothing(n: nat, w: nat, k: nat)
    requires Filled(n, w, w) && k >= w
    ensures Or(n, Shr(n, k)) == n
  {
    ShrTwice(n, w, k - w);
    ShrOnes(w, w);
    ShrZero(k - w);
    OrZero(n);
  }

  /** The highest `k` bits are ones, or all of them if there are fewer. */
  ghost predicate Smeared(n: nat, w: nat, k: nat) {
    Filled(n, w, Min(k, w))
  }

  /** One smear doubles the run of ones at the top. */
  lemma SmearDoubles(n: nat, w: nat, k: nat)
    requires Smeared(n, w, k)
    ensures Smeared(Or(n, Shr(n, k)), w, 2 * k)
  {
    if 2 * k <= w {
      SmearHalf(n, w, k);
    } else if k < w {
      SmearRest(n, w, k);
    } else {
      SmearNothing(n, w, k);
    }
  }

  /** The number of bits of `n`. */
  lemma {:induction false} Width(n: nat) returns (w: nat)
    requires n > 0
    ensures w > 0 && Filled(n, w, 1) && Pow2(w - 1) <= n < Pow2(w)
    ensures forall k :: n < Pow2(k) ==> w <= k
    decreases n
  {
    if n == 1 {
      w := 1;
      assert Shr(n, 0) == 1 && Ones(1) == 1 && Pow2(0) == 1 && Pow2(1) == 2;
    } else {
      var v := Width(n / 2);
      w := v + 1;
    }
    forall k: nat | n < Pow2(k) ensures w <= k {
      PowGrows(w - 1, k);
    }
  }

  lemma {:induction false} PowGrows(j: nat, k: nat)
    ensures Pow2(j) < Pow2(k) <==> j < k
  {
    if j > 0 && k > 0 {
      PowGrows(j - 1, k - 1);
    }
  }

  // ---------------------------------------------------------------------------
  // The estimate

  /** Bytes per pixel of an image format, as a fraction; unknown formats count as RGB. */
  function BytesPerPixel(format: int): (nat, nat) {
    match format
    case 0 => (1, 1)            // RAW8
    case 1 => (3, 2)            // NV12
    case 2 => (2, 1)            // STEREO_RAW8
    case 3 => (1, 10)           // H264
    case 4 => (1, 10)           // H265
    case 5 => (2, 1)            // RAW16
    case 6 => (3, 2)            // NV21
    case 7 => (1, 5)            // JPG
    case 8 => (3, 2)            // YUV422
    case 9 => (3, 2)            // YUV420
    case 10 => (3, 1)           // RGB
    case 11 => (4, 1)           // FLOAT32
    case 12 => (3, 1)           // STEREO_NV21
    case 13 => (6, 1)           // STEREO_RGB
    case 14 => (3, 2)           // YUV422_UYVY
    case 15 => (3, 1)           // STEREO_NV12
    case 16 => (5, 4)           // RAW10
    case 17 => (3, 2)           // RAW12
    case _ => (3, 1)
  }

  /** The largest number the estimate passes through. */
  function Product(format: int, width: int, height: int): int {
    width * height * MIN_IMAGES * BytesPerPixel(format).0
  }

  function Clamped(size: int): (r: int)
    ensures MIB <= r <= 128 * MIB
    ensures MIB <= size <= 128 * MIB ==> r == size
  {
    Max(Min(size, 128 * MIB), MIB)
  }

  function Estimate(format: int, width: int, height: int): int {
    Clamped(Product(format, width, height) / BytesPerPixel(format).1)
  }

  /** `p` is the least power of two that is at least `n`. */
  ghost predicate LeastPower(p: int, n: int) {
    n <= p && (exists k: nat :: p == Pow2(k)) && forall k: nat :: n <= Pow2(k) ==> p <= Pow2(k)
  }

  method SuggestCamPipeSize(format: int, width: int, height: int) returns (size: int)
    requires width >= 1 && height >= 1 ==> Product(format, width, height) <= INT_MAX
    ensures width < 1 || height < 1 ==> size == -1
    ensures width >= 1 && height >= 1 ==>
              LeastPower(size, Estimate(format, width, height)) && MIB <= size <= 128 * MIB
  {
    if width < 1 || height < 1 {
      return -1;
    }
    var rate := BytesPerPixel(format);
    size := width * height * MIN_IMAGES * rate.0 / rate.1;
    if size > 128 * MIB {
      size := 128 * MIB;
    }
    if size < MIB {
      size := MIB;
    }
    ghost var estimate := size;
    assert estimate == Estimate(format, width, height);
    size := RoundUp(size);
    ClampIsPower(size, estimate);
  }

  lemma PowersAt()
    ensures Pow2(27) == 128 * MIB && Pow2(31) == INT_MAX + 1
  {
    assert Pow2(9) == 512;
    assert Pow2(18) == 0x4_0000;
    assert Pow2(27) == 0x800_0000;
  }

  lemma ClampIsPower(p: int, n: int)
    requires LeastPower(p, n) && n <= 128 * MIB
    ensures p <= 128 * MIB
  {
    PowersAt();
    var k: nat := 27;
    assert n <= Pow2(k);
  }

  lemma WidthFits(n: nat, w: nat)
    requires n <= INT_MAX && forall k :: n < Pow2(k) ==> w <= k
    ensures w <= 31
  {
    PowersAt();
    var k: nat := 31;
    assert n < Pow2(k);
  }

  /** Once all bits below the highest are ones, the next number is the power of two. */
  lemma AllOnes(n: nat, w: nat, m: nat, k: nat)
    requires n > 0 && w > 0 && Pow2(w - 1) <= n < Pow2(w) && Smeared(m, w, k) && w <= k
    ensures LeastPower(m + 1, n + 1)
  {
    assert m + 1 == Pow2(w);
    forall j: nat | n + 1 <= Pow2(j) ensures m + 1 <= Pow2(j) {
      PowGrows(w - 1, j);
      PowGrows(j, w);
    }
  }

  /** Rounding up to a power of two, on 32 bits. */
  method RoundUp(n: nat) returns (size: nat)
    requires 2 <= n <= INT_MAX
    ensures LeastPower(size, n)
  {
    size := n - 1;
    ghost var w := Width(size);
    WidthFits(size, w);
    size := Smear(size, w, 1);
    size := Smear(size, w, 2);
    size := Smear(size, w, 4);
    size := Smear(size, w, 8);
    size := Smear(size, w, 16);
    AllOnes(n - 1, w, size, 32);
    size := size + 1;
  }

  /** One line of the smear. */
  method Smear(n: nat, ghost w: nat, k: nat) returns (size: nat)
    requires Smeared(n, w, k)
    ensures Smeared(size, w, 2 * k)
  {
    size := Or(n, Shr(n, k));
    SmearDoubles(n, w, k);
  }

  lemma EstimateGrows(format: int, width: int, height: int, width': int, height': int)
    requires 1 <= width <= width' && 1 <= height <= height'
    ensures Estimate(format, width, height) <= Estimate(format, width', height')
  {
    var (n, d) := BytesPerPixel(format);
    assert width * height <= width' * height <= width' * height';
    var p, p' := Product(format, width, height), Product(format, width', height');
    assert p <= p' by {
      assert width * height * MIN_IMAGES <= width' * height' * MIN_IMAGES;
    }
    assert p / d <= p' / d;
  }

  /** A larger image never gets a smaller pipe. */
  lemma SizeGrows(format: int, width: int, height: int, width': int, height': int, p: int, p': int)
    requires 1 <= width <= width' && 1 <= height <= height'
    requires LeastPower(p, Estimate(format, width, height)) && LeastPower(p', Estimate(format, width', height'))
    ensures p <= p'
  {
    EstimateGrows(format, width, height, width', height');
    var k: nat :| p' == Pow2(k);
  }

  // ---------------------------------------------------------------------------
  // Do eight images fit?

  /** Bits per pixel of the uncompressed formats, both images of a stereo pair counted. */
  function BitsPerPixel(format: int): Option<nat> {
    match format
    case 0 => Some(8)           // RAW8
    case 1 => Some(12)          // NV12
    case 2 => Some(16)          // STEREO_RAW8
    case 5 => Some(16)          // RAW16
    case 6 => Some(12)          // NV21
    case 8 => Some(16)          // YUV422
    case 9 => Some(12)          // YUV420
    case 10 => Some(24)         // RGB
    case 11 => Some(32)         // FLOAT32
    case 12 => Some(24)         // STEREO_NV21
    case 13 => Some(48)         // STEREO_RGB
    case 14 => Some(16)         // YUV422_UYVY
    case 15 => Some(24)         // STEREO_NV12
    case 16 => Some(10)         // RAW10
    case 17 => Some(12)         // RAW12
    case 18 => Some(14)         // RAW14
    case _ => None
  }

  /** Bytes of eight images: as many as one image has bits. */
  function EightImages(format: int, width: int, height: int): int
    requires BitsPerPixel(format).Some?
  {
    width * height * BitsPerPixel(format).value
  }

  /** The estimate is that of eight images, but for the two YUV422 formats, taken for 12 bits, and RAW14, for 24. */
  lemma EstimateIsEightImages(format: int, width: int, height: int)
    requires width >= 1 && height >= 1 && BitsPerPixel(format).Some?
    requires EightImages(format, width, height) <= 128 * MIB
    ensures format !in {8, 14, 18} ==> Estimate(format, width, height) == Max(EightImages(format, width, height), MIB)
    ensures format in {8, 14} ==> Estimate(format, width, height) == Max(width * height * 12, MIB)
    ensures format == 18 ==> Estimate(format, width, height) >= EightImages(format, width, height)
  {
    var pixels := width * height;
    assert pixels >= 1;
    assert Product(format, width, height) == pixels * 8 * BytesPerPixel(format).0;
  }

  lemma LeastPowerIsTight(p: int, n: int)
    requires LeastPower(p, n) && n >= 2
    ensures n <= p < 2 * n
  {
    var k: nat :| p == Pow2(k);
    if k > 0 && p >= 2 * n {
      assert p == 2 * Pow2(k - 1);
      assert n <= Pow2(k - 1);
    }
  }

  /** Two to the `k` is at least a mebibyte and `low`, but less than `high`. */
  ghost predicate PowerBetween(low: int, high: int, k: nat) {
    low <= Pow2(k) < high && 0x10_0000 <= Pow2(k)
  }

  lemma NextPowerReaches(low: int, high: int, p: int)
    requires LeastPower(p, Max(low, MIB))
    ensures high <= p <==> !exists k: nat :: PowerBetween(low, high, k)
  {
    var least: nat :| p == Pow2(least);
    assert PowerBetween(low, high, least) <==> p < high;
    forall k: nat | PowerBetween(low, high, k) ensures p < high {
      assert Max(low, MIB) <= Pow2(k);
    }
  }

  /**
   * The suggested size has room for eight images of an uncompressed format, and is less
   * than twice that or than two mebibytes. For the YUV422 formats it has exactly when no
   * power of two lies between twelve and sixteen bits a pixel.
   */
  lemma EightImagesFitExactly(format: int, width: int, height: int, p: int)
    requires width >= 1 && height >= 1 && BitsPerPixel(format).Some?
    requires EightImages(format, width, height) <= 128 * MIB && LeastPower(p, Estimate(format, width, height))
    ensures format !in {8, 14} ==> EightImages(format, width, height) <= p
    ensures format !in {8, 14, 18} ==> p < 2 * Max(EightImages(format, width, height), 0x10_0000)
    ensures format in {8, 14} ==>
              (EightImages(format, width, height) <= p <==>
               !exists k: nat :: PowerBetween(width * height * 12, width * height * 16, k))
  {
    EstimateIsEightImages(format, width, height);
    if format in {8, 14} {
      var n := width * height;
      assert n >= 1 && EightImages(format, width, height) == n * 16;
      NextPowerReaches(n * 12, n * 16, p);
    } else {
      LeastPowerIsTight(p, Estimate(format, width, height));
    }
  }

  lemma PowersAround()
    ensures Pow2(23) == 0x80_0000 && Pow2(24) == 0x100_0000 && Pow2(25) == 0x200_0000
  {
    PowersAt();
    assert Pow2(27) == 2 * Pow2(26) && Pow2(26) == 2 * Pow2(25);
  }

  lemma SixteenMebibytes(p: int)
    requires LeastPower(p, 15840000)
    ensures p == 0x100_0000
  {
    LeastPowerIsTight(p, 15840000);
    var k: nat :| p == Pow2(k);
    PowersAround();
    PowGrows(23, k);
    PowGrows(k, 25);
  }

  /** A YUV422 image of 1200 by 1100 gets a pipe for fewer than seven. */
  lemma ShortPipe(p: int)
    requires LeastPower(p, Estimate(8, 1200, 1100))
    ensures p == 0x100_0000 && 7 * (1200 * 1100 * 2) > p
  {
    EstimateIsEightImages(8, 1200, 1100);
    SixteenMebibytes(p);
  }
}
