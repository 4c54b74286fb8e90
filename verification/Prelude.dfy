/** Small vocabulary shared by the other modules. */
module Prelude {

  /** Client slots of one channel. */
  const N_CLIENT := 16

  datatype Option<+T> = None | Some(value: T)

  type Byte = x: int | 0 <= x < 256

  function Min(a: int, b: int): (r: int)
    ensures r == a || r == b
    ensures r <= a && r <= b
  {
    if a < b then a else b
  }

  function Max(a: int, b: int): (r: int)
    ensures r == a || r == b
    ensures a <= r && b <= r
  {
    if a < b then b else a
  }

  function Repeat<T>(x: T, n: nat): (s: seq<T>)
    ensures |s| == n
    ensures forall i :: 0 <= i < n ==> s[i] == x
  {
    if n == 0 then [] else Repeat(x, n - 1) + [x]
  }

  /** The numbers 0, 1, ..., n - 1. */
  ghost function Below(n: nat): (s: set<nat>)
    ensures |s| == n
    ensures forall i: nat :: i in s <==> i < n
  {
    if n == 0 then {} else Below(n - 1) + {n - 1}
  }

  lemma SubsetSize<T>(a: set<T>, b: set<T>)
    requires a <= b
    ensures |a| <= |b|
  {
    assert b == a + (b - a);
  }

  lemma MulStep(a: nat, b: nat, d: nat)
    requires a < b
    ensures a * d + d <= b * d
  {
    assert b * d == a * d + (b - a) * d;
    MulAtLeast(b - a, d);
  }

  lemma MulAtLeast(a: nat, d: nat)
    requires a >= 1
    ensures a * d >= d
  {
  }

  lemma DivUnique(n: nat, d: nat, q: nat)
    requires d > 0 && q * d <= n < q * d + d
    ensures n / d == q && n % d == n - q * d
  {
    var p := n / d;
    assert n == p * d + n % d;
    if p < q {
      MulStep(p, q, d);
    } else if q < p {
      MulStep(q, p, d);
    }
  }

  /** A stretch of data cut into pieces of one size, ignoring an incomplete one at the end. */
  function Split<T>(size: nat, data: seq<T>): (r: seq<seq<T>>)
    requires size > 0
    ensures |r| * size <= |data| < |r| * size + size
    ensures forall i :: 0 <= i < |r| ==> |r[i]| == size
    decreases |data|
  {
    if |data| < size then [] else [data[..size]] + Split(size, data[size..])
  }

  lemma {:induction false} SplitAt<T>(size: nat, data: seq<T>, i: nat)
    requires size > 0 && i < |Split(size, data)|
    ensures i * size + size <= |data|
    ensures Split(size, data)[i] == data[i * size..i * size + size]
  {
    MulStep(i, |Split(size, data)|, size);
    if i > 0 {
      SplitAt(size, data[size..], i - 1);
      var at := (i - 1) * size;
      assert i * size == at + size;
    }
  }
}
