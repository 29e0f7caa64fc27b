/**
 The numeric vocabulary shared by the signature cipher, the capture aggregator
 and the verification scoring: JavaScript's `Math.round`, sums, mean and
 standard deviation over `real`, an abstract square root, and bitwise XOR on
 naturals.
 */
module Numeric {

  /** A square root as far as this model needs one: non-negative on
      non-negative inputs and zero exactly at zero. Nothing else about
      `Math.sqrt` is assumed. */
  type SqrtFn = f: real -> real | forall x :: 0.0 <= x ==> 0.0 <= f(x) && (f(x) == 0.0 <==> x == 0.0)
    witness (x: real) => x

  /** The square root used everywhere in the model; an unspecified member of `SqrtFn`. */
  const Sqrt: SqrtFn

  function Abs(x: real): (r: real)
    ensures 0.0 <= r
    ensures r == x || r == -x
  {
    if x < 0.0 then -x else x
  }

  function AbsInt(x: int): (r: nat)
    ensures r == x || r == -x
  {
    if x < 0 then -x else x
  }

  function Max(a: int, b: int): (r: int)
    ensures a <= r && b <= r
    ensures r == a || r == b
  {
    if a < b then b else a
  }

  function Min(a: int, b: int): (r: int)
    ensures r <= a && r <= b
    ensures r == a || r == b
  {
    if a < b then a else b
  }

  /** JavaScript's `Math.round`: the nearest integer, halves rounded up. */
  function Round(x: real): (r: int)
    ensures r as real - 0.5 <= x < r as real + 0.5
  {
    (x + 0.5).Floor
  }

  lemma RoundMonotone(x: real, y: real)
    requires x <= y
    ensures Round(x) <= Round(y)
  {
  }

  /** `Round` is the identity on integers. */
  lemma RoundOfInt(n: int)
    ensures Round(n as real) == n
  {
  }

  /** Sum of a sequence of reals, as `reduce((a, b) => a + b, 0)`. */
  function Sum(s: seq<real>): real
  {
    if |s| == 0 then 0.0 else s[0] + Sum(s[1..])
  }

  lemma {:induction false} SumAppend(a: seq<real>, b: seq<real>)
    ensures Sum(a + b) == Sum(a) + Sum(b)
  {
    if |a| > 0 {
      assert (a + b)[1..] == a[1..] + b;
      SumAppend(a[1..], b);
    } else {
      assert a + b == b;
    }
  }

  /** Every element between `lo` and `hi` bounds the sum by `n * lo` and `n * hi`. */
  lemma {:induction false} SumBounds(s: seq<real>, lo: real, hi: real)
    requires forall i :: 0 <= i < |s| ==> lo <= s[i] <= hi
    ensures |s| as real * lo <= Sum(s) <= |s| as real * hi
  {
    if |s| > 0 {
      SumBounds(s[1..], lo, hi);
    }
  }

  /** The sum of a constant sequence. */
  lemma {:induction false} SumConstant(s: seq<real>, c: real)
    requires forall i :: 0 <= i < |s| ==> s[i] == c
    ensures Sum(s) == |s| as real * c
  {
    if |s| > 0 {
      SumConstant(s[1..], c);
    }
  }

  /** Arithmetic mean, `reduce((a, b) => a + b) / length`. */
  function Mean(s: seq<real>): (m: real)
    requires |s| > 0
    ensures (forall i :: 0 <= i < |s| ==> s[i] == s[0]) ==> m == s[0]
  {
    SumConstantMean(s);
    Sum(s) / |s| as real
  }

  lemma SumConstantMean(s: seq<real>)
    requires |s| > 0
    ensures (forall i :: 0 <= i < |s| ==> s[i] == s[0]) ==> Sum(s) / |s| as real == s[0]
  {
    if forall i :: 0 <= i < |s| ==> s[i] == s[0] {
      SumConstant(s, s[0]);
      QuotientOfMultiple(Sum(s), |s| as real, s[0]);
    }
  }

  /** The mean lies between the least and the greatest element. */
  lemma MeanBounds(s: seq<real>, lo: real, hi: real)
    requires |s| > 0
    requires forall i :: 0 <= i < |s| ==> lo <= s[i] <= hi
    ensures lo <= Mean(s) <= hi
  {
    SumBounds(s, lo, hi);
    BoundedQuotient(Sum(s), |s| as real, lo, hi);
  }

  lemma SquareNonNegative(x: real)
    ensures 0.0 <= x * x
  {
  }

  /** Sum of squared deviations from `m`. */
  function SquaredDeviations(s: seq<real>, m: real): real
  {
    if |s| == 0 then 0.0 else (s[0] - m) * (s[0] - m) + SquaredDeviations(s[1..], m)
  }

  lemma {:induction false} SquaredDeviationsNonNegative(s: seq<real>, m: real)
    ensures 0.0 <= SquaredDeviations(s, m)
  {
    if |s| > 0 {
      SquareNonNegative(s[0] - m);
      SquaredDeviationsNonNegative(s[1..], m);
    }
  }

  /** No element deviates from `m`, so neither does the sum of squares. */
  lemma {:induction false} SquaredDeviationsOfConstant(s: seq<real>, m: real)
    requires forall i :: 0 <= i < |s| ==> s[i] == m
    ensures SquaredDeviations(s, m) == 0.0
  {
    if |s| > 0 {
      SquaredDeviationsOfConstant(s[1..], m);
    }
  }

  /** Population variance about the mean. */
  function Variance(s: seq<real>): (v: real)
    requires |s| > 0
    ensures 0.0 <= v
  {
    SquaredDeviationsNonNegative(s, Mean(s));
    SquaredDeviations(s, Mean(s)) / |s| as real
  }

  /** Population standard deviation, `Math.sqrt(variance)`. */
  function StdDev(s: seq<real>): (d: real)
    requires |s| > 0
    ensures 0.0 <= d
  {
    Sqrt(Variance(s))
  }

  /** A sequence of equal values has no spread. */
  lemma StdDevOfConstant(s: seq<real>)
    requires |s| > 0
    requires forall i :: 0 <= i < |s| ==> s[i] == s[0]
    ensures Mean(s) == s[0]
    ensures StdDev(s) == 0.0
  {
    SquaredDeviationsOfConstant(s, s[0]);
  }

  lemma CancelFactor(n: real, c: real)
    requires n != 0.0
    ensures (n * c) / n == c
  {
  }

  lemma QuotientOfMultiple(t: real, n: real, c: real)
    requires n != 0.0 && t == n * c
    ensures t / n == c
  {
    CancelFactor(n, c);
  }

  /** A total between `n * lo` and `n * hi` has a quotient by `n` between `lo` and `hi`. */
  lemma BoundedQuotient(t: real, n: real, lo: real, hi: real)
    requires 0.0 < n && n * lo <= t <= n * hi
    ensures lo <= t / n <= hi
  {
    DivideMonotone(n * lo, t, n);
    DivideMonotone(t, n * hi, n);
    CancelFactor(n, lo);
    CancelFactor(n, hi);
  }

  /** `n < b * p` bounds the integer quotient `n / b` by `p`. */
  lemma QuotientBelow(n: nat, b: nat, p: nat)
    requires 0 < b && n < b * p
    ensures n / b < p
  {
    assert (n / b) * b <= n;
    if p <= n / b {
      MultiplyMonotone(p, n / b, b);
    }
  }

  /** Appending a digit `d < b` to a number below `p` gives a number below `p * b`. */
  lemma DigitAppended(a: nat, d: nat, p: nat, b: nat)
    requires a < p && d < b
    ensures a * b + d < b * p
  {
    MultiplyMonotone(a, p - 1, b);
    assert (p - 1) * b == p * b - b;
  }

  lemma DivideMonotone(x: real, y: real, d: real)
    requires x <= y && 0.0 < d
    ensures x / d <= y / d
  {
    assert y / d - x / d == (y - x) / d;
  }

  lemma MultiplyMonotone(a: nat, b: nat, c: nat)
    requires a <= b
    ensures a * c <= b * c
  {
  }

  lemma MultiplyBelow(a: real, b: real, m: real)
    requires a <= b && 0.0 < m
    ensures m * a <= m * b
  {
  }

  lemma MultiplyStrictlyBelow(a: real, b: real, m: real)
    requires a < b && 0.0 < m
    ensures m * a < m * b
  {
  }

  /** `x - m * floor(x / m)`: the remainder of a non-negative `x`. */
  function FloorRemainder(x: real, m: real): (r: real)
    requires 0.0 <= x && 0.0 < m
    ensures 0.0 <= r < m
  {
    var d := x / m;
    var q := d.Floor as real;
    var q1 := q + 1.0;
    assert q <= d < q1;
    MultiplyBelow(q, d, m);
    MultiplyStrictlyBelow(d, q1, m);
    assert m * d < m * q1;
    assert m * d == x;
    assert x < m * q1;
    assert m * q1 == m * q + m;
    assert x - m * q < m;
    x - m * q
  }

  /** JavaScript's `x % m` for `m > 0`: the remainder takes the sign of `x`. */
  function JsRemainder(x: real, m: real): (r: real)
    requires 0.0 < m
    ensures 0.0 <= x ==> 0.0 <= r < m
    ensures x < 0.0 ==> -m < r <= 0.0
  {
    if 0.0 <= x then FloorRemainder(x, m) else -FloorRemainder(-x, m)
  }

  /** The remainder leaves a value already below the modulus alone. */
  lemma RemainderBelowModulus(x: real, m: real)
    requires 0.0 <= x < m
    ensures JsRemainder(x, m) == x
  {
    var d := x / m;
    assert 0.0 <= d < 1.0;
    assert d.Floor == 0;
  }

  /** Adding whole periods does not change the remainder of a non-negative value. */
  lemma RemainderPeriodic(x: real, m: real, k: nat)
    requires 0.0 <= x && 0.0 < m
    ensures JsRemainder(x + m * k as real, m) == JsRemainder(x, m)
  {
    var y := x + m * k as real;
    assert y / m == x / m + k as real;
    assert (y / m).Floor == (x / m).Floor + k;
    assert m * ((x / m).Floor + k) as real == m * (x / m).Floor as real + m * k as real;
  }

  function Pow(b: nat, k: nat): (r: nat)
    requires 1 <= b
    ensures 1 <= r
  {
    if k == 0 then 1 else b * Pow(b, k - 1)
  }

  /** Bitwise exclusive or of two naturals, one bit at a time from the lowest. */
  function Xor(a: nat, b: nat): nat
    decreases a + b
  {
    if a == 0 && b == 0 then 0
    else 2 * Xor(a / 2, b / 2) + (if a % 2 == b % 2 then 0 else 1)
  }

  /** XOR of two `k`-bit numbers is a `k`-bit number. */
  lemma {:induction false} XorBound(a: nat, b: nat, k: nat)
    requires a < Pow(2, k) && b < Pow(2, k)
    ensures Xor(a, b) < Pow(2, k)
    decreases k
  {
    if !(a == 0 && b == 0) {
      assert k > 0;
      XorBound(a / 2, b / 2, k - 1);
    }
  }

  /** XOR with the same key twice gives the original number back. */
  lemma {:induction false} XorInvolution(a: nat, b: nat)
    ensures Xor(Xor(a, b), b) == a
    decreases a + b
  {
    if !(a == 0 && b == 0) {
      var x := Xor(a / 2, b / 2);
      var bit := if a % 2 == b % 2 then 0 else 1;
      var c := 2 * x + bit;
      assert Xor(a, b) == c;
      assert c / 2 == x && c % 2 == bit;
      XorInvolution(a / 2, b / 2);
      assert !(c == 0 && b == 0);
      assert Xor(c, b) == 2 * Xor(x, b / 2) + (if c % 2 == b % 2 then 0 else 1);
    }
  }
}
