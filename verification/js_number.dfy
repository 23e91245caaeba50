/**
 * The two JavaScript number operations the code scheme relies on, on integers.
 * Dafny's `/` and `%` are Euclidean; JavaScript's `Math.floor(a / n)` rounds
 * toward minus infinity and its `%` truncates toward zero, so for a negative
 * dividend the two languages disagree and the difference is written out here.
 */
module JsNumber {

  /** `Math.floor(a / n)`: the largest q with n * q <= a. */
  function FloorDiv(a: int, n: int): (q: int)
    requires n > 0
    ensures n * q <= a < n * q + n
  {
    // for a positive divisor, Euclidean division rounds down
    a / n
  }

  /** `a % n`: the remainder of division truncated toward zero; it takes the sign of `a`. */
  function Rem(a: int, n: int): (r: int)
    requires n > 0
    ensures a >= 0 ==> 0 <= r < n
    ensures a < 0 ==> -n < r <= 0
    ensures (a - r) % n == 0
  {
    if a >= 0 then
      assert a - a % n == n * (a / n);
      MultipleRem(a / n, n);
      a % n
    else
      var q := (-a) / n;
      assert a + (-a) % n == n * -q;
      MultipleRem(-q, n);
      -((-a) % n)
  }

  /** JavaScript's `remainder == 0` (true also for -0) holds exactly on multiples of n. */
  lemma RemZeroIffMultiple(a: int, n: int)
    requires n > 0
    ensures Rem(a, n) == 0 <==> a % n == 0
  {
    var r := Rem(a, n);
    if a % n == 0 && r != 0 {
      // a and a - r are both multiples of n, so r is one too, yet 0 < |r| < n
      var k := a / n;
      var j := (a - r) / n;
      assert a == n * k;
      assert a - r == n * j;
      assert r == n * (k - j) by { assert n * (k - j) == n * k - n * j; }
      if k - j >= 1 { MulAtLeast(n, k - j); }
      else if k - j <= -1 { MulAtMost(n, k - j); }
    }
  }

  lemma MultipleRem(k: int, n: int)
    requires n > 0
    ensures (n * k) % n == 0
  {
    var m := n * k;
    var q := m / n;
    assert m == n * q + m % n;
    assert n * (k - q) == m % n by { assert n * (k - q) == n * k - n * q; }
    if k - q >= 1 { MulAtLeast(n, k - q); }
    else if k - q <= -1 { MulAtMost(n, k - q); }
  }

  lemma MulAtLeast(n: int, d: int)
    requires n > 0 && d >= 1
    ensures n * d >= n
  {
  }

  lemma MulAtMost(n: int, d: int)
    requires n > 0 && d <= -1
    ensures n * d <= -n
  {
  }
}
