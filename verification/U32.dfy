/**
 Rust's `u32` arithmetic as the ring counters use it: `overflowing_add`, `overflowing_sub`
 and the reinterpretation of a difference as `i32`.
 */
module U32 {

  /** The bit pattern left in a `u32` by the exact integer `x`. */
  function Wrap(x: int): nat {
    x % 0x1_0000_0000
  }

  /** `x as i32`, for a `u32` bit pattern `x`. */
  function AsI32(x: nat): int {
    if x < 0x8000_0000 then x else x - 0x1_0000_0000
  }

  ghost predicate PowerOfTwo(n: nat)
    decreases n
  {
    n == 1 || (n > 1 && n % 2 == 0 && PowerOfTwo(n / 2))
  }

  function Pow2(k: nat): (r: nat)
    ensures r >= 1
  {
    if k == 0 then 1 else 2 * Pow2(k - 1)
  }

  lemma Exponent(n: nat) returns (k: nat)
    requires PowerOfTwo(n)
    ensures n == Pow2(k)
  {
    if n == 1 {
      k := 0;
    } else {
      var j := Exponent(n / 2);
      k := j + 1;
    }
  }

  lemma {:induction false} Pow2Add(a: nat, b: nat)
    ensures Pow2(a + b) == Pow2(a) * Pow2(b)
  {
    if a == 0 {
    } else {
      Pow2Add(a - 1, b);
      assert Pow2(a + b) == 2 * (Pow2(a - 1) * Pow2(b));
    }
  }

  lemma {:induction false} Pow2Monotone(a: nat, b: nat)
    requires a <= b
    ensures Pow2(a) <= Pow2(b)
    decreases b
  {
    if a < b {
      Pow2Monotone(a, b - 1);
    }
  }

  lemma Pow2Of32()
    ensures Pow2(32) == 0x1_0000_0000
  {
    Pow2Add(16, 16);
    Pow2Add(8, 8);
    assert Pow2(8) == 256;
  }

  /** A non-zero multiple of `n` is at least `n` away from zero. */
  lemma MultipleBound(n: int, d: int)
    requires n >= 0
    ensures d >= 1 ==> n * d >= n
    ensures d <= -1 ==> n * d <= -n
    ensures d == 0 ==> n * d == 0
  {
  }

  /** A remainder is determined by any quotient that leaves it in range. */
  lemma RemainderIs(x: int, n: int, q: int, r: int)
    requires 0 <= r < n && x == n * q + r
    ensures x % n == r && x / n == q
  {
    var d := x / n - q;
    assert n * d == r - x % n;
    MultipleBound(n, d);
  }

  /** Every power of two up to 2^32 divides 2^32. */
  lemma DividesModulus(n: nat) returns (q: nat)
    requires PowerOfTwo(n) && n <= 0x1_0000_0000
    ensures n * q == 0x1_0000_0000
  {
    var k := Exponent(n);
    Pow2Of32();
    if k > 32 {
      Pow2Monotone(33, k);
      assert false;
    }
    Pow2Add(k, 32 - k);
    q := Pow2(32 - k);
  }

  /** The buffer index survives wrapping exactly because the size divides 2^32. */
  lemma IndexSurvivesWrap(x: nat, size: nat)
    requires PowerOfTwo(size) && size <= 0x1_0000_0000
    ensures Wrap(x) % size == x % size
  {
    var q := DividesModulus(size);
    var laps := x / 0x1_0000_0000;
    var w := Wrap(x);
    assert x == w + 0x1_0000_0000 * laps;
    assert 0x1_0000_0000 * laps == size * (q * laps) by {
      assert (size * q) * laps == size * (q * laps);
    }
    assert w == size * (w / size) + w % size;
    assert x == size * (w / size + q * laps) + w % size;
    RemainderIs(x, size, w / size + q * laps, w % size);
  }

  /** Two ids less than one lap apart never share a buffer index. */
  lemma IndexInjective(a: nat, b: nat, size: nat)
    requires a < b < a + size
    ensures a % size != b % size
  {
    var d := b / size - a / size;
    assert b - a == size * d + (b % size - a % size);
    MultipleBound(size, d);
  }

  lemma WrapSub(a: nat, b: nat)
    ensures Wrap(Wrap(a) - Wrap(b)) == Wrap(a - b)
  {
  }

  lemma SmallIsItself(x: nat)
    requires x < 0x1_0000_0000
    ensures Wrap(x) == x
  {
  }

  /** `overflowing_sub` of two counters less than 2^32 apart is their distance. */
  lemma Distance(a: nat, b: nat)
    requires 0 <= a - b < 0x1_0000_0000
    ensures Wrap(Wrap(a) - Wrap(b)) == a - b
  {
    WrapSub(a, b);
  }

  /** Read as `i32`, so is a distance from -2^31 up to below 2^31. */
  lemma SignedDistance(a: nat, b: nat)
    requires -0x8000_0000 <= a - b < 0x8000_0000
    ensures AsI32(Wrap(Wrap(a) - Wrap(b))) == a - b
  {
    WrapSub(a, b);
  }

  lemma NextWraps(x: nat)
    ensures Wrap(Wrap(x) + 1) == Wrap(x + 1)
    ensures Wrap(Wrap(x + 1) - 1) == Wrap(x)
  {
  }

  /** Wrapped counters less than 2^32 apart are equal exactly when the counters are. */
  lemma Injective(x: nat, y: nat)
    requires -0x1_0000_0000 < x - y < 0x1_0000_0000
    ensures Wrap(x) == Wrap(y) <==> x == y
  {
  }

  lemma WrapSum(x: nat, i: nat)
    ensures Wrap(Wrap(x) + i) == Wrap(x + i)
  {
    var laps := x / 0x1_0000_0000 + (Wrap(x) + i) / 0x1_0000_0000;
    RemainderIs(x + i, 0x1_0000_0000, laps, Wrap(Wrap(x) + i));
  }
}
