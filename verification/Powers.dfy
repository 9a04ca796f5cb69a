/** Powers of two and of 256, and multiples of powers of two. */
module Powers {

  function Pow2(k: nat): (p: nat)
    ensures p >= 1
  {
    if k == 0 then 1 else 2 * Pow2(k - 1)
  }

  /** The number of values of `k` bytes. */
  function Pow256(k: nat): nat {
    if k == 0 then 1 else 256 * Pow256(k - 1)
  }

  /** The position of the highest set bit of a non-zero number. */
  function HighBitSet(x: nat): nat
    requires x > 0
  {
    if x == 1 then 0 else 1 + HighBitSet(x / 2)
  }

  /** The test `x & (x - 1) == 0` of a non-zero number: only its highest bit is set. */
  predicate IsPowerOfTwo(x: nat)
    requires x > 0
  {
    x == Pow2(HighBitSet(x))
  }

  lemma {:induction false} HighBitBounds(x: nat)
    requires x > 0
    ensures Pow2(HighBitSet(x)) <= x < Pow2(HighBitSet(x) + 1)
  {
    if x > 1 {
      HighBitBounds(x / 2);
    }
  }

  lemma {:induction false} HighBitOfPower(k: nat)
    ensures HighBitSet(Pow2(k)) == k
  {
    if k > 0 {
      HighBitOfPower(k - 1);
      assert Pow2(k) / 2 == Pow2(k - 1);
    }
  }

  lemma {:induction false} Pow2Monotone(i: nat, j: nat)
    requires i <= j
    ensures Pow2(i) <= Pow2(j)
  {
    if i < j {
      Pow2Monotone(i, j - 1);
    }
  }

  lemma {:induction false} Pow2Sum(i: nat, j: nat)
    ensures Pow2(i + j) == Pow2(i) * Pow2(j)
  {
    if i > 0 {
      Pow2Sum(i - 1, j);
      assert Pow2(i + j) == 2 * Pow2(i - 1 + j);
    }
  }

  lemma MultipleOf(q: int, m: nat)
    requires m > 0
    ensures (q * m) % m == 0
  {
    var r, d := (q * m) % m, (q * m) / m;
    assert (q - d) * m == r;
    assert q - d >= 1 ==> (q - d) * m >= m;
    assert q - d <= -1 ==> (q - d) * m + m <= 0;
  }

  /** A multiple of a multiple. */
  lemma MultipleTrans(x: int, a: nat, b: nat)
    requires a > 0 && b > 0 && x % (a * b) == 0
    ensures x % a == 0
  {
    var q := x / (a * b);
    assert x == (a * b) * q;
    assert x == (b * q) * a;
    MultipleOf(b * q, a);
  }

  lemma MultipleSum(x: int, y: int, m: nat)
    requires m > 0 && x % m == 0 && y % m == 0
    ensures (x + y) % m == 0
  {
    var p, q := x / m, y / m;
    assert x + y == (p + q) * m;
    MultipleOf(p + q, m);
  }

  /** `(x + m - 1) & ~(m - 1)` for a power of two `m`: the next multiple of `m`. */
  function RoundUp(x: nat, m: nat): (r: nat)
    requires m > 0
    ensures r % m == 0 && x <= r < x + m
  {
    var q := (x + m - 1) / m;
    MultipleOf(q, m);
    assert x + m - 1 == q * m + (x + m - 1) % m;
    q * m
  }
}
