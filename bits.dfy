/**
 * Python's bitwise operators on non-negative integers: `<<`, `>>`, `|`, `& 1`, and the
 * facts that make fixed-width bit fields work (a field below bit k never overlaps a value
 * shifted left by k, and both come back out by `% 2^k` and `/ 2^k`).
 */
module Bits {
  import opened Common

  function Pow2(k: nat): (p: nat)
    ensures p >= 1
  {
    if k == 0 then 1 else 2 * Pow2(k - 1)
  }

  /** `a << k` */
  function Shl(a: nat, k: nat): nat
  {
    a * Pow2(k)
  }

  /** `(n >> i) & 1` */
  function Bit(n: nat, i: nat): (b: nat)
    ensures b < 2
  {
    (n / Pow2(i)) % 2
  }

  /** Bitwise `a | b`, one bit at a time from the least significant end. */
  function Or(a: nat, b: nat): nat
    decreases a + b
  {
    if a == 0 && b == 0 then 0
    else 2 * Or(a / 2, b / 2) + (if a % 2 == 1 || b % 2 == 1 then 1 else 0)
  }

  /** `Pow2Add` with the sum named, so that callers meet `Pow2(n)` as written. */
  lemma Pow2Sum(k: nat, m: nat, n: nat)
    requires k + m == n
    ensures Pow2(n) == Pow2(k) * Pow2(m)
  {
    Pow2Add(k, m);
  }

  lemma {:induction false} Pow2Add(k: nat, m: nat)
    ensures Pow2(k + m) == Pow2(k) * Pow2(m)
  {
    if m > 0 {
      Pow2Add(k, m - 1);
      assert Pow2(k + m) == 2 * Pow2(k + m - 1);
    }
  }

  lemma {:induction false} Pow2Monotone(k: nat, m: nat)
    requires k <= m
    ensures Pow2(k) <= Pow2(m)
  {
    if k < m {
      Pow2Monotone(k, m - 1);
    }
  }

  lemma {:induction false} OrZeroRight(a: nat)
    ensures Or(a, 0) == a
  {
    if a != 0 {
      OrZeroRight(a / 2);
    }
  }

  lemma {:induction false} OrZeroLeft(b: nat)
    ensures Or(0, b) == b
  {
    if b != 0 {
      OrZeroLeft(b / 2);
    }
  }

  lemma {:induction false} OrComm(a: nat, b: nat)
    ensures Or(a, b) == Or(b, a)
    decreases a + b
  {
    if a != 0 || b != 0 {
      OrComm(a / 2, b / 2);
    }
  }

  /** `a | (b << k)` is `a + b * 2^k` when `a` fits below bit `k`: the fields do not overlap. */
  lemma {:induction false} OrShifted(a: nat, b: nat, k: nat)
    requires a < Pow2(k)
    ensures Or(a, Shl(b, k)) == a + Shl(b, k)
  {
    if k == 0 {
      assert a == 0;
      OrZeroLeft(b);
    } else if a == 0 && b == 0 {
    } else {
      var p := Pow2(k - 1);
      assert Shl(b, k) == 2 * (b * p);
      assert (b * Pow2(k)) / 2 == b * p;
      assert (b * Pow2(k)) % 2 == 0;
      OrShifted(a / 2, b, k - 1);
    }
  }

  /** Division and remainder are determined by any quotient/remainder pair that fits. */
  lemma DivModUnique(x: nat, m: nat, q: nat, r: nat)
    requires 0 <= r < m && x == q * m + r
    ensures x / m == q && x % m == r
  {
    var q', r' := x / m, x % m;
    assert (q - q') * m == r' - r;
    MulAtLeast(q - q', m);
  }

  lemma MulAtLeast(d: int, m: int)
    requires m >= 0
    ensures d >= 1 ==> d * m >= m
    ensures d <= -1 ==> d * m <= -m
  {
  }

  lemma MulMonotone(x: nat, y: nat, z: nat)
    requires x <= y
    ensures x * z <= y * z
  {
  }

  /** Adding a multiple of `d` adds to the quotient and leaves the remainder. */
  lemma DivModOfSum(a: nat, c: nat, d: nat)
    requires d > 0
    ensures (a + c * d) / d == a / d + c && (a + c * d) % d == a % d
  {
    assert a == (a / d) * d + a % d;
    assert a + c * d == (a / d + c) * d + a % d;
    DivModUnique(a + c * d, d, a / d + c, a % d);
  }

  /** Dividing by `p * q` is dividing by `p` and then by `q`. */
  lemma DivDiv(x: nat, p: nat, q: nat)
    requires p > 0 && q > 0
    ensures x / (p * q) == (x / p) / q
  {
    var y := x / p;
    assert x == y * p + x % p;
    assert y == (y / q) * q + y % q;
    assert x == (y / q) * (p * q) + ((y % q) * p + x % p) by {
      assert y * p == (y / q) * (q * p) + (y % q) * p;
    }
    MulMonotone(y % q, q - 1, p);
    assert (y % q) * p + x % p < p * q;
    DivModUnique(x, p * q, y / q, (y % q) * p + x % p);
  }

  /** The remainder by `p * q` splits into the remainder by `p` and the next `q` digits. */
  lemma ModOfProduct(x: nat, p: nat, q: nat)
    requires p > 0 && q > 0
    ensures x % (q * p) == ((x / p) % q) * p + x % p
  {
    var y := x / p;
    var r := (y % q) * p + x % p;
    assert x == (y / q) * (q * p) + r by {
      assert x == y * p + x % p;
      assert y == (y / q) * q + y % q;
      assert y * p == (y / q) * (q * p) + (y % q) * p;
    }
    MulMonotone(y % q, q - 1, p);
    DivModUnique(x, q * p, y / q, r);
  }

  /** The two fields of `a + b * 2^k` come back out by `% 2^k` and `/ 2^k`. */
  lemma Fields(a: nat, b: nat, k: nat)
    requires a < Pow2(k)
    ensures (a + Shl(b, k)) % Pow2(k) == a
    ensures (a + Shl(b, k)) / Pow2(k) == b
  {
    DivModUnique(a + b * Pow2(k), Pow2(k), b, a);
  }

  /** A `k`-bit field followed by an `m`-bit field fits in `k + m` bits. */
  lemma FieldsBound(a: nat, b: nat, k: nat, m: nat)
    requires a < Pow2(k) && b < Pow2(m)
    ensures a + Shl(b, k) < Pow2(k + m)
  {
    Pow2Add(k, m);
    MulMonotone(b + 1, Pow2(m), Pow2(k));
    assert (b + 1) * Pow2(k) == b * Pow2(k) + Pow2(k);
  }

  /** Bit `i` of `a + b * 2^k` is bit `i` of `a` below `k` and bit `i - k` of `b` from `k` on. */
  lemma BitOfFields(a: nat, b: nat, k: nat, i: nat)
    requires a < Pow2(k)
    ensures Bit(a + Shl(b, k), i) == if i < k then Bit(a, i) else Bit(b, i - k)
  {
    if i < k {
      BitOfFieldsLow(a, b, k, i);
    } else {
      var n := a + Shl(b, k);
      Pow2Add(k, i - k);
      Fields(a, b, k);
      DivDiv(n, Pow2(k), Pow2(i - k));
    }
  }

  lemma {:induction false} BitOfFieldsLow(a: nat, b: nat, k: nat, i: nat)
    requires a < Pow2(k) && i < k
    ensures Bit(a + Shl(b, k), i) == Bit(a, i)
  {
    var n := a + Shl(b, k);
    HalfFields(a, b, k);
    if i > 0 {
      BitHalf(n, i);
      BitHalf(a, i);
      BitOfFieldsLow(a / 2, b, k - 1, i - 1);
    }
  }

  /** Bit `i` of `n` is bit `i - 1` of `n >> 1`. */
  lemma BitHalf(n: nat, i: nat)
    requires i > 0
    ensures Bit(n, i) == Bit(n / 2, i - 1)
  {
    DivDiv(n, 2, Pow2(i - 1));
  }

  /** Halving `a + b * 2^k` halves the low field and shortens the shift by one. */
  lemma HalfFields(a: nat, b: nat, k: nat)
    requires a < Pow2(k) && k > 0
    ensures (a + Shl(b, k)) / 2 == a / 2 + Shl(b, k - 1)
    ensures (a + Shl(b, k)) % 2 == a % 2
    ensures a / 2 < Pow2(k - 1)
  {
    assert Shl(b, k) == Shl(b, k - 1) * 2;
    DivModOfSum(a, Shl(b, k - 1), 2);
  }

  /** Bit `i` of a number below `2^i` is 0. */
  lemma BitAbove(n: nat, i: nat)
    requires n < Pow2(i)
    ensures Bit(n, i) == 0
  {
    DivModUnique(n, Pow2(i), 0, n);
  }

  /** The number whose bit `j` is `bs[j]`, least significant first. */
  function FromBits(bs: seq<bool>): nat
  {
    if bs == [] then 0 else (if bs[0] then 1 else 0) + Shl(FromBits(bs[1..]), 1)
  }

  lemma {:induction false} FromBitsBound(bs: seq<bool>)
    ensures FromBits(bs) < Pow2(|bs|)
  {
    if bs != [] {
      FromBitsBound(bs[1..]);
      FieldsBound(if bs[0] then 1 else 0, FromBits(bs[1..]), 1, |bs| - 1);
    }
  }

  /** `(FromBits(bs) >> j) & 1` is `bs[j]`. */
  lemma {:induction false} BitOfFromBits(bs: seq<bool>, j: nat)
    requires j < |bs|
    ensures Bit(FromBits(bs), j) == if bs[j] then 1 else 0
  {
    var a := if bs[0] then 1 else 0;
    BitOfFields(a, FromBits(bs[1..]), 1, j);
    if j > 0 {
      BitOfFromBits(bs[1..], j - 1);
    }
  }

  /** Appending a bit at the top adds `2^|bs|` when it is set. */
  lemma {:induction false} FromBitsAppend(bs: seq<bool>, b: bool)
    ensures FromBits(bs + [b]) == FromBits(bs) + (if b then Pow2(|bs|) else 0)
  {
    if bs != [] {
      assert (bs + [b])[1..] == bs[1..] + [b];
      FromBitsAppend(bs[1..], b);
    }
  }
}
