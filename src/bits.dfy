/**
 * Python's integer bit operations on the values the backend handles:
 * `x << k`, `x >> k`, `x & (2^k - 1)` and `a | b`. Shifts and masks are
 * multiplication, division and the (never negative) remainder by `2^k`;
 * `|` is defined bit by bit and shown to be addition on disjoint fields.
 */
module Bits {
  import opened Text

  /** `x << k` for `x >= 0`. */
  function Shl(x: nat, k: nat): nat {
    x * Pow2(k)
  }

  /** `x >> k` for `x >= 0`. */
  function Shr(x: nat, k: nat): nat {
    QuotientNat(x, Pow2(k));
    x / Pow2(k)
  }

  /** Dividing a natural number by a positive one gives a natural number. */
  lemma QuotientNat(x: nat, d: nat)
    requires d > 0
    ensures x / d >= 0
  {
  }

  /** `x & (2^k - 1)`; Python's `&` with such a mask keeps the low `k` bits, also of a negative `x`. */
  function Low(x: int, k: nat): (r: nat)
    ensures r < Pow2(k)
  {
    x % Pow2(k)
  }

  /** `a | b` for `a, b >= 0`, bit by bit from the lowest. */
  function Or(a: nat, b: nat): nat {
    if a == 0 then b
    else if b == 0 then a
    else 2 * Or(a / 2, b / 2) + (if a % 2 == 1 || b % 2 == 1 then 1 else 0)
  }

  lemma Pow2Add(j: nat, k: nat)
    ensures Pow2(j + k) == Pow2(j) * Pow2(k)
  {
    if k > 0 {
      Pow2Add(j, k - 1);
    }
  }

  /** OR-ing a value below `2^k` into a multiple of `2^k` is addition. */
  lemma {:induction false} OrDisjoint(m: nat, b: nat, k: nat)
    requires b < Pow2(k)
    ensures Or(m * Pow2(k), b) == m * Pow2(k) + b
    decreases k
  {
    if k > 0 && m != 0 && b != 0 {
      var a := m * Pow2(k);
      assert a == 2 * (m * Pow2(k - 1));
      assert a / 2 == m * Pow2(k - 1) && a % 2 == 0;
      OrDisjoint(m, b / 2, k - 1);
    } else if k == 0 {
      assert b == 0;
    }
  }

  /** `x << k` with `2^k` given by its value `p`. */
  lemma ShlBy(x: nat, k: nat, p: nat)
    requires p == Pow2(k)
    ensures Shl(x, k) == x * p
  {
  }

  /** `OrDisjoint` for a multiple `x` of `2^k`, with `2^k` given by its value `p`. */
  lemma OrBelow(x: nat, b: nat, k: nat, p: nat, m: nat)
    requires p == Pow2(k) && x == m * p && b < p
    ensures Or(x, b) == x + b
  {
    OrDisjoint(m, b, k);
  }

  /** A value written as `hi * d + lo` with `lo < d` splits back into `hi` and `lo`. */
  lemma DivModSplit(hi: nat, lo: nat, d: nat)
    requires 0 <= lo < d
    ensures (hi * d + lo) / d == hi && (hi * d + lo) % d == lo
  {
    var x := hi * d + lo;
    var q := x / d;
    var r := x % d;
    assert (q - hi) * d == lo - r;
    MulAwayFromZero(q - hi, d);
  }

  /** The remainder is unique: `q * d + r` with `0 <= r < d` leaves `r`, also for negative `q`. */
  lemma ModUnique(q: int, r: int, d: int)
    requires 0 <= r < d
    ensures (q * d + r) % d == r
  {
    var x := q * d + r;
    var q' := x / d;
    var r' := x % d;
    assert (q' - q) * d == r - r';
    MulAwayFromZero(q' - q, d);
  }

  lemma MulAwayFromZero(k: int, d: int)
    ensures k >= 1 && d >= 0 ==> k * d >= d
    ensures k <= -1 && d >= 0 ==> k * d <= -d
  {
    if k >= 1 && d >= 0 {
      assert k * d == (k - 1) * d + d;
    } else if k <= -1 && d >= 0 {
      assert k * d == (k + 1) * d - d;
      assert (-(k + 1)) * d >= 0;
    }
  }

  /**
   * The `w`-bit field starting at bit `k` of `hi * 2^(k+w) + mid * 2^k + lo`
   * is `mid`, when `mid < 2^w` and `lo < 2^k`.
   */
  lemma FieldOf(hi: nat, mid: nat, lo: nat, k: nat, w: nat)
    requires mid < Pow2(w) && lo < Pow2(k)
    ensures Low(Shr(hi * Pow2(k + w) + mid * Pow2(k) + lo, k), w) == mid
  {
    var p := Pow2(k);
    var q := Pow2(w);
    Pow2Add(k, w);
    Regroup(hi, mid, p, q);
    DivModSplit(hi * q + mid, lo, p);
    DivModSplit(hi, mid, q);
  }

  /** `hi * (p * q) + mid * p == (hi * q + mid) * p`. */
  lemma Regroup(hi: nat, mid: nat, p: nat, q: nat)
    ensures hi * (p * q) + mid * p == (hi * q + mid) * p
  {
    assert hi * (p * q) == (hi * q) * p;
  }

  /** The powers of two the 32-bit instruction layout uses. */
  lemma Pow2Values()
    ensures Pow2(5) == 32 && Pow2(6) == 64 && Pow2(11) == 2048 && Pow2(16) == 65536
    ensures Pow2(21) == 2097152 && Pow2(26) == 67108864 && Pow2(32) == 4294967296
  {
    assert Pow2(2) == 4;
    assert Pow2(4) == 16;
    assert Pow2(5) == 32;
    assert Pow2(6) == 64;
    assert Pow2(8) == 256;
    assert Pow2(11) == 2048 by { Pow2Add(5, 6); }
    assert Pow2(16) == 65536 by { Pow2Add(8, 8); }
    assert Pow2(21) == 2097152 by { Pow2Add(16, 5); }
    assert Pow2(26) == 67108864 by { Pow2Add(21, 5); }
    assert Pow2(32) == 4294967296 by { Pow2Add(16, 16); }
  }
}
