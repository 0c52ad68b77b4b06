/**
  APR_ALIGN: rounding a size up with a mask.

  `And` and `Not` are the bitwise operators, one bit at a time.  The size has `w` bits.  The boundary
  has `v` bits: with `v == w` the two types are equally wide, or the boundary is a signed constant
  such as 8, whose complement is sign-extended; with `v < w` the boundary is of a narrower unsigned
  type and its complement is extended by zeros.
  */
module Align {

  function Pow2(k: nat): (p: nat)
    ensures p > 0
  {
    if k == 0 then 1 else 2 * Pow2(k - 1)
  }

  function And(w: nat, a: nat, b: nat): nat {
    if w == 0 then 0
    else (if a % 2 == 1 && b % 2 == 1 then 1 else 0) + 2 * And(w - 1, a / 2, b / 2)
  }

  function Not(w: nat, a: nat): nat {
    if w == 0 then 0
    else (if a % 2 == 1 then 0 else 1) + 2 * Not(w - 1, a / 2)
  }

  function AprAlign(w: nat, v: nat, size: nat, boundary: nat): nat
    requires 0 < boundary < Pow2(v)
  {
    And(w, (size + (boundary - 1)) % Pow2(w), Not(v, boundary - 1))
  }

  /** The macro's purpose, by division. */
  function RoundUp(size: nat, boundary: nat): nat
    requires boundary > 0
  {
    (size + boundary - 1) / boundary * boundary
  }

  // ---------- the mask, bit by bit ----------

  predicate Bit(n: nat, i: nat) {
    if i == 0 then n % 2 == 1 else Bit(n / 2, i - 1)
  }

  /** The bits of the operators' results are those of the operands, combined one by one. */
  lemma {:induction false} BitsOfMask(w: nat, a: nat, b: nat, i: nat)
    ensures Bit(And(w, a, b), i) <==> i < w && Bit(a, i) && Bit(b, i)
    ensures Bit(Not(w, a), i) <==> i < w && !Bit(a, i)
  {
    if w == 0 {
      NoBits(i);
    } else if i > 0 {
      BitsOfMask(w - 1, a / 2, b / 2, i - 1);
      assert And(w, a, b) / 2 == And(w - 1, a / 2, b / 2) && Not(w, a) / 2 == Not(w - 1, a / 2);
    }
  }

  lemma {:induction false} NoBits(i: nat)
    ensures !Bit(0, i)
  {
    if i > 0 {
      NoBits(i - 1);
    }
  }

  /** The number made of the `k` lowest bits. */
  function Low(k: nat, n: nat): (r: nat)
    ensures r <= n
  {
    if k == 0 then 0 else n % 2 + 2 * Low(k - 1, n / 2)
  }

  lemma {:induction false} NotLowMask(v: nat, k: nat)
    requires k <= v
    ensures Pow2(k) <= Pow2(v)
    ensures Not(v, Pow2(k) - 1) == Pow2(v) - Pow2(k)
  {
    if v == 0 {
    } else if k == 0 {
      NotLowMask(v - 1, 0);
    } else {
      NotLowMask(v - 1, k - 1);
      assert (2 * Pow2(k - 1) - 1) / 2 == Pow2(k - 1) - 1;
    }
  }

  /** The mask keeps the bits from `k` up to `v`. */
  lemma {:induction false} AndMask(w: nat, v: nat, k: nat, n: nat)
    requires k <= v <= w
    ensures Pow2(k) <= Pow2(v)
    ensures And(w, n, Pow2(v) - Pow2(k)) == Low(v, n) - Low(k, n)
    decreases w
  {
    NotLowMask(v, k);
    if v == 0 {
      AndZero(w, n);
    } else {
      var mask := Pow2(v) - Pow2(k);
      var k' := if k == 0 then 0 else k - 1;
      AndMask(w - 1, v - 1, k', n / 2);
      assert mask / 2 == Pow2(v - 1) - Pow2(k') && mask % 2 == (if k == 0 then 1 else 0);
    }
  }

  lemma {:induction false} AndZero(w: nat, n: nat)
    ensures And(w, n, 0) == 0
  {
    if w > 0 {
      AndZero(w - 1, n / 2);
    }
  }

  lemma {:induction false} LowLow(k: nat, v: nat, n: nat)
    requires k <= v
    ensures Low(k, Low(v, n)) == Low(k, n)
  {
    if k > 0 {
      LowLow(k - 1, v - 1, n / 2);
    }
  }

  /** Clearing the `k` lowest bits clears them in every longer part. */
  lemma {:induction false} LowOfCleared(k: nat, v: nat, n: nat)
    requires k <= v
    ensures Low(v, n - Low(k, n)) == Low(v, n) - Low(k, n)
  {
    if k > 0 {
      LowOfCleared(k - 1, v - 1, n / 2);
      assert n - Low(k, n) == 2 * (n / 2 - Low(k - 1, n / 2));
    }
  }

  /** Different multiples of 2^k are at least that far apart. */
  lemma {:induction false} MultiplesApart(k: nat, m: nat, n: nat)
    requires Low(k, m) == 0 && Low(k, n) == 0 && m < n
    ensures m + Pow2(k) <= n
  {
    if k > 0 {
      MultiplesApart(k - 1, m / 2, n / 2);
    }
  }

  lemma {:induction false} DivUnique(a: nat, b: nat, q: int, r: nat)
    requires b > 0 && a == q * b + r && r < b
    ensures a / b == q && a % b == r
  {
    var d := q - a / b;
    assert a == a / b * b + a % b;
    assert d * b == a % b - r by {
      assert d * b == q * b - a / b * b;
    }
    MulAway(d, b);
  }

  lemma MulAway(d: int, b: nat)
    ensures d > 0 ==> d * b >= b
    ensures d < 0 ==> d * b + b <= 0
  {
    if d > 0 {
      assert (d - 1) * b >= 0;
    } else if d < 0 {
      assert (-d - 1) * b >= 0;
    }
  }

  lemma {:induction false} ModDouble(n: nat, p: nat)
    requires p > 0
    ensures n % (2 * p) == n % 2 + 2 * (n / 2 % p)
  {
    var q, r := n / 2 / p, n / 2 % p;
    assert n / 2 == q * p + r;
    assert q * (2 * p) == 2 * (q * p);
    DivUnique(n, 2 * p, q, n % 2 + 2 * r);
  }

  lemma {:induction false} LowIsMod(k: nat, n: nat)
    ensures Low(k, n) == n % Pow2(k)
  {
    if k > 0 {
      LowIsMod(k - 1, n / 2);
      ModDouble(n, Pow2(k - 1));
    }
  }

  // ---------- what the macro computes ----------

  lemma RoundUpClears(size: nat, k: nat)
    ensures RoundUp(size, Pow2(k)) == size + Pow2(k) - 1 - Low(k, size + Pow2(k) - 1)
  {
    LowIsMod(k, size + Pow2(k) - 1);
    DivRest(size + Pow2(k) - 1, Pow2(k));
  }

  lemma DivRest(n: nat, b: nat)
    requires b > 0
    ensures n / b * b == n - n % b
  {
  }

  /** Rounding up gives the least multiple of the boundary that is not below the size. */
  lemma {:induction false} RoundUpIsLeast(size: nat, k: nat, m: nat)
    ensures RoundUp(size, Pow2(k)) % Pow2(k) == 0
    ensures size <= RoundUp(size, Pow2(k)) < size + Pow2(k)
    ensures m % Pow2(k) == 0 && m >= size ==> RoundUp(size, Pow2(k)) <= m
  {
    var n := size + Pow2(k) - 1;
    var r := RoundUp(size, Pow2(k));
    RoundUpClears(size, k);
    LowIsMod(k, n);
    LowOfCleared(k, k, n);
    LowIsMod(k, r);
    LowIsMod(k, m);
    if m < r && Low(k, m) == 0 {
      MultiplesApart(k, m, r);
    }
  }

  lemma ModSmall(n: nat, p: nat)
    requires p > 0
    ensures n % p == n <==> n < p
    ensures p <= n < 2 * p ==> n % p == n - p
  {
    if n < p {
      DivUnique(n, p, 0, n);
    } else if n < 2 * p {
      DivUnique(n, p, 1, n - p);
    }
  }

  /**
    For every width and every power of two, the macro computes the low `v` bits of the rounded size.
    It is the rounded size itself exactly when `size <= 2^v - boundary`; with equally wide types,
    every other size gives 0.
    */
  lemma {:induction false} AlignExact(w: nat, v: nat, k: nat, size: nat)
    requires k < v <= w && size < Pow2(w)
    ensures 0 < Pow2(k) < Pow2(v)
    ensures AprAlign(w, v, size, Pow2(k)) == RoundUp(size, Pow2(k)) % Pow2(v)
    ensures AprAlign(w, v, size, Pow2(k)) == RoundUp(size, Pow2(k)) <==> size <= Pow2(v) - Pow2(k)
    ensures v == w && size > Pow2(v) - Pow2(k) ==> AprAlign(w, v, size, Pow2(k)) == 0
  {
    var n, p := size + Pow2(k) - 1, Pow2(v);
    AlignBits(w, v, k, size);
    var r := RoundUp(size, Pow2(k));
    assert r == n - Low(k, n) by {
      RoundUpClears(size, k);
    }
    assert Low(v, n) - Low(k, n) == r % p by {
      LowOfCleared(k, v, n);
      LowIsMod(v, r);
    }
    assert Low(v, n) == n <==> n < p by {
      LowIsMod(v, n);
      ModSmall(n, p);
    }
    if v == w && n >= p {
      AlignWrapped(v, k, n);
    }
  }

  lemma {:induction false} AlignBits(w: nat, v: nat, k: nat, size: nat)
    requires k < v <= w
    ensures 0 < Pow2(k) < Pow2(v)
    ensures var n := size + Pow2(k) - 1;
            AprAlign(w, v, size, Pow2(k)) == Low(v, n) - Low(k, n)
  {
    var n := size + Pow2(k) - 1;
    AlignMasked(w, v, k, size);
    AndMask(w, v, k, Low(w, n));
    LowLow(v, w, n);
    LowLow(k, w, n);
  }

  lemma AlignMasked(w: nat, v: nat, k: nat, size: nat)
    requires k < v
    ensures 0 < Pow2(k) < Pow2(v)
    ensures AprAlign(w, v, size, Pow2(k)) == And(w, Low(w, size + Pow2(k) - 1), Pow2(v) - Pow2(k))
  {
    NotLowMask(v, k);
    NotLowMask(v - 1, k);
    LowIsMod(w, size + Pow2(k) - 1);
    assert size + (Pow2(k) - 1) == size + Pow2(k) - 1;
  }

  lemma AlignWrapped(v: nat, k: nat, n: nat)
    requires k < v && Pow2(v) <= n < Pow2(v) + Pow2(k)
    ensures Low(v, n) == Low(k, n)
  {
    NotLowMask(v, k);
    LowIsMod(v, n);
    ModSmall(n, Pow2(v));
    LowLow(k, v, n);
    LowIsMod(k, Low(v, n));
    ModSmall(Low(v, n), Pow2(k));
  }

  /** Aligning an aligned size changes nothing, whatever the size and the width of the boundary. */
  lemma {:induction false} AlignIdempotent(w: nat, v: nat, k: nat, size: nat)
    requires k < v <= w && size < Pow2(w)
    ensures 0 < Pow2(k) < Pow2(v)
    ensures var a := AprAlign(w, v, size, Pow2(k));
            a < Pow2(v) && AprAlign(w, v, a, Pow2(k)) == a
  {
    var n := size + Pow2(k) - 1;
    AlignBits(w, v, k, size);
    NotLowMask(w, v);
    var a := AprAlign(w, v, size, Pow2(k));
    LowOfCleared(k, v, n);
    LowLow(k, v, n - Low(k, n));
    LowOfCleared(k, k, n);
    assert a == Low(v, n - Low(k, n)) && Low(k, a) == 0;
    LowBelow(v, n - Low(k, n));
    LowTop(v, k);
    AlignedStays(w, v, k, a);
  }

  lemma {:induction false} LowBelow(v: nat, n: nat)
    ensures Low(v, n) < Pow2(v)
  {
    if v > 0 {
      LowBelow(v - 1, n / 2);
    }
  }

  lemma {:induction false} AlignedStays(w: nat, v: nat, k: nat, a: nat)
    requires k < v <= w && a < Pow2(v) && Low(k, a) == 0
    ensures 0 < Pow2(k) < Pow2(v)
    ensures AprAlign(w, v, a, Pow2(k)) == a
  {
    var b := Pow2(k);
    AlignBits(w, v, k, a);
    LowTop(v, k);
    assert a <= Pow2(v) - b by {
      if a > Pow2(v) - b {
        MultiplesApart(k, Pow2(v) - b, a);
      }
    }
    NotLowMask(w, v);
    AlignExact(w, v, k, a);
    LowIsMod(k, a);
    RoundUpIsLeast(a, k, a);
  }

  lemma {:induction false} LowTop(w: nat, k: nat)
    requires k <= w
    ensures Pow2(k) <= Pow2(w) && Low(k, Pow2(w) - Pow2(k)) == 0
  {
    NotLowMask(w, k);
    if k > 0 {
      LowTop(w - 1, k - 1);
      assert (2 * Pow2(w - 1) - 2 * Pow2(k - 1)) / 2 == Pow2(w - 1) - Pow2(k - 1);
    }
  }

  /** Among sizes that do not wrap around, the macro is monotone and sub-additive. */
  lemma {:induction false} AlignLaws(w: nat, v: nat, k: nat, s: nat, t: nat)
    requires k < v <= w && s + t <= Pow2(v) - Pow2(k)
    ensures 0 < Pow2(k) < Pow2(v)
    ensures AprAlign(w, v, s, Pow2(k)) <= AprAlign(w, v, s + t, Pow2(k))
    ensures AprAlign(w, v, s + t, Pow2(k)) <= AprAlign(w, v, s, Pow2(k)) + AprAlign(w, v, t, Pow2(k))
  {
    NotLowMask(w, v);
    AlignExact(w, v, k, s);
    AlignExact(w, v, k, t);
    AlignExact(w, v, k, s + t);
    RoundUpLaws(k, s, t);
  }

  lemma {:induction false} RoundUpLaws(k: nat, s: nat, t: nat)
    ensures RoundUp(s, Pow2(k)) <= RoundUp(s + t, Pow2(k))
    ensures RoundUp(s + t, Pow2(k)) <= RoundUp(s, Pow2(k)) + RoundUp(t, Pow2(k))
  {
    var b := Pow2(k);
    var rs, rt, rst := RoundUp(s, b), RoundUp(t, b), RoundUp(s + t, b);
    RoundUpIsLeast(s, k, rst);
    RoundUpIsLeast(t, k, 0);
    RoundUpIsLeast(s + t, k, 0);
    LowIsMod(k, rs);
    LowIsMod(k, rt);
    LowSum(k, rs, rt);
    LowIsMod(k, rs + rt);
    RoundUpIsLeast(s + t, k, rs + rt);
  }

  lemma {:induction false} LowSum(k: nat, m: nat, n: nat)
    requires Low(k, m) == 0 && Low(k, n) == 0
    ensures Low(k, m + n) == 0
  {
    if k > 0 {
      LowSum(k - 1, m / 2, n / 2);
      assert (m + n) / 2 == m / 2 + n / 2;
    }
  }
}
