// Powers of two, the arithmetic behind every shift in the entropy coder.
module Power {

  /** 2^n; `1 << n` of the source for shift counts that do not wrap. */
  function Pow2(n: nat): (r: nat)
    ensures r >= 1
  {
    if n == 0 then 1 else 2 * Pow2(n - 1)
  }

  lemma {:induction false} Pow2Sixteen()
    ensures Pow2(8) == 0x100 && Pow2(16) == 0x10000
  {
    assert Pow2(4) == 16;
    assert Pow2(8) == 0x100;
    Pow2Add(8, 8);
  }

  /** Solver helper: equal exponents, however they are written, give equal
      powers. */
  lemma {:induction false} Pow2Congruence(n: nat, m: nat)
    requires n == m
    ensures Pow2(n) == Pow2(m)
  {
  }

  lemma {:induction false} Pow2Add(a: nat, b: nat)
    ensures Pow2(a + b) == Pow2(a) * Pow2(b)
  {
    if b > 0 {
      Pow2Add(a, b - 1);
      assert Pow2(a + b) == 2 * Pow2(a + b - 1);
      assert Pow2(a) * Pow2(b) == Pow2(a) * (2 * Pow2(b - 1));
    }
  }

  lemma {:induction false} Pow2Monotone(a: nat, b: nat)
    requires a <= b
    ensures Pow2(a) <= Pow2(b)
  {
    if a < b {
      Pow2Monotone(a, b - 1);
    }
  }

  /** Multiplying both sides of an inequality by a non-negative factor. */
  lemma {:induction false} MulMonotone(x: int, y: int, k: nat)
    requires x <= y
    ensures x * k <= y * k
  {
  }

  lemma {:induction false} MulCancel(a: int, b: int, k: nat)
    requires k >= 1 && a * k <= b * k
    ensures a <= b
  {
    if a > b {
      MulMonotone(b + 1, a, k);
    }
  }

  lemma {:induction false} AddOne(a: int, k: int)
    ensures a * k + k == (a + 1) * k
  {
  }

  lemma {:induction false} DivAtLeast(x: int, q: int, d: nat)
    requires d >= 1 && q * d <= x
    ensures q <= x / d
  {
    var z := x / d;
    assert x == z * d + x % d;
    if z < q {
      MulMonotone(z + 1, q, d);
      AddOne(z, d);
    }
  }

  /** a * 2^m <= c gives a * 2^(m + n) <= (c + 1) * 2^n. */
  lemma {:induction false} ScaleGap(a: int, c: int, m: nat, n: nat)
    requires a * Pow2(m) <= c
    ensures a * Pow2(m + n) <= (c + 1) * Pow2(n)
  {
    Pow2Add(m, n);
    MulMonotone(a * Pow2(m), c + 1, Pow2(n));
    assert a * Pow2(m) * Pow2(n) == a * (Pow2(m) * Pow2(n));
  }

  /** Solver helper: regrouping a product without nonlinear search. */
  lemma {:induction false} MulAssoc(a: int, b: int, c: int)
    ensures a * b * c == a * (b * c)
  {
  }

  /** `v << n` on unbounded integers: v doubled n times. */
  function Shl(v: int, n: nat): int
  {
    if n == 0 then v else 2 * Shl(v, n - 1)
  }

  lemma {:induction false} ShlPow2(v: int, n: nat)
    ensures Shl(v, n) == v * Pow2(n)
  {
    if n > 0 {
      ShlPow2(v, n - 1);
      MulAssoc(v, 2, Pow2(n - 1));
    }
  }

  lemma {:induction false} ShlOne(n: nat)
    ensures Shl(1, n) == Pow2(n)
  {
    if n > 0 {
      ShlOne(n - 1);
    }
  }

  /** Shifting distributes over addition. */
  lemma {:induction false} ShlAdd(x: int, y: int, n: nat)
    ensures Shl(x + y, n) == Shl(x, n) + Shl(y, n)
  {
    if n > 0 {
      ShlAdd(x, y, n - 1);
    }
  }

  /** Two shifts in a row are one shift by the sum. */
  lemma {:induction false} ShlShl(x: int, a: nat, b: nat)
    ensures Shl(Shl(x, a), b) == Shl(x, a + b)
  {
    if b > 0 {
      ShlShl(x, a, b - 1);
    }
  }

  lemma {:induction false} ShlMonotone(x: int, y: int, n: nat)
    requires x <= y
    ensures Shl(x, n) <= Shl(y, n)
  {
    if n > 0 {
      ShlMonotone(x, y, n - 1);
    }
  }

  lemma {:induction false} ShlZero(n: nat)
    ensures Shl(0, n) == 0
  {
    if n > 0 {
      ShlZero(n - 1);
    }
  }

  lemma {:induction false} ShlByte(x: int)
    ensures Shl(x, 8) == 256 * x
  {
    assert Shl(x, 1) == 2 * x;
    assert Shl(x, 2) == 4 * x;
    assert Shl(x, 3) == 8 * x;
    assert Shl(x, 4) == 16 * x;
    assert Shl(x, 5) == 32 * x;
    assert Shl(x, 6) == 64 * x;
    assert Shl(x, 7) == 128 * x;
  }

  lemma {:induction false} ShlSixteen(x: int)
    ensures Shl(x, 16) == 65536 * x
  {
    ShlByte(x);
    ShlByte(Shl(x, 8));
    ShlShl(x, 8, 8);
  }

  /** One place of a shift by at least one. */
  lemma {:induction false} ShlStep(v: int, n: nat)
    requires n >= 1
    ensures Shl(v, n) == 2 * Shl(v, n - 1)
  {
  }

  /** A number below 2^n, shifted by m, stays below 2^(n + m). */
  lemma {:induction false} ShlBelow(x: int, n: nat, m: nat)
    requires 0 <= x < Shl(1, n)
    ensures 0 <= Shl(x, m) < Shl(1, n + m)
  {
    ShlZero(m);
    ShlMonotone(0, x, m);
    ShlMonotone(x + 1, Shl(1, n), m);
    ShlAdd(x, 1, m);
    ShlShl(1, n, m);
    ShlOne(m);
  }

  /** Doubling first and shifting one place less is the same shift. */
  lemma {:induction false} ShlDouble(v: int, n: nat)
    requires n >= 1
    ensures Shl(2 * v, n - 1) == Shl(v, n)
  {
    ShlShl(v, 1, n - 1);
  }

  /** Solver helper: equal operands shift to equal values. Stated as a lemma so that two
      differently written exponents meet without unfolding Shl. */
  lemma {:induction false} ShlCongruence(x: int, y: int, n: nat, m: nat)
    requires x == y && n == m
    ensures Shl(x, n) == Shl(y, m)
  {
  }
}
