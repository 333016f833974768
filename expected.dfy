/**
 * Compat::expected_different: the fixed-point estimate of how many different
 * characters a random password of a given length contains.
 *
 * PHP precedence makes line 107 `(charset - 1) << (int)(15 / charset)` and
 * line 112 `charset << (15 - y)`; a negative shift count raises.
 */
module Expected {
  import opened Bytes

  /** Compat::FIXED_BITS. */
  const FixedBits: nat := 15

  /** The charsets is_simple asks about, one per tier. */
  predicate TierCharset(c: int) {
    c == 10 || c == 27 || c == 36 || c == 62 || c == 95
  }

  function Pow2(n: nat): (r: nat)
    ensures r >= 1
  {
    if n == 0 then 1 else 2 * Pow2(n - 1)
  }

  /** 1.0 in the 15-bit fixed-point format, 1 << FIXED_BITS. */
  const Scale: nat := 0x8000

  /** x = (charset - 1) << (15 / charset), the per-character probability in fixed point. */
  function Start(charset: int): (x: nat)
    requires 1 <= charset <= 0x8000
  {
    (charset - 1) * Pow2(FixedBits / charset)
  }

  /** y after `steps` rounds of y := (y * x) >> 15. */
  function Refine(y: nat, x: nat, steps: nat): nat
    decreases steps
  {
    if steps == 0 then y else Refine((y * x) / Scale, x, steps - 1)
  }

  /** How often `while (--$length > 0)` runs its body. */
  function Rounds(length: int): nat {
    if length > 1 then length - 1 else 0
  }

  /**
   * What expected_different(charset, length) evaluates to: floor(charset / 2^y)
   * for the refined y, or the error of shifting by 15 - y < 0.
   */
  function ExpectedDifferentSpec(charset: int, length: int): (r: Outcome<int>)
    requires 1 <= charset <= 0x8000
  {
    var x := Start(charset);
    var y := Refine(x, x, Rounds(length));
    if y > FixedBits then NegativeShift else Ok(charset / Pow2(y))
  }

  method ExpectedDifferent(charset: int, length: int) returns (r: Outcome<int>)
    requires 1 <= charset <= 0x8000
    ensures r == ExpectedDifferentSpec(charset, length)
    ensures r.Ok? ==> 0 <= r.value <= charset
  {
    var x: nat := (charset - 1) * Pow2(FixedBits / charset);
    var y: nat := x;
    var n := length - 1;
    while n > 0
      invariant Refine(y, x, if n > 0 then n else 0) == Refine(x, x, Rounds(length))
    {
      y := (y * x) / Scale;
      n := n - 1;
    }
    if FixedBits - y < 0 {
      return NegativeShift;
    }
    var z := (charset * 1) * Pow2(FixedBits - y);
    ShiftCancels(charset, FixedBits - y, y);
    r := Ok(z / Scale);
    DivFloor(charset, Pow2(y), 0);
    DivAtMost(charset, Pow2(y));
  }

  lemma Pow2Add(a: nat, b: nat)
    ensures Pow2(a + b) == Pow2(a) * Pow2(b)
  {
    if a > 0 {
      Pow2Add(a - 1, b);
    }
  }

  lemma MulLe(a: int, b: int, d: int)
    requires a <= b && d >= 0
    ensures a * d <= b * d
  {
    assert b * d == a * d + (b - a) * d;
  }

  lemma DivUnique(n: int, d: int, q: int, r: int)
    requires d > 0 && n == q * d + r && 0 <= r < d
    ensures n / d == q
  {
    var q0, r0 := n / d, n % d;
    assert n == q0 * d + r0;
    if q0 < q {
      MulLe(q0 + 1, q, d);
    } else if q < q0 {
      MulLe(q + 1, q0, d);
    }
  }

  /** Any multiple of d that fits under c is at most c / d of them. */
  lemma DivFloor(c: int, d: int, q: int)
    requires d >= 1 && q * d <= c
    ensures q <= c / d
  {
    var q0, r0 := c / d, c % d;
    assert c == q0 * d + r0;
    if q > q0 {
      MulLe(q0 + 1, q, d);
    }
  }

  lemma DivAtMost(c: nat, d: int)
    requires d >= 1
    ensures c / d <= c
  {
    var q0, r0 := c / d, c % d;
    assert c == q0 * d + r0;
    MulLe(1, d, q0);
  }

  lemma Distribute(q: int, d: int, r: int, p: int)
    ensures (q * d + r) * p == q * (p * d) + r * p
  {
  }

  lemma CancelFactor(c: nat, p: int, d: int)
    requires p >= 1 && d >= 1
    ensures (c * p) / (p * d) == c / d
  {
    var q, r := c / d, c % d;
    assert c == q * d + r;
    Distribute(q, d, r, p);
    MulLe(r + 1, d, p);
    DivUnique(c * p, p * d, q, r * p);
  }

  /** (c << a) >> (a + b) == c / 2^b for non-negative c. */
  lemma ShiftCancels(c: nat, a: nat, b: nat)
    requires a + b == FixedBits
    ensures (c * Pow2(a)) / Scale == c / Pow2(b)
  {
    Pow2Add(a, b);
    assert Pow2(FixedBits) == Scale;
    CancelFactor(c, Pow2(a), Pow2(b));
  }

  lemma {:induction false} RefineZero(x: nat, steps: nat)
    ensures Refine(0, x, steps) == 0
  {
    if steps > 0 {
      RefineZero(x, steps - 1);
    }
  }

  /** With x below 2^15 every round can only shrink y. */
  lemma {:induction false} RefineShrinks(y: nat, x: nat, steps: nat)
    requires x < Scale
    ensures Refine(y, x, steps) <= y
  {
    if steps > 0 {
      var y' := (y * x) / Scale;
      assert y' <= y by {
        MulLe(x, Scale, y);
        assert y' * Scale <= y * x by {
          assert y * x == y' * Scale + (y * x) % Scale;
        }
        assert y' * Scale <= y * Scale;
        if y' > y {
          MulLe(y + 1, y', Scale);
        }
      }
      RefineShrinks(y', x, steps - 1);
    }
  }

  /** More rounds never give a larger y. */
  lemma {:induction false} RefineMonotone(y: nat, x: nat, s1: nat, s2: nat)
    requires x < Scale && s1 <= s2
    ensures Refine(y, x, s2) <= Refine(y, x, s1)
    decreases s1
  {
    if s1 == 0 {
      RefineShrinks(y, x, s2);
    } else {
      RefineMonotone((y * x) / Scale, x, s1 - 1, s2 - 1);
    }
  }

  lemma {:induction false} Pow2Monotone(a: nat, b: nat)
    requires a <= b
    ensures Pow2(a) <= Pow2(b)
    decreases b
  {
    if a < b {
      Pow2Monotone(a, b - 1);
    }
  }

  lemma StartBelowOne(charset: int)
    requires 1 <= charset <= 0x8000
    ensures Start(charset) < Scale
  {
    var e := FixedBits / charset;
    if charset > FixedBits {
      assert e == 0;
    } else if charset >= 2 {
      assert e <= 7;
      Pow2Monotone(e, 7);
      assert Pow2(7) == 128;
      MulLe(Pow2(e), 128, charset - 1);
    }
  }

  /**
   * For the tier charsets a single round already brings y to 0, so from length 2
   * on the estimate is exactly the charset; at length 1 or below y stays at
   * x > 15 and the final shift raises.
   */
  lemma ExpectedDifferentOfTier(charset: int, length: int)
    requires TierCharset(charset)
    ensures length >= 2 ==> ExpectedDifferentSpec(charset, length) == Ok(charset)
    ensures length <= 1 ==> ExpectedDifferentSpec(charset, length) == NegativeShift
  {
    var x := Start(charset);
    assert x == if charset == 10 then 18 else charset - 1;
    if length >= 2 {
      assert (x * x) / Scale == 0;
      RefineZero(x, Rounds(length) - 1);
      assert Refine(x, x, Rounds(length)) == 0;
    }
  }

  /**
   * Whenever the estimate is defined at some length it is defined at every
   * greater length, and it does not decrease.
   */
  lemma ExpectedDifferentMonotone(charset: int, n1: int, n2: int)
    requires 1 <= charset <= 0x8000 && n1 <= n2
    requires ExpectedDifferentSpec(charset, n1).Ok?
    ensures ExpectedDifferentSpec(charset, n2).Ok?
    ensures ExpectedDifferentSpec(charset, n1).value <= ExpectedDifferentSpec(charset, n2).value
  {
    var x := Start(charset);
    StartBelowOne(charset);
    var y1 := Refine(x, x, Rounds(n1));
    var y2 := Refine(x, x, Rounds(n2));
    RefineMonotone(x, x, Rounds(n1), Rounds(n2));
    assert y2 <= y1;
    Pow2Add(y2, y1 - y2);
    DivideByMore(charset, Pow2(y2), Pow2(y1 - y2));
  }

  lemma DivideByMore(c: nat, d: int, k: int)
    requires d >= 1 && k >= 1
    ensures c / (d * k) <= c / d
  {
    var q := c / (d * k);
    assert q * (d * k) <= c by {
      assert c == q * (d * k) + c % (d * k);
    }
    MulLe(d, d * k, q) by { MulLe(1, k, d); }
    assert q * d <= q * (d * k);
    DivFloor(c, d, q);
  }
}
