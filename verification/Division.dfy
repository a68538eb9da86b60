/** The shift-subtract divider for targets without a 64-bit divide instruction
    (lib/mylib/math/helper.c). */
module Division {

  const U64 := 0x1_0000_0000_0000_0000

  function Pow2(n: nat): (p: int)
    ensures p > 0
  {
    if n == 0 then 1 else 2 * Pow2(n - 1)
  }

  /** `a >> i` */
  function Shr(a: int, i: nat): int { a / Pow2(i) }

  /** `(a >> i) & 1` */
  function BitAt(a: int, i: nat): int { Shr(a, i) % 2 }

  /** `q | (1 << i)` */
  function SetBit(q: int, i: nat): int { if BitAt(q, i) == 1 then q else q + Pow2(i) }

  lemma DivUnique(a: int, b: int, q: int, r: int)
    requires 0 < b && 0 <= r < b && a == b * q + r
    ensures a / b == q && a % b == r
  {
    var q', r' := a / b, a % b;
    assert a == b * q' + r';
    assert b * (q - q') == r' - r;
    if q - q' >= 1 { MulGe(b, q - q', 1); }
    if q - q' <= -1 { MulGe(b, q' - q, 1); }
  }

  lemma MulGe(b: int, x: int, y: int)
    requires 0 < b && x >= y
    ensures b * x >= b * y
  {
  }

  /** One more bit of a enters from the right. */
  lemma ShrStep(a: int, i: nat)
    requires 0 <= a
    ensures Shr(a, i) == 2 * Shr(a, i + 1) + BitAt(a, i)
  {
    var p, s := Pow2(i), Shr(a, i);
    var r := a % p;
    assert a == p * s + r;
    var t, u := s / 2, s % 2;
    assert p * s == p * (2 * t + u) == 2 * p * t + p * u;
    MulGe(p, 1, u);
    assert 0 <= p * u + r < 2 * p;
    DivUnique(a, 2 * p, t, p * u + r);
  }

  lemma ShrAll(a: int)
    ensures Shr(a, 0) == a
  {
  }

  lemma {:induction false} ShrBound(a: int, i: nat, n: nat)
    requires 0 <= a < Pow2(n) && i <= n
    ensures 0 <= Shr(a, i) < Pow2(n - i)
    decreases i
  {
    if i > 0 {
      ShrBound(a, i - 1, n);
      ShrStep(a, i - 1);
    }
  }

  lemma {:induction false} Pow2Add(i: nat, j: nat)
    ensures Pow2(i + j) == Pow2(i) * Pow2(j)
  {
    if i > 0 { Pow2Add(i - 1, j); }
  }

  lemma Pow2Is()
    ensures Pow2(64) == U64 && Pow2(63) == U64 / 2
  {
    assert Pow2(8) == 256;
    Pow2Add(8, 8);
    Pow2Add(16, 16);
    Pow2Add(32, 32);
  }

  lemma {:induction false} Pow2Monotone(i: nat, j: nat)
    requires i <= j
    ensures Pow2(i) <= Pow2(j)
    decreases j - i
  {
    if i < j { Pow2Monotone(i, j - 1); }
  }

  /** A multiple of 2^(i+1) has bit i clear. */
  lemma ClearBit(x: int, i: nat)
    ensures BitAt(Pow2(i + 1) * x, i) == 0
  {
    var p := Pow2(i);
    assert Pow2(i + 1) * x == p * (2 * x) + 0;
    DivUnique(Pow2(i + 1) * x, p, 2 * x, 0);
  }

  /** The remainder that goes into step i. It is below 2^63, so shifting it left
      loses no bit, also when b is above 2^63. */
  lemma NoBitLost(a: int, b: int, x: int, r: int, i: nat)
    requires 0 <= a < U64 && 0 < b && i < 64 && Shr(a, i + 1) == b * x + r && 0 <= r && 0 <= x
    ensures 2 * r + BitAt(a, i) < U64
  {
    Pow2Is();
    ShrBound(a, i + 1, 64);
    Pow2Monotone(64 - (i + 1), 63);
    assert b * x >= 0;
  }

  /** Before bit i - 1 enters: x and r are quotient and remainder of a >> i, and q
      is x in its place. */
  ghost predicate Stage(a: int, b: int, x: int, q: int, r: int, i: nat) {
    0 <= x && 0 <= r < b && Shr(a, i) == b * x + r && q == Pow2(i) * x
  }

  lemma StageStart(a: int, b: int)
    requires 0 <= a < U64 && 0 < b
    ensures Stage(a, b, 0, 0, 0, 64)
  {
    Pow2Is();
    ShrBound(a, 64, 64);
  }

  /** What a step makes of quotient and remainder. */
  lemma StageStep(a: int, b: int, x: int, q: int, r: int, i: nat)
    requires 0 <= a < U64 && 0 < b && i < 64 && Stage(a, b, x, q, r, i + 1)
    ensures var r1 := 2 * r + BitAt(a, i);
      && (2 * r) % U64 == 2 * r
      && if r1 >= b then Stage(a, b, 2 * x + 1, SetBit(q, i), r1 - b, i) else Stage(a, b, 2 * x, q, r1, i)
  {
    var r1 := 2 * r + BitAt(a, i);
    ShrStep(a, i);
    NoBitLost(a, b, x, r, i);
    ClearBit(x, i);
    StepQuotient(i, x, b);
  }

  lemma StageEnd(a: int, b: int, x: int, q: int, r: int)
    requires 0 < b && Stage(a, b, x, q, r, 0)
    ensures q == a / b
  {
    ShrAll(a);
    DivUnique(a, b, x, r);
  }

  /** __udivdi3 (lib/mylib/math/helper.c:4-16). */
  method Udivdi3(a: int, b: int) returns (q: int)
    requires 0 <= a < U64 && 0 <= b < U64
    ensures b == 0 ==> q == U64 - 1
    ensures b > 0 ==> q == a / b
  {
    if b == 0 {
      return U64 - 1;
    }
    q := 0;
    var r := 0;
    ghost var x := 0;
    var i := 63;
    StageStart(a, b);
    while i >= 0
      invariant -1 <= i <= 63 && Stage(a, b, x, q, r, i + 1)
      decreases i
    {
      StageStep(a, b, x, q, r, i);
      r := (2 * r) % U64 + BitAt(a, i);
      x := 2 * x;
      if r >= b {
        r := r - b;
        q := SetBit(q, i);
        x := x + 1;
      }
      i := i - 1;
    }
    StageEnd(a, b, x, q, r);
  }

  lemma StepQuotient(i: nat, x: int, b: int)
    ensures Pow2(i + 1) * x == Pow2(i) * (2 * x)
    ensures Pow2(i + 1) * x + Pow2(i) == Pow2(i) * (2 * x + 1)
    ensures b * (2 * x) == 2 * (b * x) && b * (2 * x + 1) == 2 * (b * x) + b
  {
  }

  /** __umoddi3: the product and the difference are taken modulo 2^64. */
  method Umoddi3(a: int, b: int) returns (r: int)
    requires 0 <= a < U64 && 0 <= b < U64
    ensures b == 0 ==> r == U64 - 1
    ensures b > 0 ==> r == a % b
  {
    if b == 0 {
      return U64 - 1;
    }
    var q := Udivdi3(a, b);
    ProductFits(a, b, q);
    r := (a - (q * b) % U64) % U64;
  }

  lemma ProductFits(a: int, b: int, q: int)
    requires 0 <= a < U64 && 0 < b && q == a / b
    ensures (q * b) % U64 == q * b && (a - q * b) % U64 == a % b
  {
    assert a == q * b + a % b;
    assert 0 <= a % b <= a && q * b >= 0 by { MulGe(b, q, 0); }
  }
}
