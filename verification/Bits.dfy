/** The shift and bitwise operators of C on non-negative integers of any size, and the length of
    a number in bits. Callers reduce modulo 2^32 or 2^64 where a register would lose bits. */
module Bits {

  function Shl(x: nat, k: nat): nat {
    if k == 0 then x else 2 * Shl(x, k - 1)
  }

  function One(b: bool): nat { if b then 1 else 0 }

  function Shr(x: nat, k: nat): nat {
    if k == 0 then x else Shr(x / 2, k - 1)
  }

  /** n one bits: (1 << n) - 1. */
  function Ones(n: nat): nat {
    if n == 0 then 0 else 2 * Ones(n - 1) + 1
  }

  /** The low n bits of x. */
  function Low(x: nat, n: nat): nat {
    if n == 0 then 0 else 2 * Low(x / 2, n - 1) + x % 2
  }

  predicate Bit(x: nat, i: nat) { Shr(x, i) % 2 == 1 }

  function BitAnd(a: nat, b: nat): nat {
    if a == 0 || b == 0 then 0
    else 2 * BitAnd(a / 2, b / 2) + (if a % 2 == 1 && b % 2 == 1 then 1 else 0)
  }

  function BitOr(a: nat, b: nat): nat {
    if a == 0 then b
    else if b == 0 then a
    else 2 * BitOr(a / 2, b / 2) + (if a % 2 == 1 || b % 2 == 1 then 1 else 0)
  }

  /** The number of bits up to and including the highest set one. */
  function Len(x: nat): nat {
    if x == 0 then 0 else 1 + Len(x / 2)
  }

  /** The number of zero bits below the lowest set one. */
  function TrailingZeros(x: nat): nat
    requires x > 0
  {
    if x % 2 == 1 then 0 else 1 + TrailingZeros(x / 2)
  }

  // ---- shifts ----

  lemma {:induction false} ShlPlus(x: nat, y: nat, k: nat)
    ensures Shl(x + y, k) == Shl(x, k) + Shl(y, k)
  {
    if k > 0 { ShlPlus(x, y, k - 1); }
  }

  lemma {:induction false} ShlOfZero(k: nat)
    ensures Shl(0, k) == 0
  {
    if k > 0 { ShlOfZero(k - 1); }
  }

  lemma ShlNext(x: nat, k: nat)
    ensures Shl(x, 0) == x && Shl(x, k + 1) == 2 * Shl(x, k)
  {}

  lemma {:induction false} ShlDouble(x: nat, k: nat)
    ensures Shl(2 * x, k) == 2 * Shl(x, k)
  {
    if k > 0 { ShlDouble(x, k - 1); }
  }

  lemma {:induction false} ShlShl(x: nat, j: nat, k: nat)
    ensures Shl(Shl(x, j), k) == Shl(x, j + k)
  {
    if k > 0 { ShlShl(x, j, k - 1); }
  }

  lemma {:induction false} ShlMono(x: nat, y: nat, k: nat)
    requires x <= y
    ensures Shl(x, k) <= Shl(y, k)
    ensures x < y ==> Shl(x, k) < Shl(y, k)
  {
    if k > 0 { ShlMono(x, y, k - 1); }
  }

  lemma {:induction false} ShlGrows(x: nat, j: nat, k: nat)
    requires j <= k
    ensures Shl(x, j) <= Shl(x, k)
  {
    if j < k { ShlGrows(x, j, k - 1); }
  }

  lemma Shl4(x: nat)
    ensures Shl(x, 4) == 16 * x
  {
    assert Shl(x, 1) == 2 * x;
    assert Shl(x, 2) == 2 * Shl(x, 1);
    assert Shl(x, 3) == 2 * Shl(x, 2);
  }

  lemma Shl16(x: nat)
    ensures Shl(x, 16) == 0x1_0000 * x
  {
    Shl4(x);
    ShlShl(x, 4, 4);
    Shl4(Shl(x, 4));
    ShlShl(x, 8, 4);
    Shl4(Shl(x, 8));
    ShlShl(x, 12, 4);
    Shl4(Shl(x, 12));
  }

  lemma ShlScaled(y: nat, k: nat)
    ensures Shl(0x1_0000 * y, k) == 0x1_0000 * Shl(y, k)
  {
    Shl16(y);
    ShlShl(y, 16, k);
    ShlShl(y, k, 16);
    Shl16(Shl(y, k));
  }

  lemma {:induction false} ShlProduct(x: nat, k: nat)
    ensures Shl(1, k) * x == Shl(x, k)
  {
    if k > 0 {
      ShlProduct(x, k - 1);
      assert 2 * Shl(1, k - 1) * x == 2 * (Shl(1, k - 1) * x);
    }
  }

  lemma {:induction false} ShrShr(x: nat, j: nat, k: nat)
    ensures Shr(Shr(x, j), k) == Shr(x, j + k)
    decreases j
  {
    if j > 0 { ShrShr(x / 2, j - 1, k); }
  }

  lemma Shr4(x: nat)
    ensures Shr(x, 4) == x / 16
  {
    assert Shr(x, 4) == Shr(x / 2, 3) == Shr(x / 2 / 2, 2);
    assert Shr(x / 2 / 2, 2) == Shr(x / 2 / 2 / 2, 1) == x / 2 / 2 / 2 / 2;
  }

  lemma Shr16(x: nat)
    ensures Shr(x, 16) == x / 0x1_0000
  {
    Shr4(x);
    ShrShr(x, 4, 4);
    Shr4(Shr(x, 4));
    ShrShr(x, 8, 4);
    Shr4(Shr(x, 8));
    ShrShr(x, 12, 4);
    Shr4(Shr(x, 12));
  }

  lemma Shr32(x: nat)
    ensures Shr(x, 32) == x / 0x1_0000_0000
  {
    ShrShr(x, 16, 16);
    Shr16(x);
    Shr16(Shr(x, 16));
  }

  // ---- the low bits of a number ----

  lemma {:induction false} OnesIs(n: nat)
    ensures Ones(n) + 1 == Shl(1, n)
  {
    if n > 0 { OnesIs(n - 1); }
  }

  lemma {:induction false} LowExtend(x: nat, n: nat)
    ensures Low(x, n + 1) == Low(x, n) + Shl(Shr(x, n) % 2, n)
    decreases n
  {
    if n > 0 { LowExtend(x / 2, n - 1); }
  }

  lemma {:induction false} LowSmall(x: nat, n: nat)
    ensures Low(x, n) < Shl(1, n)
    ensures x < Shl(1, n) ==> Low(x, n) == x
    decreases n
  {
    if n > 0 { LowSmall(x / 2, n - 1); }
  }

  lemma {:induction false} LowLow(x: nat, m: nat, n: nat)
    requires n <= m
    ensures Low(Low(x, m), n) == Low(x, n)
    decreases n
  {
    if n > 0 { LowLow(x / 2, m - 1, n - 1); }
  }

  lemma OrHalves(a: nat, b: nat)
    ensures BitOr(a, b) / 2 == BitOr(a / 2, b / 2)
    ensures BitOr(a, b) % 2 == if a % 2 == 1 || b % 2 == 1 then 1 else 0
  {}

  lemma {:induction false} LowOr(a: nat, b: nat, n: nat)
    ensures Low(BitOr(a, b), n) == BitOr(Low(a, n), Low(b, n))
    decreases n
  {
    if n > 0 {
      OrHalves(a, b);
      OrHalves(Low(a, n), Low(b, n));
      LowOr(a / 2, b / 2, n - 1);
    }
  }

  lemma {:induction false} LowOfShl(x: nat, k: nat, n: nat)
    requires n <= k
    ensures Low(Shl(x, k), n) == 0
    decreases n
  {
    if n > 0 { LowOfShl(x, k - 1, n - 1); }
  }

  lemma {:induction false} BitOfOnes(m: nat, j: nat, i: nat)
    requires j <= i < j + m
    ensures Bit(Shl(Ones(m), j), i)
    decreases i
  {
    if j > 0 {
      BitOfOnes(m, j - 1, i - 1);
    } else if i > 0 {
      BitOfOnes(m - 1, 0, i - 1);
    }
  }

  lemma {:induction false} ShrOfShl(x: nat, k: nat)
    ensures Shr(Shl(x, k), k) == x
  {
    if k > 0 { ShrOfShl(x, k - 1); }
  }

  lemma {:induction false} ShrStep(x: nat, k: nat)
    ensures Shr(x, k + 1) == Shr(x, k) / 2
    decreases k
  {
    if k > 0 { ShrStep(x / 2, k - 1); }
  }

  // ---- and, or ----

  lemma {:induction false} BitOfZero(i: nat)
    ensures Shr(0, i) == 0 && !Bit(0, i)
  {
    if i > 0 { BitOfZero(i - 1); }
  }

  lemma {:induction false} BitOfAnd(a: nat, b: nat, i: nat)
    ensures Bit(BitAnd(a, b), i) == (Bit(a, i) && Bit(b, i))
    decreases i
  {
    hide BitAnd;
    AndHalves(a, b);
    if i > 0 { BitOfAnd(a / 2, b / 2, i - 1); }
  }

  lemma AndHalves(a: nat, b: nat)
    ensures BitAnd(a, b) / 2 == BitAnd(a / 2, b / 2)
    ensures BitAnd(a, b) % 2 == if a % 2 == 1 && b % 2 == 1 then 1 else 0
  {}

  lemma {:induction false} BitOfOr(a: nat, b: nat, i: nat)
    ensures Bit(BitOr(a, b), i) == (Bit(a, i) || Bit(b, i))
    decreases i
  {
    hide BitOr;
    OrHalves(a, b);
    if i > 0 { BitOfOr(a / 2, b / 2, i - 1); }
  }

  /** Or-ing a value into bits that are clear adds it. */
  lemma {:induction false} OrDisjoint(x: nat, y: nat, k: nat)
    requires y < Shl(1, k)
    ensures BitOr(Shl(x, k), y) == Shl(x, k) + y
    decreases k
  {
    if k > 0 && y > 0 && Shl(x, k) > 0 {
      OrDisjoint(x, y / 2, k - 1);
    }
  }

  // ---- lengths ----

  lemma {:induction false} LenMono(x: nat, y: nat)
    requires x <= y
    ensures Len(x) <= Len(y)
  {
    if x > 0 { LenMono(x / 2, y / 2); }
  }

  lemma {:induction false} LenShl(x: nat, k: nat)
    requires x > 0
    ensures Len(Shl(x, k)) == Len(x) + k && Shl(x, k) > 0
  {
    if k > 0 { LenShl(x, k - 1); }
  }

  lemma {:induction false} LenShr(x: nat, k: nat)
    requires Len(x) >= k
    ensures Len(Shr(x, k)) == Len(x) - k
    decreases k
  {
    if k > 0 { LenShr(x / 2, k - 1); }
  }

  lemma {:induction false} ShrZero(x: nat, k: nat)
    requires Len(x) <= k
    ensures Shr(x, k) == 0
    decreases k
  {
    if k > 0 && x > 0 { ShrZero(x / 2, k - 1); }
    if x == 0 { BitOfZero(k); }
  }

  /** A number is at least half of, and less than, the power of two of its length. */
  lemma {:induction false} LenBounds(x: nat)
    requires x > 0
    ensures Shl(1, Len(x) - 1) <= x < Shl(1, Len(x))
  {
    hide Shl;
    ShlNext(1, Len(x) - 1);
    if x > 1 {
      LenBounds(x / 2);
      ShlNext(1, Len(x) - 2);
    }
  }

  lemma Powers()
    ensures Shl(1, 16) == 0x1_0000 && Shl(1, 31) == 0x8000_0000 && Shl(1, 32) == 0x1_0000_0000
    ensures Shl(1, 63) == 0x8000_0000_0000_0000 && Shl(1, 64) == 0x1_0000_0000_0000_0000
  {
    Shl16(1);
    ShlShl(1, 16, 16);
    Shl16(Shl(1, 16));
    ShlShl(1, 32, 16);
    Shl16(Shl(1, 32));
    ShlShl(1, 48, 16);
    Shl16(Shl(1, 48));
  }

  /** Membership in the 32-bit and 64-bit words, by length. */
  lemma LenWord(x: nat)
    ensures Len(x) <= 32 <==> x < 0x1_0000_0000
    ensures Len(x) <= 64 <==> x < 0x1_0000_0000_0000_0000
    ensures Len(x) == 64 ==> 0x8000_0000_0000_0000 <= x
  {
    Powers();
    if x > 0 {
      LenBounds(x);
      if Len(x) <= 32 { ShlGrows(1, Len(x), 32); } else { ShlGrows(1, 32, Len(x) - 1); }
      if Len(x) <= 64 { ShlGrows(1, Len(x), 64); } else { ShlGrows(1, 64, Len(x) - 1); }
    }
  }

  // ---- masks ----

  lemma AndNone(x: nat)
    ensures BitAnd(x, 0) == 0 && BitAnd(0, x) == 0
  {}

  lemma AndUnfold(a: nat, b: nat)
    requires a > 0 && b > 0
    ensures BitAnd(a, b) == 2 * BitAnd(a / 2, b / 2) + (if a % 2 == 1 && b % 2 == 1 then 1 else 0)
  {}

  lemma AndStep(x: nat, y: nat)
    ensures BitAnd(x, 2 * y + 1) == 2 * BitAnd(x / 2, y) + x % 2
  {
    hide BitAnd;
    if x == 0 {
      AndNone(y);
      AndNone(2 * y + 1);
    } else {
      AndUnfold(x, 2 * y + 1);
      assert (2 * y + 1) / 2 == y && (2 * y + 1) % 2 == 1;
    }
  }

  lemma MaskStep(x: nat, m: nat)
    requires m > 0 && BitAnd(x / 2, m - 1) == x / 2 % m
    ensures BitAnd(x, 2 * m - 1) == x % (2 * m)
  {
    hide BitAnd;
    AndStep(x, m - 1);
    ModHalf(x, m);
  }

  /** `x & ((1 << n) - 1)` is the remainder modulo 2^n. */
  lemma {:induction false} MaskIsMod(x: nat, n: nat)
    ensures Shl(1, n) > 0 && BitAnd(x, Shl(1, n) - 1) == x % Shl(1, n)
  {
    hide BitAnd, Shl;
    if n == 0 {
      ShlNext(1, 0);
      AndNone(x);
    } else {
      MaskIsMod(x / 2, n - 1);
      ShlNext(1, n - 1);
      MaskStep(x, Shl(1, n - 1));
    }
  }

  lemma ModHalf(x: nat, m: nat)
    requires m > 0
    ensures x % (2 * m) == 2 * (x / 2 % m) + x % 2
  {
    DivModOf(x / 2, m);
    ModTwice(x, x / 2, x % 2, m, x / 2 / m, x / 2 % m);
  }

  lemma DivModOf(a: int, b: int)
    requires b > 0
    ensures a == a / b * b + a % b && 0 <= a % b < b
  {}

  lemma ModTwice(x: nat, h: nat, bit: nat, m: nat, q: int, r: int)
    requires x == 2 * h + bit && bit < 2 && h == q * m + r && 0 <= r < m
    ensures x % (2 * m) == 2 * r + bit
  {
    assert q * (2 * m) == 2 * (q * m);
    DivModUnique(x, 2 * m, q, 2 * r + bit);
  }

  /** Adding a multiple of the modulus changes nothing. */
  lemma AddMultiple(x: int, k: int, m: int)
    requires m > 0
    ensures (x + k * m) % m == x % m
  {
    var q, r := x / m, x % m;
    assert x == m * q + r;
    assert x + k * m == (q + k) * m + r;
    DivModUnique(x + k * m, m, q + k, r);
  }

  // ---- products and division ----

  function Abs(v: int): nat { if v < 0 then -v else v }

  lemma Regroup(a: int, b: int, c: int)
    ensures (a * b) * c == (c * b) * a
  {}

  lemma MulApart(p: int, k: int)
    requires p > 0
    ensures k >= 1 ==> p * k >= p
    ensures k <= -1 ==> p * k <= -p
  {}

  lemma MulLe(a: nat, b: nat, c: nat, d: nat)
    requires a <= c && b <= d
    ensures a * b <= c * d
  {
    assert a * b <= c * b;
  }

  /** Quotient and remainder are the only pair that fits. */
  lemma DivModUnique(a: int, b: int, q: int, r: int)
    requires b > 0 && a == q * b + r && 0 <= r < b
    ensures a / b == q && a % b == r
  {
    var q', r' := a / b, a % b;
    assert a == b * q' + r';
    assert b * (q' - q) == r - r';
    MulApart(b, q' - q);
  }

  lemma {:induction false} ShlQuotient(a: nat, b: nat, k: nat)
    requires b > 0
    ensures Shl(b, k) > 0 && Shl(a, k) / Shl(b, k) == a / b
  {
    if k > 0 {
      ShlQuotient(a, b, k - 1);
      DoubleQuotient(Shl(a, k - 1), Shl(b, k - 1));
    }
  }

  lemma DoubleQuotient(x: nat, y: nat)
    requires y > 0
    ensures (2 * x) / (2 * y) == x / y
  {
    var q, r := x / y, x % y;
    assert x == y * q + r;
    assert 2 * x == q * (2 * y) + 2 * r;
    DivModUnique(2 * x, 2 * y, q, 2 * r);
  }
}
