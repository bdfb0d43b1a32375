/** 64-bit division and remainder as sw/zlib/udiv.c and sw/zlib/umod.c compute them. An unsigned
    machine word is a nat below 2^32 or 2^64; operations that could lose bits are reduced. */
module Division {
  import opened Bits

  // ---- bit reversal and the leading-zero count ----

  /** acc followed by the low n bits of b, lowest first. */
  function Reversed(b: nat, n: nat, acc: nat): nat {
    if n == 0 then acc else Reversed(b / 2, n - 1, 2 * acc + b % 2)
  }

  lemma {:induction false} ReversedZero(n: nat, acc: nat)
    ensures Reversed(0, n, acc) == Shl(acc, n)
  {
    if n > 0 {
      ReversedZero(n - 1, 2 * acc);
      ShlDouble(acc, n - 1);
    }
  }

  lemma {:induction false} ZerosOfShl(x: nat, n: nat)
    requires x % 2 == 1
    ensures Shl(x, n) > 0 && TrailingZeros(Shl(x, n)) == n
  {
    if n > 0 { ZerosOfShl(x, n - 1); }
  }

  /** Leading zeros of an n-bit number are the trailing zeros of its reversal. */
  lemma {:induction false} ZerosOfReversed(b: nat, n: nat, acc: nat)
    requires 0 < Len(b) <= n
    ensures Reversed(b, n, acc) > 0 && TrailingZeros(Reversed(b, n, acc)) == n - Len(b)
    decreases n
  {
    if b == 1 {
      ReversedZero(n - 1, 2 * acc + 1);
      ZerosOfShl(2 * acc + 1, n - 1);
    } else {
      ZerosOfReversed(b / 2, n - 1, 2 * acc + b % 2);
    }
  }

  /** Bit i of the reversal is bit n - 1 - i of the number; above them sits what was there before. */
  lemma {:induction false} ReversedBit(b: nat, n: nat, acc: nat, i: nat)
    ensures Bit(Reversed(b, n, acc), i) == if i < n then Bit(b, n - 1 - i) else Bit(acc, i - n)
    decreases n
  {
    if n > 0 {
      ReversedBit(b / 2, n - 1, 2 * acc + b % 2, i);
    }
  }

  lemma {:induction false} ReversedBound(b: nat, n: nat, acc: nat, i: nat)
    requires acc < Shl(1, i)
    ensures Reversed(b, n, acc) < Shl(1, i + n)
    decreases n
  {
    if n > 0 { ReversedBound(b / 2, n - 1, 2 * acc + b % 2, i + 1); }
  }

  lemma AppendBit(r: nat, bit: nat, i: nat)
    requires i < 32 && r < Shl(1, i) && bit < 2
    ensures BitOr(r * 2 % 0x1_0000_0000, bit) == 2 * r + bit < Shl(1, i + 1)
  {
    hide BitOr;
    assert Shl(1, i) <= 0x8000_0000 by {
      Powers();
      ShlGrows(1, i, 31);
    }
    OrBit(r, bit);
  }

  lemma OrBit(r: nat, bit: nat)
    requires bit < 2
    ensures BitOr(2 * r, bit) == 2 * r + bit
  {
    OrDisjoint(r, bit, 1);
  }

  /** The loop reverses the 32 bits. */
  method Bitrev(a: nat) returns (r: nat)
    requires a < 0x1_0000_0000
    ensures r == Reversed(a, 32, 0) && r < 0x1_0000_0000
    ensures forall i: nat | i < 32 :: Bit(r, i) == Bit(a, 31 - i)
  {
    hide Shl, Bit, BitOr;
    Powers();
    OnesIs(0);
    var b := a;
    r := 0;
    var i := 0;
    while i < 32
      invariant 0 <= i <= 32 && r < Shl(1, i)
      invariant Reversed(b, 32 - i, r) == Reversed(a, 32, 0)
    {
      AppendBit(r, b % 2, i);
      r := BitOr(r * 2 % 0x1_0000_0000, b % 2);
      b := b / 2;
      i := i + 1;
    }
    forall k: nat | k < 32 ensures Bit(r, k) == Bit(a, 31 - k) { ReversedBit(a, 32, 0, k); }
  }

  lemma ShiftOut1(x: nat)
    requires x > 0
    ensures x % 2 == 0 <==> 1 <= TrailingZeros(x)
    ensures x % 2 == 0 ==> x / 2 > 0 && TrailingZeros(x / 2) == TrailingZeros(x) - 1
  {}

  lemma ShiftOut2(x: nat)
    requires x > 0
    ensures x % 4 == 0 <==> 2 <= TrailingZeros(x)
    ensures x % 4 == 0 ==> x / 4 > 0 && TrailingZeros(x / 4) == TrailingZeros(x) - 2
  {
    ShiftOut1(x);
    if x % 2 == 0 { ShiftOut1(x / 2); }
  }

  lemma ShiftOut4(x: nat)
    requires x > 0
    ensures x % 16 == 0 <==> 4 <= TrailingZeros(x)
    ensures x % 16 == 0 ==> x / 16 > 0 && TrailingZeros(x / 16) == TrailingZeros(x) - 4
  {
    ShiftOut2(x);
    if x % 4 == 0 { ShiftOut2(x / 4); }
  }

  lemma Halves8(x: nat)
    ensures x % 0x100 == 0 <==> x % 16 == 0 && x / 16 % 16 == 0
    ensures x / 0x100 == x / 16 / 16
  {
    DivModUnique(x, 0x100, x / 16 / 16, x / 16 % 16 * 16 + x % 16);
  }

  lemma ShiftOut8(x: nat)
    requires x > 0
    ensures x % 0x100 == 0 <==> 8 <= TrailingZeros(x)
    ensures x % 0x100 == 0 ==> x / 0x100 > 0 && TrailingZeros(x / 0x100) == TrailingZeros(x) - 8
  {
    Halves8(x);
    ShiftOut4(x);
    if x % 16 == 0 { ShiftOut4(x / 16); }
  }

  lemma Halves16(x: nat)
    ensures x % 0x1_0000 == 0 <==> x % 0x100 == 0 && x / 0x100 % 0x100 == 0
    ensures x / 0x1_0000 == x / 0x100 / 0x100
  {
    DivModUnique(x, 0x1_0000, x / 0x100 / 0x100, x / 0x100 % 0x100 * 0x100 + x % 0x100);
  }

  lemma ShiftOut16(x: nat)
    requires x > 0
    ensures x % 0x1_0000 == 0 <==> 16 <= TrailingZeros(x)
    ensures x % 0x1_0000 == 0 ==> x / 0x1_0000 > 0 && TrailingZeros(x / 0x1_0000) == TrailingZeros(x) - 16
  {
    Halves16(x);
    ShiftOut8(x);
    if x % 0x100 == 0 { ShiftOut8(x / 0x100); }
  }

  /** The narrowing steps of `cltz`: count the low zeros of hv, up to 31, on top of cnt0. */
  method CountZeros(hv0: nat, cnt0: nat) returns (cnt: nat)
    requires hv0 < 0x1_0000_0000
    requires hv0 > 0 ==> TrailingZeros(hv0) < 32
    ensures cnt == cnt0 + if hv0 > 0 then TrailingZeros(hv0) else 31
  {
    hide TrailingZeros;
    var hv := hv0;
    cnt := cnt0;
    if hv > 0 { ShiftOut16(hv); }
    if hv % 0x1_0000 == 0 {
      cnt := cnt + 16;
      hv := hv / 0x1_0000;
    }
    assert Counted(hv0, hv, cnt - cnt0, 16);
    if hv > 0 { ShiftOut8(hv); }
    if hv % 0x100 == 0 {
      cnt := cnt + 8;
      hv := hv / 0x100;
    }
    assert Counted(hv0, hv, cnt - cnt0, 8);
    if hv > 0 { ShiftOut4(hv); }
    if hv % 16 == 0 {
      cnt := cnt + 4;
      hv := hv / 16;
    }
    assert Counted(hv0, hv, cnt - cnt0, 4);
    if hv > 0 { ShiftOut2(hv); }
    if hv % 4 == 0 {
      cnt := cnt + 2;
      hv := hv / 4;
    }
    assert Counted(hv0, hv, cnt - cnt0, 2);
    if hv > 0 { ShiftOut1(hv); }
    if hv % 2 == 0 {
      cnt := cnt + 1;
    }
  }

  /** c low zeros of hv0 are counted and cut off; fewer than n are left in hv. A zero stays zero. */
  predicate Counted(hv0: nat, hv: nat, c: int, n: nat) {
    if hv0 > 0 then hv > 0 && c + TrailingZeros(hv) == TrailingZeros(hv0) && TrailingZeros(hv) < n
    else hv == 0 && c == 32 - n
  }

  /** The exact number of leading zeros of a nonzero 64-bit word; 63 for zero. */
  method Cltz(v: nat) returns (cnt: nat)
    requires v < 0x1_0000_0000_0000_0000
    ensures v > 0 ==> cnt == 64 - Len(v)
    ensures v == 0 ==> cnt == 63
  {
    LenWord(v);
    var c := 0;
    var hv := v / 0x1_0000_0000;
    Shr32(v);
    if Len(v) >= 32 { LenShr(v, 32); } else { ShrZero(v, 32); }
    if hv == 0 {
      c := c + 32;
      hv := v % 0x1_0000_0000;
    }
    LenWord(hv);
    if hv > 0 { ZerosOfReversed(hv, 32, 0); } else { ReversedZero(32, 0); ShlOfZero(32); }
    hv := Bitrev(hv);
    cnt := CountZeros(hv, c);
  }

  // ---- 64-bit unsigned division ----

  /** With both operands multiples of 2^32 removed, one 32-bit division is enough. */
  lemma AlignedQuotient(x: nat, y: nat)
    requires y > 0 && y % 0x1_0000_0000 == 0
    ensures y / 0x1_0000_0000 > 0
    ensures x / y == x / 0x1_0000_0000 / (y / 0x1_0000_0000)
  {
    var d, h := y / 0x1_0000_0000, x / 0x1_0000_0000;
    var q, r := h / d, h % d;
    assert h == d * q + r;
    assert d * 0x1_0000_0000 * q == d * q * 0x1_0000_0000;
    DivModUnique(x, d * 0x1_0000_0000, q, r * 0x1_0000_0000 + x % 0x1_0000_0000);
  }

  /** The loop of `__udivdi3` with bits 2^e downwards still to decide: hi is the quotient so far,
      b and m are the divisor and the quotient bit to try, t is what has been subtracted. When the
      bits have run out, e is -1. */
  ghost predicate Restoring(a0: nat, K: nat, hi: nat, t: nat, r: nat, a: nat, b: nat, m: nat, e: int) {
    a0 == t + a && t == r * K &&
    if e >= 0 then
      r == Shl(hi, e + 1) && m == Shl(1, e) && b == Shl(K, e) && a < 2 * b
    else
      r == hi && m == 0 && a < K
  }

  /** Setting the trial bit in a quotient that has it clear. */
  lemma QuotientBit(hi: nat, e: nat)
    ensures BitOr(Shl(hi, e + 1), Shl(1, e)) == Shl(2 * hi + 1, e) == Shl(hi, e + 1) + Shl(1, e)
    ensures Shl(hi, e + 1) == Shl(2 * hi, e)
  {
    ShlGrows(1, 0, e);
    OrDisjoint(hi, Shl(1, e), e + 1);
    ShlDouble(hi, e);
    ShlPlus(2 * hi, 1, e);
  }

  lemma AddProduct(r: nat, m: nat, K: nat)
    ensures (r + m) * K == r * K + m * K
  {}

  /** One turn: the trial subtraction decides quotient bit e. */
  lemma RestoringStep(a0: nat, K: nat, hi: nat, t: nat, r: nat, a: nat, b: nat, m: nat, e: int)
    requires Restoring(a0, K, hi, t, r, a, b, m, e) && e >= 0
    ensures a >= b ==> Restoring(a0, K, 2 * hi + 1, t + b, BitOr(r, m), a - b, b / 2, m / 2, e - 1)
    ensures a < b ==> Restoring(a0, K, 2 * hi, t, r, a, b / 2, m / 2, e - 1)
  {
    QuotientBit(hi, e);
    ShlProduct(K, e);
    AddProduct(r, m, K);
  }

  lemma RestoringStart(a0: nat, b0: nat, s: nat, K: nat)
    requires b0 == Shl(K, s) && a0 < 2 * b0
    ensures Restoring(a0, K, 0, 0, 0, a0, b0, Shl(1, s), s)
  {
    ShlOfZero(s + 1);
  }

  lemma RestoringDone(a0: nat, K: nat, hi: nat, t: nat, r: nat, a: nat, b: nat, m: nat, e: int)
    requires K > 0 && Restoring(a0, K, hi, t, r, a, b, m, e) && m == 0
    ensures r == a0 / K
  {
    if e >= 0 { ShlGrows(1, 0, e); }
    DivModUnique(a0, K, r, a);
  }

  method ShiftSubtract(a0: nat, b0: nat, s: nat, ghost K: nat) returns (r: nat)
    requires K > 0 && b0 == Shl(K, s) && a0 < 2 * b0
    ensures r == a0 / K
  {
    var a, b, m := a0, b0, Shl(1, s);
    r := 0;
    ghost var e: int, hi: nat, t: nat := s, 0, 0;
    RestoringStart(a0, b0, s, K);
    while m > 0
      invariant -1 <= e && Restoring(a0, K, hi, t, r, a, b, m, e)
      decreases e
    {
      RestoringStep(a0, K, hi, t, r, a, b, m, e);
      if a >= b {
        hi, t := 2 * hi + 1, t + b;
        r := BitOr(r, m);
        a := a - b;
      } else {
        hi := 2 * hi;
      }
      m := m / 2;
      b := b / 2;
      e := e - 1;
    }
    RestoringDone(a0, K, hi, t, r, a, b, m, e);
  }

  /** What the normalising part of `__udivdi3` relies on: no shift drops a bit, the shifted
      divisor has its top bit set, and scaling both operands keeps the quotient. */
  lemma Normalise(a: nat, b: nat, la: nat, lb: nat)
    requires 0 < b <= a && la == 64 - Len(a) && lb == 64 - Len(b)
    ensures la <= lb
    ensures Shl(a, la) < 0x1_0000_0000_0000_0000 && 0 < Shl(b, la) <= Shl(a, la)
    ensures 0x8000_0000_0000_0000 <= Shl(b, lb) < 0x1_0000_0000_0000_0000
    ensures Shl(b, lb) == Shl(Shl(b, la), lb - la)
    ensures Shl(a, la) / Shl(b, la) == a / b
  {
    LenMono(b, a);
    LenWord(a);
    LenWord(b);
    LenShl(a, la);
    LenShl(b, lb);
    LenWord(Shl(a, la));
    LenWord(Shl(b, lb));
    ShlMono(b, a, la);
    ShlShl(b, la, lb - la);
    ShlQuotient(a, b, la);
  }

  method AlignedDivide(a: nat, b: nat) returns (r: nat)
    requires b > 0 && b % 0x1_0000_0000 == 0
    ensures r == a / b
  {
    AlignedQuotient(a, b);
    var ia, ib := a / 0x1_0000_0000, b / 0x1_0000_0000;
    r := ia / ib;
  }

  /** The part of `__udivdi3` that normalises both operands. */
  method DivideWide(a0: nat, b0: nat) returns (r: nat)
    requires 0 < b0 <= a0 < 0x1_0000_0000_0000_0000
    ensures r == a0 / b0
  {
    hide *;
    var la := Cltz(a0);
    var lb := Cltz(b0);
    Normalise(a0, b0, la, lb);
    ghost var A, K := Shl(a0, la), Shl(b0, la);
    var a := Shl(a0, la) % 0x1_0000_0000_0000_0000;
    assert a == A;
    if lb - la < 32 && Shl(b0, la) % 0x1_0000_0000_0000_0000 % 0x1_0000_0000 == 0 {
      var b := Shl(b0, la) % 0x1_0000_0000_0000_0000;
      assert b == K;
      r := AlignedDivide(a, b);
    } else {
      var b := Shl(b0, lb) % 0x1_0000_0000_0000_0000;
      r := ShiftSubtract(a, b, lb - la, K);
    }
  }

  /** floor(a / b), along every path. */
  method Udivdi3(a: nat, b: nat) returns (r: nat)
    requires a < 0x1_0000_0000_0000_0000 && 0 < b < 0x1_0000_0000_0000_0000
    ensures r == a / b
  {
    if a < b {
      DivModUnique(a, b, 0, a);
      return 0;
    }
    if b / 0x1_0000_0000 == 0 && a / 0x1_0000_0000 == 0 {
      var ia, ib := a % 0x1_0000_0000, b % 0x1_0000_0000;
      assert ia == a && ib == b;
      r := ia / ib;
    } else {
      r := DivideWide(a, b);
    }
  }

  // ---- remainder and signed quotient ----

  method Umoddi3(a: nat, b: nat) returns (r: nat)
    requires a < 0x1_0000_0000_0000_0000 && 0 < b < 0x1_0000_0000_0000_0000
    ensures r == a % b && r < b && a == a / b * b + r
  {
    r := Udivdi3(a, b);
    assert a == a / b * b + a % b;
    r := r * b % 0x1_0000_0000_0000_0000;
    r := (a - r) % 0x1_0000_0000_0000_0000;
  }

  /** The value a 64-bit word has when read as signed. */
  function Signed64(v: int): (r: int)
    ensures -0x8000_0000_0000_0000 <= r < 0x8000_0000_0000_0000
  {
    var u := v % 0x1_0000_0000_0000_0000;
    if u < 0x8000_0000_0000_0000 then u else u - 0x1_0000_0000_0000_0000
  }

  /** C's quotient of mathematical integers, rounded towards zero. */
  function Truncated(a: int, b: int): int
    requires b != 0
  {
    if (a < 0) == (b < 0) then Abs(a) / Abs(b) else -(Abs(a) / Abs(b))
  }

  /** Negating a negative word, wrap included, gives the unsigned magnitude. */
  lemma Magnitude(v: int)
    requires -0x8000_0000_0000_0000 <= v < 0x8000_0000_0000_0000
    ensures v < 0 ==> Signed64(-v) % 0x1_0000_0000_0000_0000 == Abs(v)
    ensures v >= 0 ==> v % 0x1_0000_0000_0000_0000 == Abs(v)
  {}

  lemma NegateSigned(q: int)
    requires 0 <= q < 0x1_0000_0000_0000_0000
    ensures Signed64(-Signed64(q)) == Signed64(-q)
  {}

  /** Signed division, with the wrap-around of -a, -b and -r spelt out: the one quotient that
      does not fit, the most negative value by -1, comes back as the most negative value. */
  method Divdi3(a0: int, b0: int) returns (r: int)
    requires -0x8000_0000_0000_0000 <= a0 < 0x8000_0000_0000_0000
    requires -0x8000_0000_0000_0000 <= b0 < 0x8000_0000_0000_0000 && b0 != 0
    ensures r == Signed64(Truncated(a0, b0))
  {
    var a, b, s := a0, b0, 0;
    if a < 0 {
      s := 1;
      a := Signed64(-a);
    }
    if b < 0 {
      s := 1 - s;
      b := Signed64(-b);
    }
    Magnitude(a0);
    Magnitude(b0);
    var ua, ub := a % 0x1_0000_0000_0000_0000, b % 0x1_0000_0000_0000_0000;
    assert ua == Abs(a0) && ub == Abs(b0) && s == if (a0 < 0) == (b0 < 0) then 0 else 1;
    r := UnsignedThenSign(ua, ub, s);
  }

  method UnsignedThenSign(ua: nat, ub: nat, s: int) returns (r: int)
    requires ua < 0x1_0000_0000_0000_0000 && 0 < ub < 0x1_0000_0000_0000_0000
    ensures r == Signed64(if s != 0 then -(ua / ub) else ua / ub)
  {
    var q := Udivdi3(ua, ub);
    QuotientFits(ua, ub);
    NegateSigned(q);
    r := Signed64(q);
    if s != 0 {
      r := Signed64(-r);
    }
  }

  lemma QuotientFits(a: nat, b: nat)
    requires b > 0
    ensures 0 <= a / b <= a
  {
    var q := a / b;
    assert a == b * q + a % b;
    NoLessThanFactor(b, q);
  }

  lemma NoLessThanFactor(b: nat, q: int)
    requires b > 0
    ensures q >= 0 ==> b * q >= q
    ensures q < 0 ==> b * q < 0
  {}
}
