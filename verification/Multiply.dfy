/** The high word of a 32 x 32 product, by 16-bit limbs, as sw/board/cputest.c computes it. */
module Multiply {
  import opened Bits

  /** A 32-bit register, and the two halves of one. */
  function Wrap(x: nat): (r: nat)
    ensures r < 0x1_0000_0000 && (x < 0x1_0000_0000 ==> r == x)
  {
    x % 0x1_0000_0000
  }

  function LowHalf(x: nat): (r: nat)
    ensures r < 0x1_0000
  {
    x % 0x1_0000
  }

  function HighHalf(x: nat): (r: nat)
    ensures r < 0x1_0000
  {
    x / 0x1_0000 % 0x1_0000
  }

  /** a times the low n bits of b, one shifted copy of a per set bit. */
  function Product(a: nat, b: nat, n: nat): nat {
    if n == 0 then 0 else Product(a, b, n - 1) + (if Bit(b, n - 1) then Shl(a, n - 1) else 0)
  }

  lemma {:induction false} ProductPeel(a: nat, b: nat, n: nat)
    requires n > 0
    ensures Product(a, b, n) == (if b % 2 == 1 then a else 0) + Product(2 * a, b / 2, n - 1)
  {
    if n > 1 {
      ProductPeel(a, b, n - 1);
      ShlDouble(a, n - 2);
    }
  }

  /** All the copies together are the product. */
  lemma {:induction false} ProductIs(a: nat, b: nat, n: nat)
    requires Len(b) <= n
    ensures Product(a, b, n) == a * b
    decreases n
  {
    if n > 0 {
      ProductPeel(a, b, n);
      ProductIs(2 * a, b / 2, n - 1);
      Halve(a, b);
    }
  }

  lemma Halve(a: nat, b: nat)
    ensures a * b == (if b % 2 == 1 then a else 0) + 2 * a * (b / 2)
  {
    assert b == 2 * (b / 2) + b % 2;
  }

  lemma {:induction false} ProductGrows(a: nat, b: nat, i: nat, n: nat)
    requires i <= n
    ensures Product(a, b, i) <= Product(a, b, n)
  {
    if i < n { ProductGrows(a, b, i, n - 1); }
  }

  /** No partial product of two 32-bit words leaves 64 bits. */
  lemma ProductBound(a: nat, b: nat, i: nat)
    requires a < 0x1_0000_0000 && b < 0x1_0000_0000 && i <= 32
    ensures Product(a, b, i) < 0x1_0000_0000_0000_0000
  {
    LenWord(b);
    ProductGrows(a, b, i, 32);
    ProductIs(a, b, 32);
    MulLe(a, b, 0xffff_ffff, 0xffff_ffff);
  }

  lemma LimbShift(x: nat, k: nat)
    requires x < 0x1_0000 && k < 16
    ensures Shl(x, k) < 0x8000_0000 && Shl(x, k) / 0x1_0000 < Shl(1, k)
  {
    assert Shl(x, 15) < 0x8000_0000 by { Shl16(x); }
    ShlGrows(x, k, 15);
    ShlMono(x, 0x1_0000, k);
    ShlScaled(1, k);
  }

  /** The limbs of a << k for a 32-bit a and k < 16: slo, shi and sup as both loops compute them. */
  method Limbs(ghost a: nat, alo: nat, ahi: nat, k: nat) returns (slo: nat, shi: nat, sup: nat)
    requires a < 0x1_0000_0000 && alo == LowHalf(a) && ahi == HighHalf(a) && k < 16
    ensures slo < 0x1_0000 && shi < 0x1_0000 && sup < 0x1_0000
    ensures sup * 0x1_0000_0000 + shi * 0x1_0000 + slo == Shl(a, k)
  {
    hide *;
    ShiftedLimbs(a, k);
    SplitLimbs(Shl(alo, k), Shl(ahi, k));
    slo := Wrap(Shl(alo, k));
    shi := Wrap(Shl(ahi, k));
    shi := BitOr(shi, HighHalf(slo));
    slo := LowHalf(slo);
    sup := HighHalf(shi);
    shi := LowHalf(shi);
  }

  lemma ShiftedLimbs(a: nat, k: nat)
    requires a < 0x1_0000_0000 && k < 16
    ensures var slo, shi := Shl(LowHalf(a), k), Shl(HighHalf(a), k);
      slo < 0x8000_0000 && shi < 0x8000_0000 && BitOr(shi, HighHalf(slo)) == shi + HighHalf(slo)
      && shi * 0x1_0000 + slo == Shl(a, k)
  {
    hide Shl, BitOr;
    var alo, ahi := a % 0x1_0000, a / 0x1_0000;
    LimbShift(alo, k);
    LimbShift(ahi, k);
    OrDisjoint(ahi, Shl(alo, k) / 0x1_0000, k);
    ShlPlus(0x1_0000 * ahi, alo, k);
    ShlScaled(ahi, k);
  }

  lemma SplitLimbs(slo: nat, shi: nat)
    requires slo < 0x8000_0000 && shi < 0x8000_0000
    ensures var s := shi + HighHalf(slo);
      HighHalf(s) * 0x1_0000_0000 + LowHalf(s) * 0x1_0000 + LowHalf(slo) == shi * 0x1_0000 + slo
  {
    Halves(slo);
    Halves(shi + slo / 0x1_0000);
  }

  /** A register is its two halves; so is anything below 2^32. */
  lemma Halves(x: nat)
    requires x < 0x1_0000_0000
    ensures HighHalf(x) == x / 0x1_0000 && x == HighHalf(x) * 0x1_0000 + LowHalf(x)
  {}

  /** The body of the first loop, for a set bit i < 16 of b: the limbs take up a << i. Every sum is
      reduced modulo 2^32 where the C register would wrap. */
  method AddLow(ghost a: nat, i: nat, alo: nat, ahi: nat, rhi0: nat, rlhi0: nat, rllo0: nat)
    returns (rhi: nat, rlhi: nat, rllo: nat)
    requires a < 0x1_0000_0000 && i < 16 && alo == LowHalf(a) && ahi == HighHalf(a)
    requires rlhi0 < 0x1_0000 && rllo0 < 0x1_0000
    requires rhi0 * 0x1_0000_0000 + rlhi0 * 0x1_0000 + rllo0 + Shl(a, i) < 0x1_0000_0000_0000_0000
    ensures rlhi < 0x1_0000 && rllo < 0x1_0000
    ensures rhi * 0x1_0000_0000 + rlhi * 0x1_0000 + rllo
         == rhi0 * 0x1_0000_0000 + rlhi0 * 0x1_0000 + rllo0 + Shl(a, i)
  {
    hide *;
    var slo, shi, sup := Limbs(a, alo, ahi, i);
    CarryLow(rhi0, rlhi0, rllo0, sup, shi, slo);
    rhi := Wrap(rhi0 + sup);
    rlhi := Wrap(rlhi0 + shi);
    rllo := Wrap(rllo0 + slo);
    rlhi := Wrap(rlhi + HighHalf(rllo));
    rllo := LowHalf(rllo);
    rhi := Wrap(rhi + HighHalf(rlhi));
    rlhi := LowHalf(rlhi);
  }

  /** Adding limb by limb: no sum wraps, and the carries make the total exact. */
  lemma CarryLow(h: nat, m: nat, l: nat, v2: nat, v1: nat, v0: nat)
    requires m < 0x1_0000 && l < 0x1_0000 && v1 < 0x1_0000 && v0 < 0x1_0000
    requires h * 0x1_0000_0000 + m * 0x1_0000 + l + (v2 * 0x1_0000_0000 + v1 * 0x1_0000 + v0)
      < 0x1_0000_0000_0000_0000
    ensures Wrap(h + v2) == h + v2 && Wrap(m + v1) == m + v1 && Wrap(l + v0) == l + v0
    ensures var mid := Wrap(m + v1 + HighHalf(l + v0)); var hi := Wrap(h + v2 + HighHalf(mid));
      hi * 0x1_0000_0000 + LowHalf(mid) * 0x1_0000 + LowHalf(l + v0)
      == h * 0x1_0000_0000 + m * 0x1_0000 + l + (v2 * 0x1_0000_0000 + v1 * 0x1_0000 + v0)
  {
    hide Wrap, HighHalf, LowHalf;
    Halves(l + v0);
    var mid := m + v1 + HighHalf(l + v0);
    Halves(mid);
    assert h + v2 + HighHalf(mid) < 0x1_0000_0000;
  }

  lemma CarryHigh(h: nat, m: nat, l: nat, v2: nat, v1: nat, v0: nat)
    requires m < 0x1_0000 && l < 0x1_0000 && v2 < 0x1_0000 && v1 < 0x1_0000 && v0 < 0x1_0000
    requires h * 0x1_0000_0000 + m * 0x1_0000 + l + 0x1_0000 * (v2 * 0x1_0000_0000 + v1 * 0x1_0000 + v0)
      < 0x1_0000_0000_0000_0000
    ensures Wrap(h + Wrap(v2 * 0x1_0000)) == h + v2 * 0x1_0000
    ensures Wrap(h + v2 * 0x1_0000 + v1) == h + v2 * 0x1_0000 + v1 && Wrap(m + v0) == m + v0
    ensures var hi := Wrap(h + v2 * 0x1_0000 + v1 + HighHalf(m + v0));
      hi * 0x1_0000_0000 + LowHalf(m + v0) * 0x1_0000 + l
      == h * 0x1_0000_0000 + m * 0x1_0000 + l + 0x1_0000 * (v2 * 0x1_0000_0000 + v1 * 0x1_0000 + v0)
  {
    hide Wrap, HighHalf, LowHalf;
    Halves(m + v0);
    assert h + v2 * 0x1_0000 + v1 + HighHalf(m + v0) < 0x1_0000_0000;
  }

  /** The body of the second loop, for a set bit i >= 16 of b. */
  method AddHigh(ghost a: nat, i: nat, alo: nat, ahi: nat, rhi0: nat, rlhi0: nat, ghost rllo: nat)
    returns (rhi: nat, rlhi: nat)
    requires a < 0x1_0000_0000 && 16 <= i < 32 && alo == LowHalf(a) && ahi == HighHalf(a)
    requires rlhi0 < 0x1_0000 && rllo < 0x1_0000
    requires rhi0 * 0x1_0000_0000 + rlhi0 * 0x1_0000 + rllo + Shl(a, i) < 0x1_0000_0000_0000_0000
    ensures rlhi < 0x1_0000
    ensures rhi * 0x1_0000_0000 + rlhi * 0x1_0000 + rllo
         == rhi0 * 0x1_0000_0000 + rlhi0 * 0x1_0000 + rllo + Shl(a, i)
  {
    hide *;
    var slo, shi, sup := Limbs(a, alo, ahi, i - 16);
    ShlShl(a, i - 16, 16);
    Shl16(Shl(a, i - 16));
    CarryHigh(rhi0, rlhi0, rllo, sup, shi, slo);
    rhi := Wrap(rhi0 + Wrap(sup * 0x1_0000));
    rhi := Wrap(rhi + shi);
    rlhi := Wrap(rlhi0 + slo);
    rhi := Wrap(rhi + HighHalf(rlhi));
    rlhi := LowHalf(rlhi);
  }

  /** The three limbs hold what the first i bits of b contribute. */
  ghost predicate Partial(a: nat, b: nat, i: nat, rhi: int, rlhi: int, rllo: int) {
    0 <= rhi && 0 <= rlhi < 0x1_0000 && 0 <= rllo < 0x1_0000 &&
    rhi * 0x1_0000_0000 + rlhi * 0x1_0000 + rllo == Product(a, b, i)
  }

  method SoftMpyuhi(a: nat, b: nat) returns (rhi: nat)
    requires a < 0x1_0000_0000 && b < 0x1_0000_0000
    ensures rhi == a * b / 0x1_0000_0000
  {
    var alo, ahi := LowHalf(a), HighHalf(a);
    var rlhi: nat, rllo: nat := 0, 0;
    rhi := 0;
    var i := 0;
    while i < 16
      invariant 0 <= i <= 16 && Partial(a, b, i, rhi, rlhi, rllo)
    {
      ProductBound(a, b, i + 1);
      if Bit(b, i) {
        rhi, rlhi, rllo := AddLow(a, i, alo, ahi, rhi, rlhi, rllo);
      }
      i := i + 1;
    }
    while i < 32
      invariant 16 <= i <= 32 && Partial(a, b, i, rhi, rlhi, rllo)
    {
      ProductBound(a, b, i + 1);
      if Bit(b, i) {
        rhi, rlhi := AddHigh(a, i, alo, ahi, rhi, rlhi, rllo);
      }
      i := i + 1;
    }
    LenWord(b);
    ProductIs(a, b, 32);
  }

  // ---- the signed high word ----

  /** The value a 32-bit word has when read as signed. */
  function Signed32(v: int): (r: int)
    ensures -0x8000_0000 <= r < 0x8000_0000
  {
    var u := v % 0x1_0000_0000;
    if u < 0x8000_0000 then u else u - 0x1_0000_0000
  }

  /** The magnitude of a signed 32-bit integer as the unsigned word `soft_mpyshi` passes on. */
  lemma Magnitude(v: int)
    requires -0x8000_0000 <= v < 0x8000_0000
    ensures (if v < 0 then Signed32(-v) else v) % 0x1_0000_0000 == Abs(v) <= 0x8000_0000
  {}

  /** Complementing the high word of x, plus one if the low word is clear, negates all of x. */
  lemma NegateHigh(x: nat)
    requires x <= 0x8000_0000 * 0x8000_0000
    ensures var hi := x / 0x1_0000_0000; var c := 0xffff_ffff - hi;
      Signed32(if x % 0x1_0000_0000 == 0 then (c + 1) % 0x1_0000_0000 else c) == -1 * x / 0x1_0000_0000
    ensures Signed32(x / 0x1_0000_0000) == x / 0x1_0000_0000
  {
    hide Signed32;
    var hi, lo := x / 0x1_0000_0000, x % 0x1_0000_0000;
    SignedWord(hi);
    if lo == 0 {
      DivModUnique(-1 * x, 0x1_0000_0000, -hi, 0);
      if hi > 0 { SignedWord(0x1_0000_0000 - hi); }
    } else {
      DivModUnique(-1 * x, 0x1_0000_0000, -hi - 1, 0x1_0000_0000 - lo);
      SignedWord(0xffff_ffff - hi);
    }
  }

  lemma SignedWord(u: nat)
    requires u < 0x1_0000_0000
    ensures Signed32(u) == if u < 0x8000_0000 then u else u - 0x1_0000_0000
  {}

  lemma SignOfProduct(a: int, b: int)
    ensures a * b == if (a < 0) != (b < 0) then -(Abs(a) * Abs(b)) else Abs(a) * Abs(b)
  {}

  /** The high word of the signed 64-bit product, for every pair of operands. */
  method SoftMpyshi(a0: int, b0: int) returns (res: int)
    requires -0x8000_0000 <= a0 < 0x8000_0000 && -0x8000_0000 <= b0 < 0x8000_0000
    ensures res == a0 * b0 / 0x1_0000_0000
  {
    var a, b := a0, b0;
    var sgn := (a < 0) != (b < 0);
    if a < 0 { a := Signed32(-a); }
    if b < 0 { b := Signed32(-b); }
    Magnitude(a0);
    Magnitude(b0);
    SignOfProduct(a0, b0);
    res := UnsignedThenSign(a % 0x1_0000_0000, b % 0x1_0000_0000, sgn);
  }

  method UnsignedThenSign(a: nat, b: nat, sgn: bool) returns (res: int)
    requires a <= 0x8000_0000 && b <= 0x8000_0000
    ensures res == (if sgn then -1 * (a * b) else a * b) / 0x1_0000_0000
  {
    var p := a * b % 0x1_0000_0000;
    var r := SoftMpyuhi(a, b);
    MulLe(a, b, 0x8000_0000, 0x8000_0000);
    NegateHigh(a * b);
    r := if sgn then 0xffff_ffff - r else r;
    if sgn && p == 0 {
      r := (r + 1) % 0x1_0000_0000;
    }
    res := Signed32(r);
  }
}
