/** The frames of sim/verilated/uartsim.cpp bit by bit, and the level of the line at every tick of a
    byte. */
module UartFrames {
  import opened Bits
  import opened Wrappers
  import opened Uart
  import opened UartLoop

  // ---- the bits of the transmit register ----

  lemma {:induction false} BitOfShl(x: nat, j: nat, i: nat)
    ensures Bit(Shl(x, j), i) <==> i >= j && Bit(x, i - j)
    decreases j
  {
    hide Shl;
    if j == 0 {
      ShlNext(x, 0);
    } else {
      ShlNext(x, j - 1);
      BitOfDouble(Shl(x, j - 1), i);
      if i > 0 { BitOfShl(x, j - 1, i - 1); }
    }
  }

  lemma BitOfDouble(x: nat, i: nat)
    ensures Bit(2 * x, i) <==> i > 0 && Bit(x, i - 1)
  {
    assert 2 * x / 2 == x;
  }

  lemma {:induction false} BitOfAllOnes(m: nat, i: nat)
    ensures Bit(Ones(m), i) <==> i < m
    decreases m
  {
    if m == 0 {
      BitOfZero(i);
    } else {
      assert Ones(m) / 2 == Ones(m - 1);
      if i > 0 { BitOfAllOnes(m - 1, i - 1); }
    }
  }

  /** Without the parity bit: the byte after the start bit, and ones from the stop bit on. */
  lemma PlainBit(c: Config, b: nat, i: nat)
    requires c.Ok() && i < 32
    ensures var w := BitOr(Shl(Ones(31 - c.nbits - c.nparity), c.nbits + c.nparity + 1), 2 * b);
      Bit(w, i) <==> i > c.nbits + c.nparity || (i > 0 && Bit(b, i - 1))
  {
    hide Bit, Shl, BitOr, Ones;
    var m, j := 31 - c.nbits - c.nparity, c.nbits + c.nparity + 1;
    BitOfOr(Shl(Ones(m), j), 2 * b, i);
    BitOfShl(Ones(m), j, i);
    if i >= j { BitOfAllOnes(m, i - j); }
    BitOfDouble(b, i);
  }

  // ---- the parity bit ----

  /** The ones among the low n bits of x. */
  function Count(x: nat, n: nat): nat {
    if n == 0 then 0 else Count(x, n - 1) + if Bit(x, n - 1) then 1 else 0
  }

  lemma {:induction false} CountPeel(x: nat, n: nat)
    requires n > 0
    ensures Count(x, n) == x % 2 + Count(x / 2, n - 1)
  {
    if n > 1 { CountPeel(x, n - 1); }
  }

  lemma {:induction false} ParityCounts(x: nat, n: nat)
    ensures Parity(x, n) == Count(x, n) % 2
    decreases n
  {
    if n > 0 {
      CountPeel(x, n);
      ParityCounts(x / 2, n - 1);
    }
  }

  lemma {:induction false} CountAgrees(x: nat, y: nat, n: nat)
    requires forall i: nat | i < n :: Bit(x, i) == Bit(y, i)
    ensures Count(x, n) == Count(y, n)
  {
    if n > 0 { CountAgrees(x, y, n - 1); }
  }

  /** A run of ones above bit n. */
  lemma {:induction false} CountOnesAbove(x: nat, n: nat, m: nat)
    requires n <= m && forall i: nat | n <= i < m :: Bit(x, i)
    ensures Count(x, m) == Count(x, n) + (m - n)
  {
    if n < m { CountOnesAbove(x, n, m - 1); }
  }

  /** The computed parity bit covers the eight bits after the start bit, whatever they are: in a frame
      of less than eight data bits these are the data, the bit of the byte that the parity bit is
      to replace, and 7 - nbits stop bits. */
  function ParityBit(c: Config, b: nat): nat
    requires c.Ok() && c.nparity == 1
  {
    if c.fixdp then c.evenp
    else (Count(b, if c.nbits == 8 then 8 else c.nbits + 1) + (if c.nbits == 6 then 1 else 0) + c.evenp) % 2
  }

  lemma ParityIs(c: Config, b: nat)
    requires c.Ok() && c.nparity == 1 && !c.fixdp && b < 0x100
    ensures var w := BitOr(Shl(Ones(31 - c.nbits - c.nparity), c.nbits + c.nparity + 1), 2 * b);
      (Parity(w / 2, 8) + c.evenp) % 2 == ParityBit(c, b)
  {
    hide Bit, Shl, BitOr, Ones, Parity;
    var w := BitOr(Shl(Ones(31 - c.nbits - c.nparity), c.nbits + c.nparity + 1), 2 * b);
    var n := if c.nbits == 8 then 8 else c.nbits + 1;
    forall i: nat | i < 8 ensures Bit(w / 2, i) <==> i >= n || Bit(b, i) {
      BitHalf(w, i);
      PlainBit(c, b, i + 1);
    }
    ParityCounts(w / 2, 8);
    CountAgrees(w / 2, b, n);
    CountOnesAbove(w / 2, n, 8);
    TwoApart(Count(b, n) + c.evenp, 8 - n);
  }

  lemma BitHalf(w: nat, i: nat)
    ensures Bit(w / 2, i) == Bit(w, i + 1)
  {}

  lemma TwoApart(x: nat, d: nat)
    requires d <= 2
    ensures ((x + d) % 2) == (x + if d == 1 then 1 else 0) % 2
  {}

  /** A frame: the start bit, the data bits lowest first, the parity bit, and ones from there on. */
  lemma FrameBits(c: Config, b: nat, i: nat)
    requires c.Ok() && b < 0x100 && i < 32
    ensures FrameBit(c, b, i) ==
      if i == 0 then 0
      else if i <= c.nbits then (if Bit(b, i - 1) then 1 else 0)
      else if c.nparity == 1 && i == c.nbits + 1 then (if Bit(b, c.nbits) then 1 else ParityBit(c, b))
      else 1
  {
    hide Bit, Shl, BitOr, Ones, Parity, ParityBit;
    var w := BitOr(Shl(Ones(31 - c.nbits - c.nparity), c.nbits + c.nparity + 1), 2 * b);
    PlainBit(c, b, i);
    FrameBitIs(c, b, i);
    if c.nparity == 1 {
      if !c.fixdp { ParityIs(c, b); }
      ParitySmall(c, b);
      BitOfOr(w, Shl(ParityBit(c, b), c.nbits + 1), i);
      BitOfShl(ParityBit(c, b), c.nbits + 1, i);
      if i > c.nbits { BitOfBit(ParityBit(c, b), i - c.nbits - 1); }
    }
  }

  lemma FrameBitIs(c: Config, b: nat, i: nat)
    requires c.Ok() && b < 0x100
    ensures FrameBit(c, b, i) == if Bit(Word(c, b), i) then 1 else 0
  {}

  lemma ParitySmall(c: Config, b: nat)
    requires c.Ok() && c.nparity == 1
    ensures ParityBit(c, b) <= 1 && (c.fixdp ==> ParityBit(c, b) == c.evenp)
  {}

  lemma BitOfBit(p: nat, i: nat)
    requires p <= 1
    ensures Bit(p, i) <==> i == 0 && p == 1
  {
    if i > 0 { BitOfZero(i - 1); }
  }

  /** Data and parity bit together have the parity asked for, but not with six data bits: there a stop
      bit is counted as well. */
  lemma ParityRightIff(c: Config, b: nat)
    requires c.Ok() && c.nparity == 1 && !c.fixdp && b < Shl(1, c.nbits)
    ensures b < 0x100
    ensures (Count(b, c.nbits) + FrameBit(c, b, c.nbits + 1)) % 2 == c.evenp <==> c.nbits != 6
  {
    hide Bit, Shl, Word;
    assert b < 0x100 by {
      Eight();
      ShlGrows(1, c.nbits, 8);
    }
    NoBitAbove(b, c.nbits);
    FrameBits(c, b, c.nbits + 1);
    if c.nbits < 8 { assert Count(b, c.nbits + 1) == Count(b, c.nbits); }
  }

  lemma Eight()
    ensures Shl(1, 8) == 0x100
  {
    ShlShl(1, 4, 4);
    Shl4(1);
    Shl4(Shl(1, 4));
  }

  lemma {:induction false} NoBitAbove(x: nat, n: nat)
    requires x < Shl(1, n)
    ensures !Bit(x, n)
    decreases n
  {
    if n > 0 { NoBitAbove(x / 2, n - 1); }
  }

  /** Bit k of what the receiver delivers is bit k + 1 of the frame: with less than eight data bits the
      parity and stop bits are in it as well. */
  lemma HeardBits(c: Config, b: nat, k: nat)
    requires c.Ok() && b < 0x100
    ensures Bit(Heard(c, b), k) <==> k < 8 && k < c.Frame() && FrameBit(c, b, k + 1) == 1
  {
    hide Bit, Word, Low;
    var w := Word(c, b) / 2;
    BitOfLow(Low(w, c.Frame()), 8, k);
    BitOfLow(w, c.Frame(), k);
    LowByte(Low(w, c.Frame()));
    BitHalf(Word(c, b), k);
    FrameBitIs(c, b, k + 1);
  }

  lemma {:induction false} BitOfLow(x: nat, n: nat, k: nat)
    ensures Bit(Low(x, n), k) <==> k < n && Bit(x, k)
    decreases n
  {
    if n == 0 {
      BitOfZero(k);
    } else {
      assert Low(x, n) / 2 == Low(x / 2, n - 1);
      if k > 0 { BitOfLow(x / 2, n - 1, k - 1); }
    }
  }

  // ---- the line, tick by tick ----

  /** The ticks that a byte is on the line. */
  function FrameTime(c: Config): nat { (c.Frame() + 1) * c.baud }

  /** The level n ticks after the one that takes byte b. */
  function LevelAt(c: Config, b: nat, n: nat): int
    requires c.Ok() && b < 0x100
  {
    if n < FrameTime(c) then FrameBit(c, b, n / c.baud) else 1
  }

  /** From the tick on that takes byte b, bit i of the frame is on the line for the divisor's number of
      ticks, whatever is offered meanwhile; then the transmitter is idle and the line high. */
  lemma LineLevels(c: Config, s: Link, b: nat, offers: seq<Option<nat>>)
    requires c.Ok() && b < 0x100 && !s.tx.active && (forall o | o in offers :: Offer(o)) && |offers| <= FrameTime(c)
    ensures forall o | o in [Some(b)] + offers :: Offer(o)
    ensures var e, n := Run(c, s, [Some(b)] + offers), |offers|;
      e.sent == s.sent + [b] && e.line == LevelAt(c, b, n) && e.tx.active == (n < FrameTime(c))
  {
    hide Run, InFrame, LevelAt, FrameTime;
    forall o | o in [Some(b)] + offers ensures Offer(o) {}
    var i := Ticks(c, s, b, offers);
    WhichBit(c, Run(c, s, [Some(b)] + offers), b, i, |offers|);
  }

  /** Where the transmitter is in the frame after n more ticks; i counts the bits gone by. */
  ghost predicate InFrame(c: Config, e: Link, b: nat, i: nat, n: nat)
    requires c.Ok()
  {
    if i <= c.Frame() then Sending(c, e, b, i) && n == i * c.baud + (c.baud - 1 - e.tx.baud)
    else i == c.Frame() + 1 && n == i * c.baud && !e.tx.active && e.line == 1
  }

  lemma {:induction false} Ticks(c: Config, s: Link, b: nat, offers: seq<Option<nat>>) returns (i: nat)
    requires c.Ok() && b < 0x100 && !s.tx.active && (forall o | o in [Some(b)] + offers :: Offer(o))
    requires |offers| <= FrameTime(c)
    ensures var e := Run(c, s, [Some(b)] + offers);
      e.sent == s.sent + [b] && InFrame(c, e, b, i, |offers|)
    decreases |offers|
  {
    hide Step, InFrame, FrameTime;
    var all := [Some(b)] + offers;
    if offers == [] {
      assert all[..|all| - 1] == [] && all[|all| - 1] == Some(b);
      assert Run(c, s, all) == Step(c, s, Some(b));
      FirstTick(c, s, b);
      i := 0;
    } else {
      var most := offers[..|offers| - 1];
      assert all[..|all| - 1] == [Some(b)] + most && all[|all| - 1] == offers[|offers| - 1];
      forall o | o in [Some(b)] + most ensures Offer(o) { assert o in all; }
      var j := Ticks(c, s, b, most);
      assert offers[|offers| - 1] in all;
      i := NextTick(c, Run(c, s, [Some(b)] + most), b, j, |most|, offers[|offers| - 1]);
    }
  }

  lemma FirstTick(c: Config, s: Link, b: nat)
    requires c.Ok() && b < 0x100 && !s.tx.active
    ensures Step(c, s, Some(b)).sent == s.sent + [b] && InFrame(c, Step(c, s, Some(b)), b, 0, 0)
  {
    hide Sending;
    SendFirst(c, s, b);
  }

  lemma WhileBusy(c: Config, s: Link, offer: Option<nat>)
    requires c.Ok() && Offer(offer) && s.tx.active
    ensures Step(c, s, offer).sent == s.sent
  {}

  lemma NextTick(c: Config, s: Link, b: nat, i: nat, n: nat, offer: Option<nat>) returns (j: nat)
    requires c.Ok() && Offer(offer) && InFrame(c, s, b, i, n) && n < FrameTime(c)
    ensures InFrame(c, Step(c, s, offer), b, j, n + 1) && Step(c, s, offer).sent == s.sent
  {
    hide Step;
    SendOn(c, s, b, i, offer);
    WhileBusy(c, s, offer);
    j := if s.tx.baud > 0 then i else i + 1;
    assert (i + 1) * c.baud == i * c.baud + c.baud;
  }

  lemma WhichBit(c: Config, e: Link, b: nat, i: nat, n: nat)
    requires c.Ok() && b < 0x100 && InFrame(c, e, b, i, n)
    ensures e.tx.active == (n < FrameTime(c)) && e.line == LevelAt(c, b, n)
  {
    hide FrameBit;
    if i <= c.Frame() {
      DivModUnique(n, c.baud, i, c.baud - 1 - e.tx.baud);
      MulLe(i + 1, c.baud, c.Frame() + 1, c.baud);
      assert (i + 1) * c.baud == i * c.baud + c.baud;
    }
  }
}
