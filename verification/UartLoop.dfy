/** The simulator of sim/verilated/uartsim.cpp with its output wired to its input: the receiver
    gets every byte the transmitter sends, in order, for every divisor and frame format. */
module UartLoop {
  import opened Bits
  import opened Wrappers
  import opened Uart

  // ---- what a frame looks like on the line ----

  /** Bit i of a frame: start bit, data, parity, stop bits, and the idle level after them. */
  function FrameBit(c: Config, b: nat, i: nat): int
    requires c.Ok() && b < 0x100
  {
    Shr(Word(c, b), i) % 2
  }

  /** Ones from bit j upwards over a byte shifted left once. */
  lemma PlainWord(m: nat, j: nat, n: nat, b: nat)
    requires 1 <= n < j && m >= 3
    ensures var w := BitOr(Shl(Ones(m), j), 2 * b);
      w % 2 == 0 && Low(w / 2, n) == Low(b, n)
  {
    var high := Shl(Ones(m), j);
    OrHalves(high, 2 * b);
    assert high / 2 == Shl(Ones(m), j - 1);
    LowOr(high / 2, b, n);
    LowOfShl(Ones(m), j - 1, n);
  }

  lemma PlainTop(m: nat, j: nat, b: nat, i: nat)
    requires j <= i < j + m
    ensures Bit(BitOr(Shl(Ones(m), j), 2 * b), i)
  {
    BitOfOnes(m, j, i);
    BitOfOr(Shl(Ones(m), j), 2 * b, i);
  }

  /** A frame starts low, carries the byte, and ends high. */
  lemma FrameShape(c: Config, b: nat)
    requires c.Ok() && b < 0x100
    ensures FrameBit(c, b, 0) == 0
    ensures Low(Word(c, b) / 2, c.nbits) == Low(b, c.nbits)
    ensures FrameBit(c, b, c.Frame()) == 1 && FrameBit(c, b, c.Frame() + 1) == 1
  {
    hide Shl, Low, BitOr, Ones;
    var m, j := 31 - c.nbits - c.nparity, c.nbits + c.nparity + 1;
    var w := BitOr(Shl(Ones(m), j), 2 * b);
    PlainWord(m, j, c.nbits, b);
    PlainTop(m, j, b, c.Frame());
    PlainTop(m, j, b, c.Frame() + 1);
    if c.nparity == 1 {
      var p := if c.fixdp then c.evenp else (Parity(w / 2, 8) + c.evenp) % 2;
      WithParity(w, p, c.nbits, c.Frame());
      WithParity(w, p, c.nbits, c.Frame() + 1);
    }
  }

  lemma WithParity(w: nat, p: nat, n: nat, i: nat)
    requires w % 2 == 0 && Bit(w, i)
    ensures var v := BitOr(w, Shl(p, n + 1));
      v % 2 == 0 && Low(v / 2, n) == Low(w / 2, n) && Bit(v, i)
  {
    var q := Shl(p, n + 1);
    OrHalves(w, q);
    assert q / 2 == Shl(p, n);
    LowOr(w / 2, q / 2, n);
    LowOfShl(p, n, n);
    BitOfOr(w, q, i);
  }

  /** The byte received is equal to the one sent in the bits that were sent. */
  predicate Match(c: Config, e: nat, b: nat) { Low(e, c.nbits) == Low(b, c.nbits) }

  /** What the receiver makes of a byte: the first eight bits of the frame after the start bit, with
      zeros for those it does not have. */
  function Heard(c: Config, b: nat): nat
    requires c.Ok() && b < 0x100
  {
    Low(Word(c, b) / 2, c.Frame()) % 0x100
  }

  lemma HeardMatches(c: Config, b: nat)
    requires c.Ok() && b < 0x100
    ensures Heard(c, b) < 0x100 && Match(c, Heard(c, b), b)
  {
    hide Word, Shl, Low, Ones;
    var w, n := Word(c, b) / 2, c.Frame();
    var v := Low(w, n);
    LowByte(v);
    LowLow(v, 8, c.nbits);
    LowLow(w, n, c.nbits);
    FrameShape(c, b);
  }

  lemma MatchExact(c: Config, e: nat, b: nat)
    requires c.nbits == 8 && e < 0x100 && b < 0x100 && Match(c, e, b)
    ensures e == b
  {
    assert Shl(1, 8) == 0x100 by { Shl4(1); ShlShl(1, 4, 4); Shl4(Shl(1, 4)); }
    LowSmall(e, 8);
    LowSmall(b, 8);
  }

  // ---- the closed loop ----

  /** The wire carries what the transmitter drove on the previous tick. `sent` and `got` are the
      bytes the transmitter has taken and the receiver has delivered. */
  datatype Link = Link(tx: Tx, rx: Rx, line: int, sent: seq<nat>, got: seq<nat>)

  ghost predicate Offer(o: Option<nat>) { o.Some? ==> o.value < 0x100 }

  function Step(c: Config, s: Link, offer: Option<nat>): Link
    requires c.Ok() && Offer(offer)
  {
    var (rx, out) := RxTick(c, s.rx, s.line);
    var (tx, line) := TxTick(c, s.tx, offer);
    Link(tx, rx, line,
         if !s.tx.active && offer.Some? then s.sent + [offer.value] else s.sent,
         if out.Some? then s.got + [out.value] else s.got)
  }

  /** Where the two ends are relative to each other; i counts line bits, k received ones. */
  datatype Phase = Quiet | Ending | Fresh | Overlap | Same(i: nat, k: nat)

  /** The transmitter is c ticks from the end of bit i of byte b. */
  ghost predicate Sending(c: Config, s: Link, b: nat, i: nat)
    requires c.Ok()
  {
    b < 0x100 && s.tx.active && i <= c.Frame() && 0 <= s.tx.baud < c.baud &&
    s.tx.data == Shr(Word(c, b), i) && s.tx.busy == Ones(c.Frame() + 1 - i) &&
    s.line == FrameBit(c, b, i)
  }

  /** The receiver holds the first k bits of byte b. */
  ghost predicate Holding(c: Config, rx: Rx, b: nat, k: nat)
    requires c.Ok()
  {
    b < 0x100 && rx.active && k <= c.Frame() && rx.baud >= 0 &&
    rx.busy == Ones(k) && rx.data == Shl(Low(Word(c, b) / 2, k), 32 - k)
  }

  /** While the start bit is on the line the edge counter knows how old it is. */
  ghost predicate Edge(c: Config, s: Link) {
    if s.tx.baud == c.baud - 1 then s.rx.last == 1
    else s.rx.last == 0 && s.rx.changectr == c.baud - 2 - s.tx.baud
  }

  ghost predicate Delivered(c: Config, s: Link)
    requires c.Ok()
  {
    |s.got| <= |s.sent| && (forall j | 0 <= j < |s.sent| :: s.sent[j] < 0x100) &&
    forall j | 0 <= j < |s.got| :: s.got[j] == Heard(c, s.sent[j])
  }

  ghost predicate Inv(c: Config, s: Link, p: Phase)
    requires c.Ok()
  {
    Delivered(c, s) &&
    var h, n := c.baud / 2, |s.sent| - |s.got|;
    match p
    case Quiet =>
      n == 0 && !s.tx.active && !s.rx.active && s.line == 1 && s.rx.last == 1
    case Ending =>
      n == 1 && !s.tx.active && s.line == 1 && s.rx.last == 1 &&
      Holding(c, s.rx, s.sent[|s.got|], c.Frame()) && s.rx.baud <= h
    case Fresh =>
      n == 1 && !s.rx.active && Sending(c, s, s.sent[|s.got|], 0) && Edge(c, s)
    case Overlap =>
      n == 2 && Sending(c, s, s.sent[|s.got| + 1], 0) && Edge(c, s) &&
      Holding(c, s.rx, s.sent[|s.got|], c.Frame()) && s.rx.baud <= s.tx.baud - (c.baud - h)
    case Same(i, k) =>
      n == 1 && Sending(c, s, s.sent[|s.got|], i) && Holding(c, s.rx, s.sent[|s.got|], k) &&
      ((k == i && s.rx.baud == h + 1 + s.tx.baud) ||
       (k + 1 == i && s.rx.baud == s.tx.baud + 1 - (c.baud - h)))
  }

  // ---- one tick of each end ----

  /** A sample taken while bit k + 1 is on the line extends what the receiver holds. */
  lemma Sample(c: Config, rx: Rx, b: nat, k: nat)
    requires c.Ok() && Holding(c, rx, b, k) && rx.baud == 0 && k < c.Frame()
    ensures var (rx', out) := RxTick(c, rx, FrameBit(c, b, k + 1));
      out.None? && rx'.baud == c.baud - 1 && Holding(c, rx', b, k + 1)
  {
    hide Word, Shl, Low, Ones, BitOr;
    NotYetFull(k, c.Frame());
    var w := Word(c, b) / 2;
    assert FrameBit(c, b, k + 1) == Shr(w, k) % 2;
    OnesMore(k);
    ShiftIn(w, k, 31);
    SampleTick(c, rx, FrameBit(c, b, k + 1));
  }

  lemma OnesSome(k: nat)
    ensures Ones(k) > 0 <==> k > 0
  {}

  lemma OnesMore(k: nat)
    ensures Ones(k + 1) == 2 * Ones(k) + 1
  {}

  lemma SampleTick(c: Config, rx: Rx, i: int)
    requires c.Ok() && rx.active && rx.baud == 0 && rx.busy < Shl(1, c.Frame() - 1) && 0 <= i <= 1
    ensures var (rx', out) := RxTick(c, rx, i);
      out.None? && rx'.active && rx'.baud == c.baud - 1 && rx'.busy == 2 * rx.busy + 1
      && rx'.data == BitOr(Shl(i, 31), rx.data / 2)
  {
    hide Shl, BitOr;
  }

  /** The receiver's test for the end of a frame fails before the last bit and holds after it. */
  lemma NotYetFull(k: nat, n: nat)
    requires k <= n && n >= 1
    ensures Ones(k) >= Shl(1, n - 1) <==> k == n
  {
    OnesIs(k);
    ShlGrows(1, 0, n - 1);
    if k < n { ShlGrows(1, k, n - 1); }
  }

  lemma ShlHalf(v: nat, m: nat)
    ensures Shl(v, m + 1) / 2 == Shl(v, m)
  {}

  /** Shifting bit k of w into the top bit n of the receive register. */
  lemma ShiftIn(w: nat, k: nat, n: nat)
    requires k <= n
    ensures var bit := Shr(w, k) % 2;
      BitOr(Shl(bit, n), Shl(Low(w, k), n + 1 - k) / 2) == Shl(Low(w, k + 1), n - k)
  {
    hide Shl, Shr, Low, BitOr;
    var bit, v := Shr(w, k) % 2, Low(w, k);
    ShlHalf(v, n - k);
    assert Shl(v, n - k) < Shl(1, n) by {
      LowSmall(w, k);
      ShlMono(v, Shl(1, k), n - k);
      ShlShl(1, k, n - k);
    }
    OrDisjoint(bit, Shl(v, n - k), n);
    LowExtend(w, k);
    ShlPlus(v, Shl(bit, k), n - k);
    ShlShl(bit, k, n - k);
  }

  /** After the last bit the receiver delivers a byte that matches the one sent. */
  lemma Finish(c: Config, rx: Rx, b: nat, i: int)
    requires c.Ok() && Holding(c, rx, b, c.Frame()) && rx.baud == 0
    ensures var (rx', out) := RxTick(c, rx, i);
      !rx'.active && out == Some(Heard(c, b))
  {
    hide Word, Shl, Low, Ones;
    var w, n := Word(c, b) / 2, c.Frame();
    NotYetFull(n, n);
    ShrOfShl(Low(w, n), 32 - n);
  }

  lemma LowNibble(v: nat)
    ensures Low(v, 4) == v % 16
  {
    hide Low;
    LowOne(v / 2 / 2 / 2);
    LowMore(v / 2 / 2, 1);
    LowMore(v / 2, 2);
    LowMore(v, 3);
    ModHalf(v / 2 / 2, 2);
    ModHalf(v / 2, 4);
    ModHalf(v, 8);
  }

  lemma LowOne(v: nat)
    ensures Low(v, 1) == v % 2
  {}

  lemma LowMore(v: nat, n: nat)
    ensures Low(v, n + 1) == 2 * Low(v / 2, n) + v % 2
  {}

  lemma {:induction false} LowSplit(v: nat, m: nat, n: nat)
    ensures Low(v, m + n) == Low(v, m) + Shl(Low(Shr(v, m), n), m)
    decreases m
  {
    if m > 0 { LowSplit(v / 2, m - 1, n); }
  }

  lemma LowByte(v: nat)
    ensures Low(v, 8) == v % 0x100
  {
    LowSplit(v, 4, 4);
    LowNibble(v);
    Shr4(v);
    LowNibble(v / 16);
    Shl4(v / 16 % 16);
    TwoNibbles(v);
  }

  lemma TwoNibbles(v: nat)
    ensures v % 0x100 == 16 * (v / 16 % 16) + v % 16
  {
    assert v == v / 16 / 16 * 0x100 + (16 * (v / 16 % 16) + v % 16);
  }

  /** The transmitter stays in its bit, moves to the next one, or goes idle after the last. */
  lemma SendOn(c: Config, s: Link, b: nat, i: nat, offer: Option<nat>)
    requires c.Ok() && Offer(offer) && Sending(c, s, b, i)
    ensures var s' := Step(c, s, offer);
      if s.tx.baud > 0 then Sending(c, s', b, i) && s'.tx.baud == s.tx.baud - 1
      else if i < c.Frame() then Sending(c, s', b, i + 1) && s'.tx.baud == c.baud - 1
      else !s'.tx.active && s'.line == 1
  {
    hide Word, Shl, Shr, Low, Ones, RxTick;
    ShrStep(Word(c, b), i);
    FrameShape(c, b);
    OnesMore(c.Frame() - i);
    OnesSome(c.Frame() - i);
  }

  lemma SendFirst(c: Config, s: Link, b: nat)
    requires c.Ok() && b < 0x100 && !s.tx.active
    ensures var s' := Step(c, s, Some(b));
      Sending(c, s', b, 0) && s'.tx.baud == c.baud - 1 && s'.line == 0
  {
    FrameShape(c, b);
  }

  // ---- one tick of the loop ----

  lemma QuietStep(c: Config, s: Link, offer: Option<nat>) returns (p: Phase)
    requires c.Ok() && Offer(offer) && Inv(c, s, Quiet)
    ensures Inv(c, Step(c, s, offer), p)
    ensures offer.None? ==> p == Quiet
  {
    p := Quiet;
    if offer.Some? {
      p := Fresh;
      SendFirst(c, s, offer.value);
    }
  }

  lemma EndingStep(c: Config, s: Link, offer: Option<nat>) returns (p: Phase)
    requires c.Ok() && Offer(offer) && Inv(c, s, Ending)
    ensures Inv(c, Step(c, s, offer), p)
    ensures offer.None? ==>
      if s.rx.baud == 0 then p == Quiet else p == Ending && Step(c, s, offer).rx.baud == s.rx.baud - 1
  {
    var b := s.sent[|s.got|];
    if s.rx.baud == 0 {
      Finish(c, s.rx, b, s.line);
      p := Quiet;
    } else {
      NotYetFull(c.Frame(), c.Frame());
      p := Ending;
    }
    if offer.Some? {
      SendFirst(c, s, offer.value);
      p := if s.rx.baud == 0 then Fresh else Overlap;
    }
  }

  lemma FreshStep(c: Config, s: Link, offer: Option<nat>) returns (p: Phase)
    requires c.Ok() && Offer(offer) && Inv(c, s, Fresh)
    ensures Inv(c, Step(c, s, offer), p)
    ensures p == Same(if s.tx.baud > 0 then 0 else 1, 0)
    ensures Step(c, s, offer).tx.baud == if s.tx.baud > 0 then s.tx.baud - 1 else c.baud - 1
  {
    var b := s.sent[|s.got|];
    FrameShape(c, b);
    SendOn(c, s, b, 0, offer);
    LowOfNothing(Word(c, b) / 2);
    p := Same(if s.tx.baud > 0 then 0 else 1, 0);
  }

  lemma LowOfNothing(w: nat)
    ensures Shl(Low(w, 0), 32) == 0 && Ones(0) == 0
  {
    LowOfShl(0, 32, 0);
    ShlOfZero(32);
  }

  lemma OverlapStep(c: Config, s: Link, offer: Option<nat>) returns (p: Phase)
    requires c.Ok() && Offer(offer) && Inv(c, s, Overlap)
    ensures Inv(c, Step(c, s, offer), p)
    ensures p == if s.rx.baud == 0 then Fresh else Overlap
    ensures Step(c, s, offer).tx.baud == s.tx.baud - 1
  {
    hide Word, Shl, Shr, Low, Ones, BitOr;
    FrameShape(c, s.sent[|s.got| + 1]);
    SendOn(c, s, s.sent[|s.got| + 1], 0, offer);
    if s.rx.baud == 0 {
      Finish(c, s.rx, s.sent[|s.got|], s.line);
      p := Fresh;
    } else {
      p := Overlap;
    }
  }

  lemma SameStep(c: Config, s: Link, offer: Option<nat>, i: nat, k: nat) returns (p: Phase)
    requires c.Ok() && Offer(offer) && Inv(c, s, Same(i, k))
    ensures Inv(c, Step(c, s, offer), p)
    ensures if s.tx.baud > 0 || i < c.Frame() then p.Same? && p.i == (if s.tx.baud > 0 then i else i + 1)
            else p == Ending
    ensures if p.Same? then Step(c, s, offer).tx.baud == if s.tx.baud > 0 then s.tx.baud - 1 else c.baud - 1
            else s.tx.baud == 0 && i == c.Frame() && Step(c, s, offer).rx.baud == c.baud / 2
  {
    hide Word, Shl, Shr, Low, Ones, BitOr;
    var b := s.sent[|s.got|];
    SendOn(c, s, b, i, offer);
    var k' := k;
    if s.rx.baud == 0 {
      Sample(c, s.rx, b, k);
      k' := k + 1;
    }
    if s.tx.baud > 0 || i < c.Frame() {
      p := Same(if s.tx.baud > 0 then i else i + 1, k');
    } else {
      FrameShape(c, b);
      p := Ending;
    }
  }

  /** n bit periods of b ticks. */
  function Periods(n: nat, b: nat): nat { if n == 0 then 0 else b + Periods(n - 1, b) }

  /** The ticks left until both ends are idle if nothing more is offered. */
  ghost function Remaining(c: Config, s: Link, p: Phase): int
    requires c.Ok() && Inv(c, s, p)
  {
    match p
    case Quiet => 0
    case Ending => s.rx.baud + 1
    case Fresh => Periods(c.Frame(), c.baud) + s.tx.baud + 1 + c.baud / 2 + 1
    case Overlap => Periods(c.Frame(), c.baud) + s.tx.baud + 1 + c.baud / 2 + 1
    case Same(i, _) => Periods(c.Frame() - i, c.baud) + s.tx.baud + 1 + c.baud / 2 + 1
  }

  lemma InvStep(c: Config, s: Link, offer: Option<nat>, p: Phase) returns (p': Phase)
    requires c.Ok() && Offer(offer) && Inv(c, s, p)
    ensures Inv(c, Step(c, s, offer), p')
    ensures offer.None? ==>
      Remaining(c, Step(c, s, offer), p') == if p == Quiet then 0 else Remaining(c, s, p) - 1
  {
    hide Step, Inv;
    InBit(c, s, p);
    match p
    case Quiet => p' := QuietStep(c, s, offer);
    case Ending => p' := EndingStep(c, s, offer);
    case Fresh => p' := FreshStep(c, s, offer);
    case Overlap => p' := OverlapStep(c, s, offer);
    case Same(i, k) => p' := SameStep(c, s, offer, i, k);
  }

  lemma InBit(c: Config, s: Link, p: Phase)
    requires c.Ok() && Inv(c, s, p)
    ensures p.Same? ==> p.i <= c.Frame()
    ensures p != Quiet && p != Ending ==> s.tx.baud >= 0
  {}

  // ---- every run ----

  /** The loop after the offers of a whole run, one a tick. */
  function Run(c: Config, s: Link, offers: seq<Option<nat>>): Link
    requires c.Ok() && forall o | o in offers :: Offer(o)
    decreases |offers|
  {
    if offers == [] then s
    else Step(c, Run(c, s, offers[..|offers| - 1]), offers[|offers| - 1])
  }

  /** Both ends idle on a line that is high; the edge counter and last level hold anything. */
  ghost predicate Start(s: Link) {
    !s.tx.active && !s.rx.active && s.line == 1 && s.sent == [] && s.got == []
  }

  lemma {:induction false} InvRun(c: Config, s: Link, offers: seq<Option<nat>>) returns (p: Phase)
    requires c.Ok() && Start(s) && offers != [] && forall o | o in offers :: Offer(o)
    ensures Inv(c, Run(c, s, offers), p)
    decreases |offers|
  {
    var last := offers[|offers| - 1];
    var before := offers[..|offers| - 1];
    assert Offer(last);
    if before == [] {
      p := Quiet;
      if last.Some? {
        SendFirst(c, s, last.value);
        p := Fresh;
      }
    } else {
      var q := InvRun(c, s, before);
      p := InvStep(c, Run(c, s, before), last, q);
    }
  }

  /** At every tick of every run, what has been delivered is what was sent, in order, with at
      most two bytes still on their way. */
  lemma LoopbackSafe(c: Config, s: Link, offers: seq<Option<nat>>)
    requires c.Ok() && Start(s) && forall o | o in offers :: Offer(o)
    ensures var e := Run(c, s, offers);
      |e.got| <= |e.sent| <= |e.got| + 2 && (forall j | 0 <= j < |e.sent| :: e.sent[j] < 0x100) &&
      forall j | 0 <= j < |e.got| ::
        e.got[j] == Heard(c, e.sent[j]) && Match(c, e.got[j], e.sent[j]) && (c.nbits == 8 ==> e.got[j] == e.sent[j])
  {
    if offers != [] {
      var p := InvRun(c, s, offers);
      var e := Run(c, s, offers);
      forall j | 0 <= j < |e.got|
        ensures e.got[j] == Heard(c, e.sent[j]) && Match(c, e.got[j], e.sent[j])
        ensures c.nbits == 8 ==> e.got[j] == e.sent[j]
      {
        HeardMatches(c, e.sent[j]);
        if c.nbits == 8 { MatchExact(c, e.got[j], e.sent[j]); }
      }
    }
  }

  /** n ticks without an offer. */
  function Silence(n: nat): seq<Option<nat>> { seq(n, _ => None) }

  lemma {:induction false} Drain(c: Config, s: Link, p: Phase, n: nat)
    requires c.Ok() && Inv(c, s, p) && Remaining(c, s, p) <= n
    ensures Inv(c, Run(c, s, Silence(n)), Quiet)
  {
    var q := DrainTo(c, s, p, n);
    QuietWhenDone(c, Run(c, s, Silence(n)), q);
  }

  lemma {:induction false} DrainTo(c: Config, s: Link, p: Phase, n: nat) returns (q: Phase)
    requires c.Ok() && Inv(c, s, p)
    ensures Inv(c, Run(c, s, Silence(n)), q)
    ensures var e := Run(c, s, Silence(n));
      Remaining(c, e, q) == if Remaining(c, s, p) <= n then 0 else Remaining(c, s, p) - n
  {
    if n == 0 {
      q := p;
      QuietWhenDone(c, s, p);
    } else {
      assert Silence(n)[..n - 1] == Silence(n - 1);
      var q' := DrainTo(c, s, p, n - 1);
      QuietWhenDone(c, Run(c, s, Silence(n - 1)), q');
      q := InvStep(c, Run(c, s, Silence(n - 1)), None, q');
    }
  }

  lemma QuietWhenDone(c: Config, s: Link, p: Phase)
    requires c.Ok() && Inv(c, s, p)
    ensures Remaining(c, s, p) >= 0
    ensures Remaining(c, s, p) == 0 <==> p == Quiet
  {}

  lemma {:induction false} RunSplit(c: Config, s: Link, xs: seq<Option<nat>>, ys: seq<Option<nat>>)
    requires c.Ok() && forall o | o in xs + ys :: Offer(o)
    ensures (forall o | o in xs :: Offer(o)) && (forall o | o in ys :: Offer(o))
    ensures Run(c, s, xs + ys) == Run(c, Run(c, s, xs), ys)
    decreases |ys|
  {
    forall o | o in xs ensures Offer(o) { assert o in xs + ys; }
    forall o | o in ys ensures Offer(o) { assert o in xs + ys; }
    if ys == [] {
      assert xs + ys == xs;
    } else {
      var n := |ys| - 1;
      assert (xs + ys)[..|xs + ys| - 1] == xs + ys[..n];
      forall o | o in xs + ys[..n] ensures Offer(o) { assert o in xs + ys; }
      RunSplit(c, s, xs, ys[..n]);
    }
  }

  lemma {:induction false} LongEnough(c: Config, s: Link, p: Phase)
    requires c.Ok() && Inv(c, s, p)
    ensures Remaining(c, s, p) <= Periods(c.Frame() + 2, c.baud) + 2
  {
    match p
    case Same(i, _) => PeriodsGrow(c.Frame() - i, c.Frame(), c.baud);
    case _ =>
  }

  lemma {:induction false} PeriodsGrow(m: nat, n: nat, b: nat)
    requires m <= n
    ensures Periods(m, b) <= Periods(n, b)
  {
    if m < n { PeriodsGrow(m, n - 1, b); }
  }

  /** Loopback: after any run of offers, one frame, one more bit period and two ticks without offers
      are enough for the receiver to have delivered exactly the bytes sent. */
  lemma Loopback(c: Config, s: Link, offers: seq<Option<nat>>)
    requires c.Ok() && Start(s) && offers != [] && forall o | o in offers :: Offer(o)
    ensures forall o | o in offers + Silence(Periods(c.Frame() + 2, c.baud) + 2) :: Offer(o)
    ensures var e := Run(c, s, offers + Silence(Periods(c.Frame() + 2, c.baud) + 2));
      e.sent == Run(c, s, offers).sent && |e.got| == |e.sent| &&
      (forall j | 0 <= j < |e.sent| :: e.sent[j] < 0x100) &&
      forall j | 0 <= j < |e.sent| ::
        e.got[j] == Heard(c, e.sent[j]) && Match(c, e.got[j], e.sent[j]) && (c.nbits == 8 ==> e.got[j] == e.sent[j])
  {
    hide Run, Inv, Step, Periods, Remaining;
    var n := Periods(c.Frame() + 2, c.baud) + 2;
    forall o | o in offers + Silence(n) ensures Offer(o) {}
    var m := Run(c, s, offers);
    var p := InvRun(c, s, offers);
    LongEnough(c, m, p);
    Drain(c, m, p, n);
    QuietDelivered(c, Run(c, m, Silence(n)));
    RunSplit(c, s, offers, Silence(n));
    LoopbackSafe(c, s, offers + Silence(n));
    SilentSent(c, m, n);
    assert Run(c, s, offers + Silence(n)) == Run(c, m, Silence(n));
  }

  /** With nothing on its way, everything sent has been delivered. */
  lemma QuietDelivered(c: Config, s: Link)
    requires c.Ok() && Inv(c, s, Quiet)
    ensures |s.got| == |s.sent|
  {}

  lemma {:induction false} SilentSent(c: Config, s: Link, n: nat)
    requires c.Ok()
    ensures Run(c, s, Silence(n)).sent == s.sent
  {
    if n > 0 {
      assert Silence(n)[..n - 1] == Silence(n - 1);
      SilentSent(c, s, n - 1);
    }
  }
}
