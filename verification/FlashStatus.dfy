/** The status register of the flash simulator: its bits, and what a host reads of it. */
module FlashStatus {
  import opened Bits
  import opened Wrappers
  import opened FlashSpec
  import opened FlashBytes
  import opened FlashFrames
  import opened FlashSafety

  // ---- numbers by their bits ----

  lemma {:induction false} BitsDecide(x: nat, y: nat)
    requires forall k: nat :: Bit(x, k) == Bit(y, k)
    ensures x == y
    decreases x + y
  {
    if x + y > 0 {
      assert Bit(x, 0) == Bit(y, 0);
      forall k: nat ensures Bit(x / 2, k) == Bit(y / 2, k) { assert Bit(x, k + 1) == Bit(y, k + 1); }
      BitsDecide(x / 2, y / 2);
    }
  }

  /** A bit with a number above it. */
  function Above(b: bool, x: nat): nat { One(b) + 2 * x }

  lemma BitAbove(b: bool, x: nat, k: nat)
    ensures Bit(Above(b, x), k) == if k == 0 then b else Bit(x, k - 1)
  {
    assert Above(b, x) / 2 == x && (Above(b, x) % 2 == 1) == b;
  }

  /** The eight bits of a register, the lowest first. */
  function Byte8(b0: bool, b1: bool, b2: bool, b3: bool, b4: bool, b5: bool, b6: bool, b7: bool): nat {
    Above(b0, Above(b1, Above(b2, Above(b3, Above(b4, Above(b5, Above(b6, One(b7))))))))
  }

  lemma Byte8Is(b0: bool, b1: bool, b2: bool, b3: bool, b4: bool, b5: bool, b6: bool, b7: bool)
    ensures Byte8(b0, b1, b2, b3, b4, b5, b6, b7) == One(b0) + 2 * One(b1) + 4 * One(b2) + 8 * One(b3)
      + 16 * One(b4) + 32 * One(b5) + 64 * One(b6) + 128 * One(b7)
  {
    hide One;
  }

  lemma Byte8Bits(b0: bool, b1: bool, b2: bool, b3: bool, b4: bool, b5: bool, b6: bool, b7: bool, k: nat)
    ensures Bit(Byte8(b0, b1, b2, b3, b4, b5, b6, b7), k) ==
      match k
      case 0 => b0 case 1 => b1 case 2 => b2 case 3 => b3 case 4 => b4 case 5 => b5 case 6 => b6 case 7 => b7
      case _ => false
  {
    hide Bit, Above;
    var x7 := One(b7);
    var x6 := Above(b6, x7);
    var x5 := Above(b5, x6);
    var x4 := Above(b4, x5);
    var x3 := Above(b3, x4);
    var x2 := Above(b2, x3);
    var x1 := Above(b1, x2);
    BitAbove(b0, x1, k);
    if k > 0 { BitAbove(b1, x2, k - 1); }
    if k > 1 { BitAbove(b2, x3, k - 2); }
    if k > 2 { BitAbove(b3, x4, k - 3); }
    if k > 3 { BitAbove(b4, x5, k - 4); }
    if k > 4 { BitAbove(b5, x6, k - 5); }
    if k > 5 { BitAbove(b6, x7, k - 6); }
    if k > 6 { BitOfOne(b7, k - 7); }
  }

  lemma BitOfOne(b: bool, k: nat)
    ensures Bit(One(b), k) == (k == 0 && b)
  {
    BitAbove(b, 0, k);
    if k > 0 { BitOfZero(k - 1); }
  }

  // ---- the status byte ----

  /** The error and protection bits lie where they belong. */
  predicate Fields(s: Status) { BitAnd(s.err, 0x60) == s.err && BitAnd(s.prot, 0x9c) == s.prot }

  /** Which bits the two masks have. */
  lemma Masks(k: nat)
    ensures Bit(0x60, k) <==> k == 5 || k == 6
    ensures Bit(0x9c, k) <==> k == 2 || k == 3 || k == 4 || k == 7
  {
    hide Bit;
    Byte8Is(false, false, false, false, false, true, true, false);
    Byte8Is(false, false, true, true, true, false, false, true);
    Byte8Bits(false, false, false, false, false, true, true, false, k);
    Byte8Bits(false, false, true, true, true, false, false, true, k);
  }

  lemma FieldBits(s: Status, k: nat)
    requires Fields(s)
    ensures Bit(s.err, k) ==> k == 5 || k == 6
    ensures Bit(s.prot, k) ==> k == 2 || k == 3 || k == 4 || k == 7
  {
    hide Bit, BitAnd;
    BitOfAnd(s.err, 0x60, k);
    BitOfAnd(s.prot, 0x9c, k);
    Masks(k);
  }

  lemma FieldsSpelt(s: Status)
    requires Fields(s)
    ensures s.err == Byte8(false, false, false, false, false, Bit(s.err, 5), Bit(s.err, 6), false)
    ensures s.prot ==
      Byte8(false, false, Bit(s.prot, 2), Bit(s.prot, 3), Bit(s.prot, 4), false, false, Bit(s.prot, 7))
  {
    hide Bit, BitAnd, Fields, Byte8;
    var e5, e6, p2, p3, p4, p7 :=
      Bit(s.err, 5), Bit(s.err, 6), Bit(s.prot, 2), Bit(s.prot, 3), Bit(s.prot, 4), Bit(s.prot, 7);
    var e, p := Byte8(false, false, false, false, false, e5, e6, false), Byte8(false, false, p2, p3, p4, false, false, p7);
    forall k: nat ensures Bit(s.err, k) == Bit(e, k) && Bit(s.prot, k) == Bit(p, k) {
      FieldBits(s, k);
      Byte8Bits(false, false, false, false, false, e5, e6, false, k);
      Byte8Bits(false, false, p2, p3, p4, false, false, p7, k);
    }
    BitsDecide(s.err, e);
    BitsDecide(s.prot, p);
  }

  lemma ErrSpelt(err: nat, e5: bool, e6: bool)
    requires err == Byte8(false, false, false, false, false, e5, e6, false)
    ensures err == 32 * One(e5) + 64 * One(e6)
  {
    Byte8Is(false, false, false, false, false, e5, e6, false);
  }

  lemma ProtSpelt(prot: nat, p2: bool, p3: bool, p4: bool, p7: bool)
    requires prot == Byte8(false, false, p2, p3, p4, false, false, p7)
    ensures prot == 4 * One(p2) + 8 * One(p3) + 16 * One(p4) + 128 * One(p7)
  {
    Byte8Is(false, false, p2, p3, p4, false, false, p7);
  }

  lemma StatusSum(s: Status)
    ensures StatusByte(s) == One(s.wip) + 2 * One(s.wel) + s.err + s.prot
  {}

  lemma ByteSpelt(s: Status)
    requires Fields(s)
    ensures StatusByte(s) ==
      Byte8(s.wip, s.wel, Bit(s.prot, 2), Bit(s.prot, 3), Bit(s.prot, 4), Bit(s.err, 5), Bit(s.err, 6), Bit(s.prot, 7))
  {
    hide *;
    FieldsSpelt(s);
    ErrSpelt(s.err, Bit(s.err, 5), Bit(s.err, 6));
    ProtSpelt(s.prot, Bit(s.prot, 2), Bit(s.prot, 3), Bit(s.prot, 4), Bit(s.prot, 7));
    StatusSum(s);
    Byte8Is(s.wip, s.wel, Bit(s.prot, 2), Bit(s.prot, 3), Bit(s.prot, 4), Bit(s.err, 5), Bit(s.err, 6), Bit(s.prot, 7));
  }

  /** Bit by bit: write in progress, write enable, and the protection and error bits at their places. */
  lemma StatusBits(s: Status, k: nat)
    requires Fields(s)
    ensures StatusByte(s) < 256
    ensures Bit(StatusByte(s), k) == if k == 0 then s.wip else if k == 1 then s.wel else Bit(s.prot, k) || Bit(s.err, k)
  {
    hide Bit, Byte8, StatusByte, Fields;
    ByteSpelt(s);
    var e5, e6, p2, p3, p4, p7 :=
      Bit(s.err, 5), Bit(s.err, 6), Bit(s.prot, 2), Bit(s.prot, 3), Bit(s.prot, 4), Bit(s.prot, 7);
    Byte8Is(s.wip, s.wel, p2, p3, p4, e5, e6, p7);
    Byte8Bits(s.wip, s.wel, p2, p3, p4, e5, e6, p7, k);
    FieldBits(s, k);
  }

  /** The masks that the source reads and writes the register with pick the fields out again. */
  lemma StatusMasks(s: Status)
    requires Fields(s)
    ensures BitAnd(StatusByte(s), 0x9c) == s.prot && BitAnd(StatusByte(s), 0x60) == s.err
    ensures (StatusByte(s) % 2 == 1) == s.wip && (StatusByte(s) / 2 % 2 == 1) == s.wel
  {
    hide Bit, BitAnd, StatusByte, Fields;
    forall k: nat
      ensures Bit(BitAnd(StatusByte(s), 0x9c), k) == Bit(s.prot, k) && Bit(BitAnd(StatusByte(s), 0x60), k) == Bit(s.err, k)
    {
      BitOfAnd(StatusByte(s), 0x9c, k);
      BitOfAnd(StatusByte(s), 0x60, k);
      Masks(k);
      StatusBits(s, k);
      FieldBits(s, k);
    }
    BitsDecide(BitAnd(StatusByte(s), 0x9c), s.prot);
    BitsDecide(BitAnd(StatusByte(s), 0x60), s.err);
    StatusBits(s, 0);
    StatusBits(s, 1);
    LowBits(StatusByte(s));
  }

  lemma LowBits(x: nat)
    ensures Bit(x, 0) == (x % 2 == 1) && Bit(x, 1) == (x / 2 % 2 == 1)
  {
    assert Shr(x, 1) == x / 2;
  }

  // ---- the fields keep their places in every run ----

  lemma MaskedTwice(x: nat, m: nat)
    ensures BitAnd(BitAnd(x, m), m) == BitAnd(x, m)
  {
    hide Bit, BitAnd;
    forall k: nat ensures Bit(BitAnd(BitAnd(x, m), m), k) == Bit(BitAnd(x, m), k) {
      BitOfAnd(BitAnd(x, m), m, k);
      BitOfAnd(x, m, k);
    }
    BitsDecide(BitAnd(BitAnd(x, m), m), BitAnd(x, m));
  }

  lemma FieldsStep(f: Flash, i: Input, g: Flash)
    requires Moves(f, i, g) && Fields(f.status)
    ensures Fields(g.status)
  {
    hide Command, Data, Deselect, BitAnd;
    var s := Shift(Timer(f), i.dat);
    CommandFields(s);
    DataFields(s);
    DeselectFields(Timer(f));
  }

  lemma CommandFields(f: Flash)
    requires Shape(f)
    ensures Command(f).Some? ==>
      Command(f).value.status.err == f.status.err && Command(f).value.status.prot == f.status.prot
  {}

  lemma DataFields(f: Flash)
    requires Shape(f) && Fields(f.status)
    ensures Data(f).Some? ==> Fields(Data(f).value.status)
  {
    hide BitAnd;
    MaskedTwice(f.ireg % 256, 0x9c);
  }

  lemma DeselectFields(f: Flash)
    requires Shape(f) && Fields(f.status)
    ensures Deselect(f).Some? ==> Fields(Deselect(f).value.status)
  {
    hide BitAnd;
    AndNone(0x60);
  }

  /** From any such state, the fields are in their places in every run. */
  lemma {:induction false} FieldsAlways(fs: seq<Flash>, pins: seq<Input>, n: nat)
    requires Trace(fs, pins) && n < |fs| && Fields(fs[0].status)
    ensures Fields(fs[n].status)
  {
    hide Moves, Fields;
    if n > 0 {
      FieldsAlways(fs, pins, n - 1);
      assert Moves(fs[n - 1], pins[n - 1], fs[n - 1 + 1]);
      FieldsStep(fs[n - 1], pins[n - 1], fs[n]);
    }
  }

  /** A chip from its constructor. */
  lemma FieldsAtFirst()
    ensures Fields(Status(false, false, false, 0, 0x1c))
  {
    hide Bit, BitAnd;
    AndNone(0x60);
    forall k: nat ensures Bit(BitAnd(0x1c, 0x9c), k) == Bit(0x1c, k) {
      BitOfAnd(0x1c, 0x9c, k);
      Masks(k);
      Byte8Is(false, false, true, true, true, false, false, false);
      Byte8Bits(false, false, true, true, true, false, false, false, k);
    }
    BitsDecide(BitAnd(0x1c, 0x9c), 0x1c);
  }

  // ---- reading it ----

  /** The eight bits a host samples for this status. */
  function StatusLevels(s: Status): seq<bool> {
    [Bit(s.prot, 7), Bit(s.err, 6), Bit(s.err, 5), Bit(s.prot, 4), Bit(s.prot, 3), Bit(s.prot, 2), s.wel, s.wip]
  }

  lemma LevelsOfByte(s: Status)
    requires Fields(s)
    ensures Bits8(StatusByte(s) % 256) == StatusLevels(s)
  {
    hide Bit, StatusByte, Fields;
    forall k: nat | k < 8 ensures BitOf(StatusByte(s), k) == Bit(StatusByte(s), 7 - k) { BitOfIs(StatusByte(s), k); }
    StatusBits(s, 0);
    StatusBits(s, 1);
    StatusBits(s, 2);
    StatusBits(s, 3);
    StatusBits(s, 4);
    StatusBits(s, 5);
    StatusBits(s, 6);
    StatusBits(s, 7);
    FieldBits(s, 2);
    FieldBits(s, 3);
    FieldBits(s, 4);
    FieldBits(s, 5);
    FieldBits(s, 6);
    FieldBits(s, 7);
  }

  lemma BitOfIs(x: nat, k: nat)
    requires k < 8
    ensures BitOf(x, k) == Bit(x, 7 - k)
  {}

  /** The status after the timer has run for n calls. */
  function StatusLater(f: Flash, n: nat): Status { TimerBy(f, n).status }

  /** What n status bytes look like: byte j shows the status at its first bit's falling edge. */
  function StatusBytes(f: Flash, n: nat): seq<bool> {
    if n == 0 then [] else StatusBytes(f, n - 1) + StatusLevels(StatusLater(f, 16 * n - 1))
  }

  /** n bytes after command 0x05. */
  ghost predicate Reporting(f0: Flash, f: Flash, n: nat) {
    Shape(f) && f.state == Rdsr && f.lastSck && f.count == 8 + 8 * n && f.mem == f0.mem &&
    f.status == StatusLater(f0, 16 * n + 16) && f.wc == TimerBy(f0, 16 * n + 16).wc &&
    f.oreg % 256 == StatusByte(StatusLater(f0, 16 * n + 15)) % 256
  }

  lemma TimerMore(f0: Flash, f: Flash, m: nat, n: nat)
    requires f.status == StatusLater(f0, m) && f.wc == TimerBy(f0, m).wc
    ensures TimerBy(f, n).status == StatusLater(f0, m + n) && TimerBy(f, n).wc == TimerBy(f0, m + n).wc
  {}

  lemma LowOf(o: nat, v: nat)
    ensures (o / 256 * 256 + v % 256) % 256 == v % 256 && (o / 256 * 256 + v % 256) / 256 == o / 256
  {
    DivModUnique(o / 256 * 256 + v % 256, 256, o / 256, v % 256);
  }

  lemma ReportStart(f: Flash)
    requires Shape(f) && f.lastSck && f.count == 0 && f.ireg == 0 && !StatusLater(f, 15).dpd
    ensures ByteStep(f, 0x05).Some? && Reporting(f, ByteStep(f, 0x05).value, 0)
  {
    hide Data, StatusByte;
    var r := Received(f, 0x05);
    LowOf(Queue(r, 0xa5).oreg, StatusByte(r.status));
    TimerAdds(f, 15);
  }

  lemma ReportStep(f0: Flash, f: Flash, n: nat, b: nat)
    requires Reporting(f0, f, n)
    ensures ByteStep(f, b).Some? && Reporting(f0, ByteStep(f, b).value, n + 1)
    ensures Out(ByteStep(f, b).value) == (f.oreg % 2 == 1)
  {
    hide Command, Data, StatusByte, TimerBy, Timer, Queue;
    ReceivedRegs(f, b);
    StatusData(Received(f, b));
    TimerMore(f0, f, 16 * n + 16, 15);
    TimerMore(f0, f, 16 * n + 16, 16);
    TimerAdds(f, 15);
    TimerRegs(f, 15);
    OnlyTimed(TimerBy(f, 15), Data(Received(f, b)).value);
  }

  lemma ReceivedRegs(f: Flash, b: nat)
    ensures var r := Received(f, b);
      r.status == TimerBy(f, 15).status && r.wc == TimerBy(f, 15).wc && r.count == f.count + 8 && r.mem == f.mem &&
      r.state == f.state && r.oreg == f.oreg % 2 * 256
    ensures Shape(f) ==> Shape(Received(f, b))
  {}

  lemma TimerRegs(f: Flash, n: nat)
    ensures var t := TimerBy(f, n); t.state == f.state && t.mem == f.mem && t.count == f.count
  {}

  /** The timer looks at its own fields only. */
  lemma OnlyTimed(f: Flash, g: Flash)
    requires f.status == g.status && f.wc == g.wc
    ensures Timer(f).status == Timer(g).status && Timer(f).wc == Timer(g).wc
    ensures Timer(g) == g.(status := Timer(g).status, wc := Timer(g).wc)
  {}

  lemma StatusData(f: Flash)
    requires Shape(f) && f.state == Rdsr
    ensures Data(f).Some?
    ensures var o := Data(f).value.oreg;
      Data(f).value == f.(oreg := o) && o < 512 && o / 256 == f.oreg / 256 && o % 256 == StatusByte(f.status) % 256
  {
    hide StatusByte;
    LowOf(f.oreg, 0);
    LowOf(Queue(f, 0).oreg, StatusByte(f.status));
    LowReplaced(f.oreg, 0);
    LowReplaced(Queue(f, 0).oreg, StatusByte(f.status));
  }

  lemma LowReplaced(o: nat, v: nat)
    requires o < 512
    ensures o / 256 * 256 + v % 256 < 512
  {}

  /** Reading the status register: the bits of every byte, the most significant first, whatever is
      sent, however long, and while the write timer runs out. */
  lemma {:induction false} StatusReads(f: Flash, junk: seq<nat>)
    requires Shape(f) && f.lastSck && f.count == 0 && f.ireg == 0 && !StatusLater(f, 15).dpd
    requires Fields(f.status) && AllBytes(junk)
    ensures Bytes(f, [0x05] + junk).Some? && Reporting(f, Bytes(f, [0x05] + junk).value, |junk|)
    ensures Run(f, WavesOf([0x05] + junk)).Some?
    ensures var out := Sampled(f, WavesOf([0x05] + junk));
      |out| == 8 + 8 * |junk| && out[8..] == StatusBytes(f, |junk|)
  {
    hide ByteStep, Waves, Run, Sampled, Step, Bits8, Out, Shl, Shr, Bytes, WavesOf, Reporting, StatusByte, StatusLevels;
    hide StatusLater, Fields;
    if junk == [] {
      ReportStart(f);
      OneByte(f, 0x05);
      assert [0x05] + junk == [0x05];
    } else {
      var n := |junk| - 1;
      var most, last := junk[..n], junk[n];
      StatusReads(f, most);
      assert [0x05] + junk == [0x05] + most + [last];
      StatusMore(f, [0x05] + most, last, n);
      DropAppend(Sampled(f, WavesOf([0x05] + most)), StatusLevels(StatusLater(f, 16 * (n + 1) - 1)));
    }
  }

  lemma DropAppend(a: seq<bool>, b: seq<bool>)
    requires |a| >= 8
    ensures (a + b)[8..] == a[8..] + b
  {}

  lemma StatusMore(f: Flash, head: seq<nat>, last: nat, n: nat)
    requires Shape(f) && f.lastSck && f.count % 8 == 0 && AllBytes(head) && last < 256 && Fields(f.status)
    requires Bytes(f, head).Some? && Reporting(f, Bytes(f, head).value, n)
    ensures Bytes(f, head + [last]).Some? && Reporting(f, Bytes(f, head + [last]).value, n + 1)
    ensures Run(f, WavesOf(head + [last])).Some?
    ensures Sampled(f, WavesOf(head + [last])) ==
      Sampled(f, WavesOf(head)) + StatusLevels(StatusLater(f, 16 * (n + 1) - 1))
    ensures |StatusLevels(StatusLater(f, 16 * (n + 1) - 1))| == 8
  {
    hide ByteStep, Waves, Run, Sampled, Step, Bits8, Out, Bytes, WavesOf, Reporting, StatusByte;
    var g := Bytes(f, head).value;
    ReportStep(f, g, n, last);
    SampleMore(f, g, head, last);
    Reported(f, g, n);
    LevelsOfByte(StatusLater(f, 16 * n + 15));
  }

  lemma OneByte(f: Flash, b: nat)
    requires Shape(f) && f.lastSck && f.count % 8 == 0 && b < 256 && ByteStep(f, b).Some?
    ensures Bytes(f, [b]) == ByteStep(f, b) && Run(f, WavesOf([b])).Some? && |Sampled(f, WavesOf([b]))| == 8
  {
    hide ByteStep, Waves, Run, Sampled, Step;
    var none: seq<nat> := [];
    assert Bytes(f, none) == Some(f);
    BytesNext(f, none, b);
    assert none + [b] == [b];
    BytesRun(f, [b]);
  }

  lemma Reported(f0: Flash, f: Flash, n: nat)
    requires Reporting(f0, f, n) && Fields(f0.status)
    ensures f.oreg % 256 == StatusByte(StatusLater(f0, 16 * n + 15)) % 256 && Fields(StatusLater(f0, 16 * n + 15))
  {}
}
