/** The commands of the flash simulator that the driver does not use, each from its first bit to its
    effect, and how long every write takes. */
module FlashCommands {
  import opened Bits
  import opened Wrappers
  import opened FlashSpec
  import opened FlashBytes
  import opened FlashFrames
  import opened FlashSafety
  import opened FlashWrites
  import opened FlashStatus

  /** Chip select high just before, no timer running, awake. */
  predicate Quiet(f: Flash) {
    Shape(f) && f.lastSck && f.count == 0 && f.ireg == 0 && f.state == Idle && f.wc == 0 && !f.status.wip && !f.status.dpd
  }

  // ---- how long a write takes ----

  /** Raising chip select carries out the command and starts the timer with the command's time, in
      calls: a page program, a sector erase, a register write, a bulk erase, a release. */
  lemma WriteTimes(f: Flash)
    requires Shape(f) && f.wc == 0 && Raise(f).Some?
    ensures var g := Raise(f).value;
      (f.state == PageProgram ==> g.wc == 12 * 100) &&
      (f.state == SectorErase ==> g.wc == 15 * 100 * 1000) &&
      (f.state == Wrsr ==> g.wc == 50 * 100) &&
      (f.state == BulkErase ==> g.wc == 32 * 100 * 1000 * 1000) &&
      (f.state == Release ==> g.wc == 30 * 100 * 1000 * 1000) &&
      (f.state == PageProgram || f.state == SectorErase || f.state == Wrsr || f.state == BulkErase ==>
        g.state == Idle && g.status.wip && !g.status.wel)
  {
    hide Programmed, Erased;
  }

  /** With chip select high, a write is over after exactly the calls left on the timer, and not a
      call earlier. */
  lemma {:induction false} BusyUntil(f: Flash, n: nat)
    requires Shape(f) && f.state == Idle && f.status.wip && f.wc > 0
    ensures HighFor(f, n).Some?
    ensures var g := HighFor(f, n).value;
      g.state == Idle && g.mem == f.mem && (g.status.wip <==> n < f.wc) && (n < f.wc ==> g.wc == f.wc - n)
    decreases n
  {
    if n > 0 {
      var g := Step(f, Input(true, true, false)).value;
      if f.wc > 1 { BusyUntil(g, n - 1); } else { IdleStays(g, n - 1); }
    }
  }

  lemma {:induction false} IdleStays(f: Flash, n: nat)
    requires Shape(f) && f.state == Idle && !f.status.wip
    ensures HighFor(f, n).Some?
    ensures var g := HighFor(f, n).value; g.state == Idle && g.mem == f.mem && !g.status.wip
    decreases n
  {
    if n > 0 { IdleStays(Step(f, Input(true, true, false)).value, n - 1); }
  }

  // ---- write register, bulk erase, clear status ----

  /** The byte of a quiet command, as a state. */
  lemma CommandByte(f: Flash, b: nat, s: State)
    requires Quiet(f) && ((b == 0x30 && s == Clsr) || (b == 0x35 && s == Rdcr) || (b == 0x9f && s == Rdid) ||
      (b == 0x0b && s == FastRead) || (f.status.wel && ((b == 0x01 && s == Wrsr) || (b == 0xc7 && s == BulkErase))))
    ensures ByteStep(f, b).Some?
    ensures var g := ByteStep(f, b).value;
      Shape(g) && g.state == s && g.lastSck && g.count == 8 && g.ireg == b && g.mem == f.mem && g.wc == 0 &&
      g.status == f.status && g.creg == f.creg &&
      (b == 0x9f ==> g.oreg % 256 == 0) && (b == 0x35 ==> g.oreg % 256 == f.creg % 256)
  {
    hide Data, ByteStep;
    QuietCommand(f, b);
    var r := With(f, b, 8, f.oreg % 2 * 256, f.lastSck);
    LowOf(Queue(r, 0xa5).oreg, 0);
    LowOf(Queue(r, 0xa5).oreg, f.creg);
  }

  /** 0x01 with one byte: the protection bits take it, and the write runs. */
  lemma WriteStatus(f: Flash, v: nat)
    requires Quiet(f) && f.status.wel && v < 256
    ensures Bytes(f, [0x01, v]).Some? && Raise(Bytes(f, [0x01, v]).value).Some?
    ensures var g := Raise(Bytes(f, [0x01, v]).value).value;
      g.status == Status(true, false, false, f.status.err, BitAnd(v, 0x9c)) && g.wc == 5_000 && g.state == Idle &&
      g.creg == f.creg && g.mem == f.mem
  {
    hide ByteStep, Command, BitAnd, BitOr, Raise;
    CommandByte(f, 0x01, Wrsr);
    var g1 := ByteStep(f, 0x01).value;
    StatusByteIn(g1, v);
    TwoBytes(f, 0x01, v, g1);
    RaiseWrsr(ByteStep(g1, v).value);
  }

  /** With a second byte, its bit 1 goes into the configuration register. */
  lemma WriteConfig(f: Flash, v: nat, c: nat)
    requires Quiet(f) && f.status.wel && v < 256 && c < 256 && f.creg < 256
    ensures Bytes(f, [0x01, v, c]).Some? && Raise(Bytes(f, [0x01, v, c]).value).Some?
    ensures var g := Raise(Bytes(f, [0x01, v, c]).value).value;
      g.status == Status(true, false, false, f.status.err, BitAnd(v, 0x9c)) && g.wc == 5_000 && g.state == Idle &&
      g.mem == f.mem && forall k: nat :: Bit(g.creg, k) == if k == 1 then Bit(c, 1) else Bit(f.creg, k)
  {
    hide ByteStep, Command, BitAnd, BitOr, Bit, Raise;
    CommandByte(f, 0x01, Wrsr);
    var g1 := ByteStep(f, 0x01).value;
    StatusByteIn(g1, v);
    var g2 := ByteStep(g1, v).value;
    ConfigByteIn(g2, c);
    TwoBytes(f, 0x01, v, g1);
    BytesNext(f, [0x01, v], c);
    assert [0x01, v] + [c] == [0x01, v, c];
    RaiseWrsr(ByteStep(g2, c).value);
    forall k: nat
      ensures Bit(BitOr(BitAnd(f.creg, 0xfd), BitAnd(c, 2)), k) == if k == 1 then Bit(c, 1) else Bit(f.creg, k)
    {
      ConfigBit(f.creg, c, k);
    }
  }

  lemma StatusByteIn(f: Flash, v: nat)
    requires Shape(f) && f.state == Wrsr && f.lastSck && f.count == 8 && f.ireg == 0x01 && f.wc == 0 && v < 256
    ensures ByteStep(f, v).Some?
    ensures var g := ByteStep(f, v).value;
      Shape(g) && g.state == Wrsr && g.lastSck && g.count == 16 && g.ireg == 0x100 + v && g.mem == f.mem && g.wc == 0 &&
      g.creg == f.creg && g.status == f.status.(wel := false, dpd := false, prot := BitAnd(v, 0x9c))
  {
    hide Command, BitAnd, BitOr, ByteStep;
    QuietData(f, v);
    assert (256 * 0x01 + v) % 0x1_0000_0000 == 0x100 + v && (0x100 + v) % 256 == v;
  }

  lemma ConfigByteIn(f: Flash, c: nat)
    requires Shape(f) && f.state == Wrsr && f.lastSck && f.count == 16 && f.ireg < 0x200 && f.wc == 0 && c < 256
    ensures ByteStep(f, c).Some?
    ensures var g := ByteStep(f, c).value;
      Shape(g) && g.state == Wrsr && g.mem == f.mem && g.wc == 0 && g.status == f.status &&
      g.creg == BitOr(BitAnd(f.creg, 0xfd), BitAnd(c, 2))
  {
    hide Command, BitAnd, BitOr, ByteStep;
    QuietData(f, c);
    LowByte(f.ireg, c);
  }

  lemma RaiseWrsr(f: Flash)
    requires Shape(f) && f.state == Wrsr && f.wc == 0
    ensures Raise(f).Some?
    ensures var g := Raise(f).value;
      g.state == Idle && g.wc == 5_000 && g.creg == f.creg && g.mem == f.mem &&
      g.status == f.status.(wel := false, wip := true)
  {}

  lemma ConfigBit(creg: nat, c: nat, k: nat)
    requires creg < 256
    ensures Bit(BitOr(BitAnd(creg, 0xfd), BitAnd(c, 2)), k) == if k == 1 then Bit(c, 1) else Bit(creg, k)
  {
    hide Bit, BitAnd, BitOr, Byte8;
    BitOfOr(BitAnd(creg, 0xfd), BitAnd(c, 2), k);
    BitOfAnd(creg, 0xfd, k);
    BitOfAnd(c, 2, k);
    Byte8Is(true, false, true, true, true, true, true, true);
    Byte8Bits(true, false, true, true, true, true, true, true, k);
    Byte8Is(false, true, false, false, false, false, false, false);
    Byte8Bits(false, true, false, false, false, false, false, false, k);
    if k >= 8 { NoHighBit(creg, k); }
  }

  lemma {:induction false} NoHighBit(x: nat, k: nat)
    requires x < 256 && k >= 8
    ensures !Bit(x, k)
  {
    ShrShr(x, 8, k - 8);
    Shr8(x);
    BitOfZero(k - 8);
  }

  lemma TwoBytes(f: Flash, b0: nat, b1: nat, g: Flash)
    requires Shape(f) && Shape(g) && ByteStep(f, b0) == Some(g)
    ensures Bytes(f, [b0, b1]) == ByteStep(g, b1)
  {
    hide ByteStep;
    var none: seq<nat> := [];
    BytesNext(f, none, b0);
    assert none + [b0] == [b0];
    BytesNext(f, [b0], b1);
    assert [b0] + [b1] == [b0, b1];
  }

  lemma LoneByte(f: Flash, b: nat)
    requires Shape(f)
    ensures Bytes(f, [b]) == ByteStep(f, b)
  {
    hide ByteStep;
    var none: seq<nat> := [];
    BytesNext(f, none, b);
    assert none + [b] == [b];
  }

  /** 0xc7: the whole chip is blank. */
  lemma BulkEraseAll(f: Flash)
    requires Quiet(f) && f.status.wel
    ensures Bytes(f, [0xc7]).Some? && Raise(Bytes(f, [0xc7]).value).Some?
    ensures var g := Raise(Bytes(f, [0xc7]).value).value;
      g.status == f.status.(wel := false, wip := true) && g.wc == 3_200_000_000 && g.state == Idle &&
      |g.mem| == |f.mem| && forall a | 0 <= a < |g.mem| :: g.mem[a] == 255
  {
    hide ByteStep, Command;
    CommandByte(f, 0xc7, BulkErase);
    LoneByte(f, 0xc7);
  }

  /** Without the write enable neither of these commands does anything to memory or registers. */
  lemma NotEnabled(f: Flash, b: nat)
    requires Quiet(f) && !f.status.wel && (b == 0x01 || b == 0x02 || b == 0xc7 || b == 0xd8)
    ensures Bytes(f, [b]).Some? && Raise(Bytes(f, [b]).value).Some?
    ensures var g := Raise(Bytes(f, [b]).value).value;
      g.status == f.status && g.mem == f.mem && g.creg == f.creg && g.wc == 0
  {
    hide ByteStep, Data, Command;
    QuietCommand(f, b);
    LoneByte(f, b);
    Refused(With(f, b, 8, f.oreg % 2 * 256, f.lastSck));
    RaiseInvalid(ByteStep(f, b).value);
  }

  lemma Refused(f: Flash)
    requires Shape(f) && !f.status.wel && !f.status.dpd
    requires f.ireg == 0x01 || f.ireg == 0x02 || f.ireg == 0xc7 || f.ireg == 0xd8
    ensures Command(f) == Some(Queue(f, 0xa5).(state := Invalid))
  {}

  lemma RaiseInvalid(f: Flash)
    requires Shape(f) && f.state == Invalid && f.wc == 0
    ensures Raise(f).Some?
    ensures var g := Raise(f).value; g.status == f.status && g.mem == f.mem && g.creg == f.creg && g.wc == 0
  {}

  /** 0x30: the error bits are cleared, and no write runs. */
  lemma ClearErrors(f: Flash)
    requires Quiet(f)
    ensures Bytes(f, [0x30]).Some? && Raise(Bytes(f, [0x30]).value).Some?
    ensures var g := Raise(Bytes(f, [0x30]).value).value;
      g.status == f.status.(err := 0) && g.wc == 0 && g.state == Idle && g.mem == f.mem && g.creg == f.creg
  {
    hide ByteStep, Command;
    CommandByte(f, 0x30, Clsr);
    LoneByte(f, 0x30);
  }

  // ---- reading the configuration register and the identification ----

  /** n bytes after command 0x35. */
  ghost predicate Configuring(f0: Flash, f: Flash, n: nat) {
    Shape(f) && f.state == Rdcr && f.lastSck && f.count == 8 + 8 * n && f.wc == 0 && f.mem == f0.mem &&
    f.status == f0.status && f.creg == f0.creg && f.oreg % 256 == f0.creg % 256
  }

  lemma ConfigStep(f0: Flash, f: Flash, n: nat, b: nat)
    requires Configuring(f0, f, n) && b < 256
    ensures ByteStep(f, b).Some? && Configuring(f0, ByteStep(f, b).value, n + 1)
    ensures Out(ByteStep(f, b).value) == (f.oreg % 2 == 1)
  {
    hide Command, ByteStep;
    QuietData(f, b);
    LowOf(f.oreg % 2 * 256, 0);
    LowOf(f.oreg % 2 * 256 / 256 * 256 + 0 % 256, f.creg);
  }

  /** The bits of n times the byte v. */
  function Repeated(v: nat, n: nat): seq<bool> { if n == 0 then [] else Repeated(v, n - 1) + Bits8(v % 256) }

  /** 0x35: the configuration register, as long as it is read. */
  lemma {:induction false} ConfigReads(f: Flash, junk: seq<nat>)
    requires Quiet(f) && AllBytes(junk)
    ensures Bytes(f, [0x35] + junk).Some? && Configuring(f, Bytes(f, [0x35] + junk).value, |junk|)
    ensures Run(f, WavesOf([0x35] + junk)).Some?
    ensures var out := Sampled(f, WavesOf([0x35] + junk));
      |out| == 8 + 8 * |junk| && out[8..] == Repeated(f.creg, |junk|)
  {
    hide ByteStep, Waves, Run, Sampled, Step, Bits8, Out, Bytes, WavesOf, Configuring;
    if junk == [] {
      ConfigStart(f);
      OneByte(f, 0x35);
      assert [0x35] + junk == [0x35];
    } else {
      var n := |junk| - 1;
      var most, last := junk[..n], junk[n];
      ConfigReads(f, most);
      assert [0x35] + junk == [0x35] + most + [last];
      ConfigMore(f, [0x35] + most, last, n);
      DropAppend(Sampled(f, WavesOf([0x35] + most)), Bits8(f.creg % 256));
    }
  }

  lemma ConfigStart(f: Flash)
    requires Quiet(f)
    ensures ByteStep(f, 0x35).Some? && Configuring(f, ByteStep(f, 0x35).value, 0)
  {
    hide ByteStep;
    CommandByte(f, 0x35, Rdcr);
  }

  lemma ConfigMore(f: Flash, head: seq<nat>, last: nat, n: nat)
    requires Quiet(f) && AllBytes(head) && last < 256
    requires Bytes(f, head).Some? && Configuring(f, Bytes(f, head).value, n)
    ensures Bytes(f, head + [last]).Some? && Configuring(f, Bytes(f, head + [last]).value, n + 1)
    ensures Run(f, WavesOf(head + [last])).Some?
    ensures Sampled(f, WavesOf(head + [last])) == Sampled(f, WavesOf(head)) + Bits8(f.creg % 256)
    ensures |Bits8(f.creg % 256)| == 8
  {
    hide ByteStep, Waves, Run, Sampled, Step, Out, Bytes, WavesOf;
    ConfigStep(f, Bytes(f, head).value, n, last);
    SampleMore(f, Bytes(f, head).value, head, last);
  }

  /** n bytes after command 0x9f. */
  ghost predicate Identifying(f: Flash, n: nat) {
    Shape(f) && f.state == Rdid && f.lastSck && f.count == 8 + 8 * n && f.wc == 0 && f.ireg < 0x1_0000_0000 &&
    f.oreg % 256 == if n <= 1 then 0 else if n == 2 then 0x01 else 0x15
  }

  lemma IdStep(f: Flash, n: nat, b: nat)
    requires Identifying(f, n) && n < 3 && b < 256
    ensures ByteStep(f, b).Some? && Identifying(ByteStep(f, b).value, n + 1)
    ensures Out(ByteStep(f, b).value) == (f.oreg % 2 == 1)
  {
    hide Command, ByteStep, Shr;
    QuietData(f, b);
    LowOf(f.oreg % 2 * 256, 0);
    LowOf(f.oreg % 2 * 256 / 256 * 256 + 0 % 256, Shr(0x0115, 16 - 8 * n));
    IdPlaces(n);
  }

  lemma IdPlaces(n: nat)
    requires n < 3
    ensures Shr(0x0115, 16 - 8 * n) % 256 == if n == 0 then 0 else if n == 1 then 0x01 else 0x15
  {
    hide Shr;
    ShrShr(0x0115, 8, 8);
    Shr8(0x0115);
    Shr8(0x01);
    ShrSmall(0x0115);
  }

  /** 0x9f: the first bytes of the identification are 0, 0 and 1. */
  lemma IdReads(f: Flash, x: nat, y: nat, z: nat)
    requires Quiet(f) && x < 256 && y < 256 && z < 256
    ensures Run(f, WavesOf([0x9f, x, y, z])).Some?
    ensures var out := Sampled(f, WavesOf([0x9f, x, y, z]));
      |out| == 32 && out[8..] == Bits8(0) + Bits8(0) + Bits8(1)
  {
    hide ByteStep, Waves, Run, Sampled, Step, Out, Bytes, WavesOf, Bits8, Identifying;
    IdStart(f);
    OneByte(f, 0x9f);
    IdMore(f, [0x9f], x, 0);
    assert [0x9f] + [x] == [0x9f, x];
    IdMore(f, [0x9f, x], y, 1);
    assert [0x9f, x] + [y] == [0x9f, x, y];
    IdMore(f, [0x9f, x, y], z, 2);
    assert [0x9f, x, y] + [z] == [0x9f, x, y, z];
  }

  lemma IdStart(f: Flash)
    requires Quiet(f)
    ensures ByteStep(f, 0x9f).Some? && Identifying(ByteStep(f, 0x9f).value, 0)
  {
    hide ByteStep;
    CommandByte(f, 0x9f, Rdid);
  }

  lemma IdMore(f: Flash, head: seq<nat>, last: nat, n: nat)
    requires Quiet(f) && AllBytes(head) && last < 256 && n < 3
    requires Bytes(f, head).Some? && Identifying(Bytes(f, head).value, n)
    ensures Bytes(f, head + [last]).Some? && Identifying(Bytes(f, head + [last]).value, n + 1)
    ensures Run(f, WavesOf(head + [last])).Some? && |Sampled(f, WavesOf(head))| == 8 * |head|
    ensures var v := if n <= 1 then 0 else 1;
      Sampled(f, WavesOf(head + [last])) == Sampled(f, WavesOf(head)) + Bits8(v) && |Bits8(v)| == 8
  {
    hide ByteStep, Waves, Run, Sampled, Step, Out, Bytes, WavesOf;
    IdStep(Bytes(f, head).value, n, last);
    SampleMore(f, Bytes(f, head).value, head, last);
  }

  // ---- the electronic signature, and commands that do nothing ----

  /** n bytes after command 0xab. */
  ghost predicate Releasing(f: Flash, n: nat) {
    Shape(f) && f.state == Release && f.lastSck && f.count == 8 + 8 * n && f.wc == 0 &&
    (n >= 3 ==> f.oreg % 256 == 0x14)
  }

  lemma ReleaseStep(f: Flash, n: nat, b: nat)
    requires Releasing(f, n) && b < 256
    ensures ByteStep(f, b).Some? && Releasing(ByteStep(f, b).value, n + 1)
    ensures Out(ByteStep(f, b).value) == (f.oreg % 2 == 1)
  {
    hide Command, ByteStep;
    QuietData(f, b);
    LowOf(f.oreg % 2 * 256, 0);
    LowOf(f.oreg % 2 * 256 / 256 * 256 + 0 % 256, 0x14);
  }

  /** 0xab of a chip that is awake: the fifth byte of the frame reads as the signature 0x14. */
  lemma SignatureReads(f: Flash, x: nat, y: nat, z: nat, last: nat)
    requires Quiet(f) && x < 256 && y < 256 && z < 256 && last < 256
    ensures Run(f, WavesOf([0xab, x, y, z, last])).Some?
    ensures var out := Sampled(f, WavesOf([0xab, x, y, z, last]));
      |out| == 40 && out[32..] == Bits8(0x14)
  {
    hide ByteStep, Waves, Run, Sampled, Step, Out, Bytes, WavesOf, Bits8, Releasing;
    ReleaseStarted(f);
    OneByte(f, 0xab);
    ReleaseMore(f, [0xab], x, 0);
    assert [0xab] + [x] == [0xab, x];
    ReleaseMore(f, [0xab, x], y, 1);
    assert [0xab, x] + [y] == [0xab, x, y];
    ReleaseMore(f, [0xab, x, y], z, 2);
    assert [0xab, x, y] + [z] == [0xab, x, y, z];
    ReleaseMore(f, [0xab, x, y, z], last, 3);
    assert [0xab, x, y, z] + [last] == [0xab, x, y, z, last];
  }

  lemma ReleaseStarted(f: Flash)
    requires Quiet(f)
    ensures ByteStep(f, 0xab).Some? && Releasing(ByteStep(f, 0xab).value, 0)
  {
    hide ByteStep, Data;
    QuietCommand(f, 0xab);
  }

  lemma ReleaseMore(f: Flash, head: seq<nat>, last: nat, n: nat)
    requires Quiet(f) && AllBytes(head) && last < 256
    requires Bytes(f, head).Some? && Releasing(Bytes(f, head).value, n)
    ensures Bytes(f, head + [last]).Some? && Releasing(Bytes(f, head + [last]).value, n + 1)
    ensures Run(f, WavesOf(head + [last])).Some? && |Sampled(f, WavesOf(head))| == 8 * |head|
    ensures exists bits: seq<bool> ::
      |bits| == 8 && Sampled(f, WavesOf(head + [last])) == Sampled(f, WavesOf(head)) + bits &&
      (n >= 3 ==> bits == Bits8(0x14))
  {
    hide ByteStep, Waves, Run, Sampled, Step, Out, Bytes, WavesOf;
    var g := Bytes(f, head).value;
    ReleaseStep(g, n, last);
    SampleMore(f, g, head, last);
    var bits := Bits8(g.oreg % 256);
    assert |bits| == 8 && Sampled(f, WavesOf(head + [last])) == Sampled(f, WavesOf(head)) + bits;
  }

  /** These leave memory, registers and timer alone. */
  lemma DoNothing(f: Flash, b: nat)
    requires Quiet(f) && (b == 0x00 || b == 0xff || b == 0x50 || b == 0x70 || b == 0x81)
    ensures Bytes(f, [b]).Some? && Raise(Bytes(f, [b]).value).Some?
    ensures var g := Raise(Bytes(f, [b]).value).value;
      g.state == Idle && g.status == f.status && g.mem == f.mem && g.creg == f.creg && g.wc == 0
  {
    hide ByteStep, Data;
    QuietCommand(f, b);
    LoneByte(f, b);
  }

  /** While a write runs, a read gets nothing beyond its first byte and stays where it is. */
  lemma ReadWhileBusy(f: Flash, b: nat)
    requires Shape(f) && (f.state == SlowRead || f.state == FastRead) && f.lastSck && f.count % 8 == 0 && f.count >= 32
    requires f.status.wip && f.wc > 15 && b < 256
    ensures ByteStep(f, b).Some? && ByteStep(f, b).value.oreg == 0 && ByteStep(f, b).value.addr == f.addr
  {
    hide Command;
  }
}
