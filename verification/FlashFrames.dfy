/** Whole command frames of the flash: reading, programming a page, erasing a sector, and polling
    the status register. */
module FlashFrames {
  import opened Bits
  import opened Wrappers
  import opened FlashSpec
  import opened FlashBytes

  /** Bytes one after the other with the chip selected. */
  function Bytes(f: Flash, bs: seq<nat>): (r: Option<Flash>)
    requires Shape(f)
    ensures r.Some? ==> Shape(r.value) && |r.value.mem| == |f.mem|
  {
    if bs == [] then Some(f)
    else match Bytes(f, bs[..|bs| - 1])
      case None => None
      case Some(g) => ByteStep(g, bs[|bs| - 1])
  }

  lemma BytesNext(f: Flash, bs: seq<nat>, b: nat)
    requires Shape(f) && Bytes(f, bs).Some?
    ensures Bytes(f, bs + [b]) == ByteStep(Bytes(f, bs).value, b)
  {
    assert (bs + [b])[..|bs|] == bs;
  }

  lemma Frame4(f: Flash, b0: nat, b1: nat, b2: nat, b3: nat, g1: Flash, g2: Flash, g3: Flash)
    requires Shape(f) && Shape(g1) && Shape(g2) && Shape(g3)
    requires ByteStep(f, b0) == Some(g1) && ByteStep(g1, b1) == Some(g2) && ByteStep(g2, b2) == Some(g3)
    ensures Bytes(f, [b0, b1, b2, b3]) == ByteStep(g3, b3)
  {
    hide ByteStep;
    var none: seq<nat> := [];
    BytesNext(f, none, b0);
    assert none + [b0] == [b0];
    BytesNext(f, [b0], b1);
    assert [b0] + [b1] == [b0, b1];
    BytesNext(f, [b0, b1], b2);
    assert [b0, b1] + [b2] == [b0, b1, b2];
    BytesNext(f, [b0, b1, b2], b3);
    assert [b0, b1, b2] + [b3] == [b0, b1, b2, b3];
  }

  predicate AllBytes(s: seq<nat>) { forall i | 0 <= i < |s| :: s[i] < 256 }

  // ---- bytes at the pins ----

  lemma {:induction false} RunConcat(f: Flash, p: seq<Input>, q: seq<Input>)
    requires Shape(f) && Run(f, p).Some?
    ensures var g := Run(f, p).value;
      Shape(g) && Run(f, p + q) == Run(g, q) && Sampled(f, p + q) == Sampled(f, p) + Sampled(g, q)
    decreases |p|
  {
    hide Step;
    if p == [] {
      assert p + q == q;
    } else {
      RunConcat(Step(f, p[0]).value, p[1..], q);
      assert (p + q)[1..] == p[1..] + q;
    }
  }

  function WavesOf(bs: seq<nat>): seq<Input> {
    if bs == [] then [] else WavesOf(bs[..|bs| - 1]) + Waves(bs[|bs| - 1], 0)
  }

  lemma ByteCount(f: Flash, b: nat)
    requires Shape(f) && ByteStep(f, b).Some?
    ensures var g := ByteStep(f, b).value;
      g.lastSck && g.count == f.count + 8 && g.ireg == (256 * f.ireg + b) % 0x1_0000_0000
  {
    hide Command, Data;
    CommandRegs(Received(f, b));
    DataRegs(Received(f, b));
  }

  lemma CommandRegs(f: Flash)
    requires Shape(f)
    ensures Command(f).Some? ==> var g := Command(f).value; g.count == f.count && g.ireg == f.ireg
  {}

  lemma DataRegs(f: Flash)
    requires Shape(f)
    ensures Data(f).Some? ==> var g := Data(f).value; g.count == f.count && g.ireg == f.ireg
  {}

  /** A run of bytes at the pins is the same run byte by byte. */
  lemma {:induction false} BytesRun(f: Flash, bs: seq<nat>)
    requires Shape(f) && f.lastSck && f.count % 8 == 0 && AllBytes(bs) && Bytes(f, bs).Some?
    ensures Run(f, WavesOf(bs)) == Bytes(f, bs) && |Sampled(f, WavesOf(bs))| == 8 * |bs|
    ensures Bytes(f, bs).value.lastSck && Bytes(f, bs).value.count == f.count + 8 * |bs|
  {
    hide ByteStep, Waves, Step, Bits8, Out;
    if bs == [] {
      assert WavesOf(bs) == [];
    } else {
      hide Run, Sampled;
      var most, last := bs[..|bs| - 1], bs[|bs| - 1];
      BytesRun(f, most);
      var g := Bytes(f, most).value;
      ByteRuns(g, last);
      ByteCount(g, last);
      RunConcat(f, WavesOf(most), Waves(last, 0));
    }
  }

  /** One more byte of a run, and the eight bits sampled with it. */
  lemma SampleMore(f: Flash, g: Flash, head: seq<nat>, last: nat)
    requires Shape(f) && f.lastSck && f.count % 8 == 0 && AllBytes(head) && last < 256 && Bytes(f, head) == Some(g)
    requires ByteStep(g, last).Some? && Out(ByteStep(g, last).value) == (g.oreg % 2 == 1)
    ensures Bytes(f, head + [last]) == ByteStep(g, last)
    ensures Run(f, WavesOf(head + [last])).Some?
    ensures Sampled(f, WavesOf(head + [last])) == Sampled(f, WavesOf(head)) + Bits8(g.oreg % 256)
    ensures |Sampled(f, WavesOf(head))| == 8 * |head| && |Bits8(g.oreg % 256)| == 8
  {
    hide ByteStep, Waves, Run, Sampled, Step, Out;
    BytesNext(f, head, last);
    BytesRun(f, head);
    BytesRun(f, head + [last]);
    ByteRuns(g, last);
    assert (head + [last])[..|head|] == head;
    RunConcat(f, WavesOf(head), Waves(last, 0));
  }

  // ---- reading: command 0x03 ----

  /** The frame 03, address, any bytes. */
  function ReadFrame(a: nat, junk: seq<nat>): seq<nat> {
    [0x03, a / 0x1_0000, a / 0x100 % 0x100, a % 0x100] + junk
  }

  /** Four bytes and n more into a read: byte n of the data is in the output register. */
  ghost predicate Streaming(f0: Flash, f: Flash, a: nat, n: nat) {
    Shape(f) && f.state == SlowRead && f.lastSck && !f.status.wip && f.count == 32 + 8 * n &&
    f.addr == a + n + 1 && f.mem == f0.mem && a + n < |f.mem| && f.oreg % 256 == f.mem[a + n] % 256
  }

  lemma StreamStep(f0: Flash, f: Flash, a: nat, n: nat, b: nat)
    requires Streaming(f0, f, a, n) && a + n + 1 < |f.mem|
    ensures ByteStep(f, b).Some? && Streaming(f0, ByteStep(f, b).value, a, n + 1)
    ensures Out(ByteStep(f, b).value) == (f.oreg % 2 == 1)
  {}

  /** The four bytes of a command with an address, from chip select high. */
  lemma Address(cmd: nat, a: nat)
    requires cmd < 256 && a < 0x100_0000
    ensures var hi, mid, lo := a / 0x1_0000, a / 0x100 % 0x100, a % 0x100;
      hi < 256 && 256 * (256 * (256 * cmd + hi) + mid) + lo == 0x100_0000 * cmd + a
  {}

  /** With the chip's address mask, the address bits of the frame are what is left. */
  lemma Masked(cmd: nat, a: nat, lg: nat, size: nat)
    requires lg <= 24 && size == Shl(1, lg) && a < size
    ensures (0x100_0000 * cmd + a) % size == a
  {
    ShlShl(1, 24 - lg, lg);
    ShlProduct(Shl(1, 24 - lg), lg);
    ShlGrows(1, 0, lg);
    Shl24();
    var part := Shl(1, 24 - lg);
    assert 0x100_0000 * cmd == cmd * part * size by { Regroup(size, part, cmd); }
    AddMultiple(a, cmd * part, size);
    DivModUnique(a, size, 0, a);
  }

  lemma Shl24()
    ensures Shl(1, 24) == 0x100_0000
  {
    ShlShl(1, 12, 12);
    ShlShl(1, 8, 4);
    ShlShl(0x1000, 8, 4);
  }

  /** n bytes into a frame whose command put the flash in state s; the bytes so far are in ireg. */
  ghost predicate InFrame(f0: Flash, f: Flash, s: State, n: nat, ireg: nat) {
    Shape(f) && f.state == s && f.lastSck && f.count == 8 * n && f.ireg == ireg && f.mem == f0.mem &&
    !f.status.wip && !f.status.dpd
  }

  lemma ReadCommand(f: Flash)
    requires Shape(f) && f.lastSck && f.count == 0 && f.ireg == 0 && !f.status.wip && !f.status.dpd
    ensures ByteStep(f, 0x03).Some? && InFrame(f, ByteStep(f, 0x03).value, SlowRead, 1, 0x03)
  {
    hide Data;
  }

  lemma ReadAddress(f0: Flash, f: Flash, n: nat, ireg: nat, b: nat)
    requires InFrame(f0, f, SlowRead, n, ireg) && 1 <= n <= 2 && 256 * ireg + b < 0x1_0000_0000
    ensures ByteStep(f, b).Some? && InFrame(f0, ByteStep(f, b).value, SlowRead, n + 1, 256 * ireg + b)
  {
    hide Command;
  }

  lemma ReadFirst(f0: Flash, f: Flash, ireg: nat, b: nat)
    requires InFrame(f0, f, SlowRead, 3, ireg) && 256 * ireg + b < 0x1_0000_0000
    ensures ByteStep(f, b).Some? && Streaming(f0, ByteStep(f, b).value, (256 * ireg + b) % |f.mem|, 0)
  {
    hide Command;
  }

  lemma ReadStart(f: Flash, a: nat, lg: nat)
    requires Shape(f) && f.lastSck && f.count == 0 && f.ireg == 0 && !f.status.wip && !f.status.dpd
    requires lg <= 24 && |f.mem| == Shl(1, lg) && a < |f.mem|
    ensures Bytes(f, ReadFrame(a, [])).Some? && Streaming(f, Bytes(f, ReadFrame(a, [])).value, a, 0)
  {
    hide ByteStep;
    var hi, mid, lo := a / 0x1_0000, a / 0x100 % 0x100, a % 0x100;
    Shl24();
    ShlGrows(1, lg, 24);
    Address(0x03, a);
    Masked(0x03, a, lg, |f.mem|);
    ReadCommand(f);
    var g1 := ByteStep(f, 0x03).value;
    ReadAddress(f, g1, 1, 0x03, hi);
    var g2 := ByteStep(g1, hi).value;
    ReadAddress(f, g2, 2, 256 * 0x03 + hi, mid);
    var g3 := ByteStep(g2, mid).value;
    ReadFirst(f, g3, 256 * (256 * 0x03 + hi) + mid, lo);
    Frame4(f, 0x03, hi, mid, lo, g1, g2, g3);
    assert ReadFrame(a, []) == [0x03, hi, mid, lo];
  }

  /** A slow read streams the memory from the address on, most significant bit first, from the
      33rd clock, whatever is sent meanwhile. */
  lemma {:induction false} SlowReadStreams(f: Flash, a: nat, lg: nat, junk: seq<nat>)
    requires Shape(f) && f.lastSck && f.count == 0 && f.ireg == 0 && !f.status.wip && !f.status.dpd
    requires lg <= 24 && |f.mem| == Shl(1, lg) && a + |junk| < |f.mem| && AllBytes(junk)
    ensures AllBytes(ReadFrame(a, junk)) && Bytes(f, ReadFrame(a, junk)).Some?
    ensures Streaming(f, Bytes(f, ReadFrame(a, junk)).value, a, |junk|)
    ensures Run(f, WavesOf(ReadFrame(a, junk))).Some?
    ensures var out := Sampled(f, WavesOf(ReadFrame(a, junk)));
      |out| == 32 + 8 * |junk| && out[32..] == StreamOf(f.mem, a, |junk|)
  {
    hide ByteStep, Waves, Run, Sampled, Step, Bits8, Out, Shl, Shr, Bytes, WavesOf;
    Shl24();
    ShlGrows(1, lg, 24);
    Address(0x03, a);
    if junk == [] {
      ReadStart(f, a, lg);
      BytesRun(f, ReadFrame(a, junk));
    } else {
      var most, last := junk[..|junk| - 1], junk[|junk| - 1];
      SlowReadStreams(f, a, lg, most);
      assert ReadFrame(a, junk) == ReadFrame(a, most) + [last];
      StreamMore(f, Bytes(f, ReadFrame(a, most)).value, ReadFrame(a, most), last, a, |most|);
    }
  }

  lemma StreamMore(f: Flash, g: Flash, head: seq<nat>, last: nat, a: nat, n: nat)
    requires Shape(f) && f.lastSck && f.count % 8 == 0 && AllBytes(head) && last < 256 && Bytes(f, head) == Some(g)
    requires Streaming(f, g, a, n) && a + n + 1 < |g.mem|
    ensures Bytes(f, head + [last]).Some? && Streaming(f, Bytes(f, head + [last]).value, a, n + 1)
    ensures Run(f, WavesOf(head + [last])).Some?
    ensures Sampled(f, WavesOf(head + [last])) == Sampled(f, WavesOf(head)) + Bits8(f.mem[a + n] % 256)
    ensures |Sampled(f, WavesOf(head))| == 8 * |head| && |Bits8(f.mem[a + n] % 256)| == 8
  {
    hide ByteStep, Waves, Run, Sampled, Step, Out;
    StreamStep(f, g, a, n, last);
    SampleMore(f, g, head, last);
  }

  /** The bits of the n bytes of memory from address a on. */
  function StreamOf(mem: seq<nat>, a: nat, n: nat): seq<bool>
    requires a + n <= |mem|
  {
    if n == 0 then [] else StreamOf(mem, a, n - 1) + Bits8(mem[a + n - 1] % 256)
  }

  // ---- reading with a dummy byte: command 0x0b ----

  /** The frame 0b, address, a dummy byte, any bytes. */
  function FastFrame(a: nat, dummy: nat, junk: seq<nat>): seq<nat> {
    [0x0b, a / 0x1_0000, a / 0x100 % 0x100, a % 0x100] + [dummy] + junk
  }

  ghost predicate FastStreaming(f0: Flash, f: Flash, a: nat, n: nat) {
    Shape(f) && f.state == FastRead && f.lastSck && !f.status.wip && f.count == 40 + 8 * n &&
    f.addr == a + n + 1 && f.mem == f0.mem && a + n < |f.mem| && f.oreg % 256 == f.mem[a + n] % 256
  }

  lemma FastStep(f0: Flash, f: Flash, a: nat, n: nat, b: nat)
    requires FastStreaming(f0, f, a, n) && a + n + 1 < |f.mem|
    ensures ByteStep(f, b).Some? && FastStreaming(f0, ByteStep(f, b).value, a, n + 1)
    ensures Out(ByteStep(f, b).value) == (f.oreg % 2 == 1)
  {}

  lemma FastCommand(f: Flash)
    requires Shape(f) && f.lastSck && f.count == 0 && f.ireg == 0 && !f.status.wip && !f.status.dpd
    ensures ByteStep(f, 0x0b).Some? && InFrame(f, ByteStep(f, 0x0b).value, FastRead, 1, 0x0b)
  {
    hide Data;
  }

  lemma FastAddress(f0: Flash, f: Flash, n: nat, ireg: nat, b: nat)
    requires InFrame(f0, f, FastRead, n, ireg) && 1 <= n <= 2 && 256 * ireg + b < 0x1_0000_0000
    ensures ByteStep(f, b).Some? && InFrame(f0, ByteStep(f, b).value, FastRead, n + 1, 256 * ireg + b)
  {
    hide Command;
  }

  lemma FastAimed(f0: Flash, f: Flash, ireg: nat, b: nat)
    requires InFrame(f0, f, FastRead, 3, ireg) && 256 * ireg + b < 0x1_0000_0000
    ensures ByteStep(f, b).Some?
    ensures var g := ByteStep(f, b).value;
      InFrame(f0, g, FastRead, 4, 256 * ireg + b) && g.addr == (256 * ireg + b) % |f.mem|
  {
    hide Command;
  }

  lemma FastFirst(f0: Flash, f: Flash, ireg: nat, a: nat, b: nat)
    requires InFrame(f0, f, FastRead, 4, ireg) && f.addr == a < |f.mem|
    ensures ByteStep(f, b).Some? && FastStreaming(f0, ByteStep(f, b).value, a, 0)
  {
    hide Command;
  }

  lemma FastStart(f: Flash, a: nat, dummy: nat, lg: nat)
    requires Shape(f) && f.lastSck && f.count == 0 && f.ireg == 0 && !f.status.wip && !f.status.dpd
    requires lg <= 24 && |f.mem| == Shl(1, lg) && a < |f.mem|
    ensures Bytes(f, FastFrame(a, dummy, [])).Some?
    ensures FastStreaming(f, Bytes(f, FastFrame(a, dummy, [])).value, a, 0)
  {
    hide ByteStep;
    var hi, mid, lo := a / 0x1_0000, a / 0x100 % 0x100, a % 0x100;
    Shl24();
    ShlGrows(1, lg, 24);
    Address(0x0b, a);
    Masked(0x0b, a, lg, |f.mem|);
    FastCommand(f);
    var g1 := ByteStep(f, 0x0b).value;
    FastAddress(f, g1, 1, 0x0b, hi);
    var g2 := ByteStep(g1, hi).value;
    FastAddress(f, g2, 2, 256 * 0x0b + hi, mid);
    var g3 := ByteStep(g2, mid).value;
    var ireg := 256 * (256 * 0x0b + hi) + mid;
    FastAimed(f, g3, ireg, lo);
    var g4 := ByteStep(g3, lo).value;
    FastFirst(f, g4, 256 * ireg + lo, a, dummy);
    Frame4(f, 0x0b, hi, mid, lo, g1, g2, g3);
    BytesNext(f, [0x0b, hi, mid, lo], dummy);
    assert FastFrame(a, dummy, []) == [0x0b, hi, mid, lo] + [dummy];
  }

  /** A fast read streams the memory likewise, from the 41st clock. */
  lemma {:induction false} FastReadStreams(f: Flash, a: nat, dummy: nat, lg: nat, junk: seq<nat>)
    requires Shape(f) && f.lastSck && f.count == 0 && f.ireg == 0 && !f.status.wip && !f.status.dpd
    requires lg <= 24 && |f.mem| == Shl(1, lg) && a + |junk| < |f.mem| && AllBytes(junk) && dummy < 256
    ensures AllBytes(FastFrame(a, dummy, junk)) && Bytes(f, FastFrame(a, dummy, junk)).Some?
    ensures FastStreaming(f, Bytes(f, FastFrame(a, dummy, junk)).value, a, |junk|)
    ensures Run(f, WavesOf(FastFrame(a, dummy, junk))).Some?
    ensures var out := Sampled(f, WavesOf(FastFrame(a, dummy, junk)));
      |out| == 40 + 8 * |junk| && out[40..] == StreamOf(f.mem, a, |junk|)
  {
    hide ByteStep, Waves, Run, Sampled, Step, Bits8, Out, Shl, Shr, Bytes, WavesOf;
    Shl24();
    ShlGrows(1, lg, 24);
    Address(0x0b, a);
    if junk == [] {
      FastStart(f, a, dummy, lg);
      BytesRun(f, FastFrame(a, dummy, junk));
    } else {
      var most, last := junk[..|junk| - 1], junk[|junk| - 1];
      FastReadStreams(f, a, dummy, lg, most);
      assert FastFrame(a, dummy, junk) == FastFrame(a, dummy, most) + [last];
      FastMore(f, Bytes(f, FastFrame(a, dummy, most)).value, FastFrame(a, dummy, most), last, a, |most|);
    }
  }

  lemma FastMore(f: Flash, g: Flash, head: seq<nat>, last: nat, a: nat, n: nat)
    requires Shape(f) && f.lastSck && f.count % 8 == 0 && AllBytes(head) && last < 256 && Bytes(f, head) == Some(g)
    requires FastStreaming(f, g, a, n) && a + n + 1 < |g.mem|
    ensures Bytes(f, head + [last]).Some? && FastStreaming(f, Bytes(f, head + [last]).value, a, n + 1)
    ensures Run(f, WavesOf(head + [last])).Some?
    ensures Sampled(f, WavesOf(head + [last])) == Sampled(f, WavesOf(head)) + Bits8(f.mem[a + n] % 256)
    ensures |Sampled(f, WavesOf(head))| == 8 * |head| && |Bits8(f.mem[a + n] % 256)| == 8
  {
    hide ByteStep, Waves, Run, Sampled, Step, Out;
    FastStep(f, g, a, n, last);
    SampleMore(f, g, head, last);
  }
}
