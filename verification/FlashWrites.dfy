/** The frames that change the flash: write enable, page program, sector erase, and polling the
    status register until the write is over. */
module FlashWrites {
  import opened Bits
  import opened Wrappers
  import opened FlashSpec
  import opened FlashBytes
  import opened FlashFrames

  const SIZE := 0x100_0000

  /** Chip select high, nothing received; a write is running exactly while the timer is. */
  predicate Resting(f: Flash) {
    Shape(f) && |f.mem| == SIZE && f.lastSck && f.count == 0 && f.ireg == 0 && (f.state == Idle || f.state == Rdsr) &&
    Timed(f)
  }

  predicate Timed(f: Flash) {
    (f.status.wip <==> f.wc > 0) && !f.status.dpd && f.status.err % 2 == 0 && f.status.prot % 2 == 0
  }

  predicate Ready(f: Flash) { Resting(f) && !f.status.wip }

  /** Chip select high for one call; the clock and data pins do not matter then. */
  function Raise(f: Flash): Option<Flash>
    requires Shape(f)
  {
    Step(f, Input(true, true, false))
  }

  lemma RaiseResting(f: Flash)
    requires Resting(f)
    ensures Raise(f).Some? && Resting(Raise(f).value) && Raise(f).value.mem == f.mem
    ensures Raise(f).value.wc == (if f.wc == 0 then 0 else f.wc - 1)
    ensures f.wc == 0 ==> Raise(f).value.status == f.status
  {}

  /** A chip fresh from its constructor is ready after one call with chip select high. */
  lemma PowerUp(f: Flash)
    requires Shape(f) && |f.mem| == SIZE && f.state == Idle && f.wc == 0
    requires f.status == Status(false, false, false, 0, 0x1c)
    ensures Raise(f).Some? && Ready(Raise(f).value) && Raise(f).value.mem == f.mem
  {}

  // ---- write enable and write disable ----

  lemma EnableByte(f: Flash, on: bool)
    requires Ready(f)
    ensures var g := ByteStep(f, if on then 0x06 else 0x04);
      g.Some? && Answered(g.value, Idle) && g.value.status == f.status.(wel := on) && g.value.mem == f.mem
  {
    hide Data, ByteStep;
    QuietCommand(f, if on then 0x06 else 0x04);
  }

  /** A command is in, and raising chip select will do no more than end it. */
  ghost predicate Answered(f: Flash, s: State) {
    Shape(f) && |f.mem| == SIZE && f.state == s && (s == Idle || s == Rdsr) && Timed(f)
  }

  lemma RaiseAnswered(f: Flash, s: State)
    requires Answered(f, s)
    ensures Raise(f).Some? && Resting(Raise(f).value) && Raise(f).value.mem == f.mem
    ensures f.wc == 0 ==> Raise(f).value.status == f.status && Raise(f).value.wc == 0
  {
    hide Command, Data;
  }

  lemma Enable(f: Flash, on: bool)
    requires Ready(f)
    ensures var g := ByteStep(f, if on then 0x06 else 0x04);
      g.Some? && Raise(g.value).Some? &&
      var h := Raise(g.value).value;
      Ready(h) && h.status.wel == on && h.mem == f.mem
  {
    hide ByteStep, Raise, Step;
    EnableByte(f, on);
    RaiseAnswered(ByteStep(f, if on then 0x06 else 0x04).value, Idle);
  }

  // ---- page program ----

  /** The cells from a on, each with the bits of its data byte that are 0 cleared. */
  function Burnt(mem: seq<nat>, a: nat, data: seq<nat>): (m: seq<nat>)
    requires a + |data| <= |mem|
    ensures |m| == |mem|
  {
    seq(|mem|, i requires 0 <= i < |mem| => if a <= i < a + |data| then BitAnd(mem[i], data[i - a]) else mem[i])
  }

  function PageBuffer(a: nat, data: seq<nat>): (p: seq<nat>)
    ensures |p| == 256
  {
    seq(256, j requires 0 <= j < 256 => if a % 256 <= j < a % 256 + |data| then data[j - a % 256] else 255)
  }

  /** Past the command byte of a granted command. */
  ghost predicate Within(f0: Flash, f: Flash, s: State, n: nat, ireg: nat) {
    Shape(f) && f.state == s && f.lastSck && f.count == 8 * n && f.ireg == ireg && f.mem == f0.mem &&
    f.wc == 0 && f.status == f0.status
  }

  lemma GrantedCommand(f: Flash, erase: bool)
    requires Ready(f) && f.status.wel
    ensures var cmd, s := if erase then 0xd8 else 0x02, if erase then SectorErase else PageProgram;
      ByteStep(f, cmd).Some? && Within(f, ByteStep(f, cmd).value, s, 1, cmd)
  {
    hide Data, ByteStep;
    QuietCommand(f, if erase then 0xd8 else 0x02);
  }

  lemma AddressByte(f0: Flash, f: Flash, s: State, n: nat, ireg: nat, b: nat)
    requires Within(f0, f, s, n, ireg) && 1 <= n <= 2 && (s == PageProgram || s == SectorErase)
    requires 256 * ireg + b < 0x1_0000_0000
    ensures ByteStep(f, b).Some? && Within(f0, ByteStep(f, b).value, s, n + 1, 256 * ireg + b)
  {
    hide Command, ByteStep;
    QuietData(f, b);
  }

  /** Command and address are in, and `data` is in the page buffer. */
  ghost predicate Loading(f0: Flash, f: Flash, a: nat, data: seq<nat>) {
    Shape(f) && f.state == PageProgram && f.lastSck && f.count == 32 + 8 * |data| && f.mem == f0.mem && f.wc == 0 &&
    f.status == f0.status && f.pmem == PageBuffer(a, data) && f.addr == a / 256 * 256 + (a + |data|) % 256
  }

  lemma LoadStart(f0: Flash, f: Flash, ireg: nat, b: nat, a: nat)
    requires Within(f0, f, PageProgram, 3, ireg) && |f.mem| == SIZE && 256 * ireg + b == 0x100_0000 * 0x02 + a && a < SIZE
    ensures ByteStep(f, b).Some? && Loading(f0, ByteStep(f, b).value, a, [])
  {
    hide Command, ByteStep;
    QuietData(f, b);
    assert (0x100_0000 * 0x02 + a) % 0x100_0000 == a;
    assert PageBuffer(a, []) == seq(256, _ => 255);
  }

  lemma LoadByte(f0: Flash, f: Flash, a: nat, data: seq<nat>, b: nat)
    requires Loading(f0, f, a, data) && a % 256 + |data| < 256 && b < 256
    ensures ByteStep(f, b).Some? && Loading(f0, ByteStep(f, b).value, a, data + [b])
  {
    hide Command, ByteStep, BitAnd, BitOr, Shr, PageBuffer;
    QuietData(f, b);
    assert (256 * f.ireg + b) % 0x1_0000_0000 % 256 == b by { LowByte(f.ireg, b); }
    PageOffset(a, |data|);
    BufferNext(a, data, b);
  }

  lemma LowByte(x: nat, b: nat)
    requires b < 256
    ensures (256 * x + b) % 0x1_0000_0000 % 256 == b
  {
    var y, k := 256 * x + b, (256 * x + b) / 0x1_0000_0000;
    DivModUnique(y % 0x1_0000_0000, 256, x - 0x100_0000 * k, b);
  }

  lemma BufferNext(a: nat, data: seq<nat>, b: nat)
    requires a % 256 + |data| < 256
    ensures PageBuffer(a, data)[a % 256 + |data| := b] == PageBuffer(a, data + [b])
  {}

  lemma PageOffset(a: nat, n: nat)
    requires a % 256 + n < 256
    ensures var addr := a / 256 * 256 + (a + n) % 256;
      addr % 256 == a % 256 + n && addr / 256 * 256 + (addr + 1) % 256 == a / 256 * 256 + (a + n + 1) % 256
  {
    var q, k := a / 256, a % 256 + n;
    DivModUnique(a + n, 256, q, k);
    DivModUnique(256 * q + k, 256, q, k);
    NextPlace(a + n, q, k);
    NextPlace(256 * q + k, q, k);
  }

  lemma NextPlace(x: nat, q: nat, k: nat)
    requires x == 256 * q + k && k < 256
    ensures (x + 1) % 256 == if k == 255 then 0 else k + 1
  {
    if k == 255 { DivModUnique(x + 1, 256, q + 1, 0); } else { DivModUnique(x + 1, 256, q, k + 1); }
  }

  /** Raising chip select burns the page: programming only clears bits. */
  lemma Burn(f0: Flash, f: Flash, a: nat, data: seq<nat>)
    requires Loading(f0, f, a, data) && Ready(f0) && a < SIZE && a % 256 + |data| <= 256 && AllBytes(f0.mem)
    ensures Raise(f).Some?
    ensures var g := Raise(f).value;
      Resting(g) && g.status.wip && !g.status.wel && a + |data| <= SIZE && g.mem == Burnt(f0.mem, a, data)
  {
    hide Command, Data, Programmed, Burnt, PageBuffer, Erased, AllBytes, BitAnd;
    BurnPage(f.mem, a, data);
  }

  /** What is not written is padded with ones, which leave the cells as they are. */
  lemma BurnPage(mem: seq<nat>, a: nat, data: seq<nat>)
    requires |mem| == SIZE && a < SIZE && a % 256 + |data| <= 256 && AllBytes(mem)
    ensures a / 256 * 256 + 256 <= SIZE && a + |data| <= SIZE
    ensures Programmed(mem, a / 256 * 256, PageBuffer(a, data)) == Burnt(mem, a, data)
  {
    hide BitAnd;
    var m, page := Programmed(mem, a / 256 * 256, PageBuffer(a, data)), a / 256 * 256;
    forall i | 0 <= i < |mem| ensures m[i] == Burnt(mem, a, data)[i] {
      AndAll(mem[i]);
    }
  }

  lemma AndAll(x: nat)
    requires x < 256
    ensures BitAnd(x, 255) == x
  {
    hide BitAnd, Shl;
    Shl8(1);
    MaskIsMod(x, 8);
  }

  // ---- sector erase ----

  /** Command and address are in. */
  ghost predicate Aimed(f0: Flash, f: Flash, a: nat) {
    Shape(f) && f.state == SectorErase && f.lastSck && f.mem == f0.mem && f.wc == 0 && f.status == f0.status &&
    f.addr == a / 0x4000 * 0x4000
  }

  /** The simulator asserts that erased sectors lie in its first 4 megabytes. */
  lemma Aim(f0: Flash, f: Flash, ireg: nat, b: nat, a: nat)
    requires Within(f0, f, SectorErase, 3, ireg) && 256 * ireg + b == 0x100_0000 * 0xd8 + a && a < 0x40_0000
    ensures ByteStep(f, b).Some? && Aimed(f0, ByteStep(f, b).value, a)
  {
    hide Command, ByteStep;
    QuietData(f, b);
    assert (0x100_0000 * 0xd8 + a) % 0x100_0000 == a;
  }

  /** An erase beyond that stops at the last byte of its frame: the simulator's assertion fails. */
  lemma AimFails(f0: Flash, f: Flash, ireg: nat, b: nat, a: nat)
    requires Within(f0, f, SectorErase, 3, ireg) && 256 * ireg + b == 0x100_0000 * 0xd8 + a && 0x40_0000 <= a < SIZE
    ensures ByteStep(f, b) == None
  {
    hide Command, ByteStep;
    QuietData(f, b);
    assert (0x100_0000 * 0xd8 + a) % 0x100_0000 == a;
  }

  /** The frame of a sector erase goes through exactly for the first 4 megabytes. */
  lemma EraseFrameIff(f: Flash, a: nat)
    requires Ready(f) && f.status.wel && a < SIZE
    ensures Bytes(f, [0xd8, a / 0x1_0000, a / 0x100 % 0x100, a % 0x100]).Some? <==> a < 0x40_0000
  {
    hide ByteStep, Bytes;
    var hi, mid, lo := a / 0x1_0000, a / 0x100 % 0x100, a % 0x100;
    Address(0xd8, a);
    GrantedCommand(f, true);
    var g1 := ByteStep(f, 0xd8).value;
    AddressByte(f, g1, SectorErase, 1, 0xd8, hi);
    var g2 := ByteStep(g1, hi).value;
    AddressByte(f, g2, SectorErase, 2, 256 * 0xd8 + hi, mid);
    var g3 := ByteStep(g2, mid).value;
    Frame4(f, 0xd8, hi, mid, lo, g1, g2, g3);
    var ireg := 256 * (256 * 0xd8 + hi) + mid;
    if a < 0x40_0000 { Aim(f, g3, ireg, lo, a); } else { AimFails(f, g3, ireg, lo, a); }
  }

  lemma Erase(f0: Flash, f: Flash, a: nat)
    requires Aimed(f0, f, a) && Ready(f0) && a < 0x40_0000
    ensures Raise(f).Some?
    ensures var g := Raise(f).value;
      Resting(g) && g.status.wip && !g.status.wel &&
      g.mem == Erased(f0.mem, a / 0x1_0000 * 0x1_0000, 0x1_0000)
  {
    hide Command, Data;
    assert a / 0x4000 * 0x4000 / 0x1_0000 == a / 0x1_0000;
  }

  // ---- polling the status register ----

  /** The status byte in the output register is even only if no write runs. */
  ghost predicate Polling(f: Flash, mem: seq<nat>) {
    Answered(f, Rdsr) && f.lastSck && f.count % 8 == 0 && f.count >= 8 && f.mem == mem &&
    (f.status.wip ==> f.oreg % 2 == 1)
  }

  lemma PollStart(f: Flash)
    requires Resting(f)
    ensures ByteStep(f, 0x05).Some? && Polling(ByteStep(f, 0x05).value, f.mem)
  {
    hide Data, Command, StatusByte;
    PollCommand(Received(f, 0x05));
  }

  lemma PollCommand(f: Flash)
    requires Shape(f) && f.ireg % 256 == 0x05 && !f.status.dpd && f.status.err % 2 == 0 && f.status.prot % 2 == 0
    ensures Command(f).Some?
    ensures var o := Command(f).value.oreg;
      Command(f).value == f.(state := Rdsr, oreg := o) && o < 512 && (o % 2 == 1 <==> f.status.wip)
  {
    hide StatusByte;
    StatusParity(f.status);
    LowReplaced(f.oreg, 0xa5);
    LowReplaced(f.oreg / 256 * 256 + 0xa5 % 256, StatusByte(f.status));
  }

  /** Each poll sees the status of the byte before, and the write timer runs on. */
  lemma Poll(f: Flash, mem: seq<nat>)
    requires Polling(f, mem)
    ensures ByteStep(f, 0x00).Some? && Polling(ByteStep(f, 0x00).value, mem)
    ensures var g := ByteStep(f, 0x00).value;
      Out(g) == (f.oreg % 2 == 1) && g.wc + g.oreg % 2 <= f.wc + f.oreg % 2 &&
      (if f.oreg % 2 == 1 then g.wc + g.oreg % 2 < f.wc + f.oreg % 2 else !g.status.wip)
  {
    hide Command, Data, StatusByte;
    var r := Received(f, 0);
    PollData(r);
  }

  lemma PollData(f: Flash)
    requires Shape(f) && f.state == Rdsr && f.status.err % 2 == 0 && f.status.prot % 2 == 0
    ensures Data(f).Some?
    ensures var o := Data(f).value.oreg;
      Data(f).value == f.(oreg := o) && o / 256 == f.oreg / 256 && o < 512 && (o % 2 == 1 <==> f.status.wip)
  {
    hide StatusByte;
    StatusParity(f.status);
    LowReplaced(f.oreg, 0);
    LowReplaced(f.oreg / 256 * 256 + 0 % 256, StatusByte(f.status));
  }

  lemma StatusParity(s: Status)
    requires s.err % 2 == 0 && s.prot % 2 == 0
    ensures StatusByte(s) % 2 == 1 <==> s.wip
  {}

  lemma LowReplaced(o: nat, v: nat)
    ensures (o / 256 * 256 + v % 256) / 256 == o / 256 && (o / 256 * 256 + v % 256) % 2 == v % 2
    ensures o < 512 ==> o / 256 * 256 + v % 256 < 512
  {
    LowPart(o / 256, v % 256);
    assert v == 256 * (v / 256) + v % 256;
  }

  lemma LowPart(q: nat, w: nat)
    requires w < 256
    ensures (q * 256 + w) / 256 == q && (q * 256 + w) % 2 == w % 2
  {}

  lemma PollEnd(f: Flash, mem: seq<nat>)
    requires Polling(f, mem)
    ensures Raise(f).Some? && Resting(Raise(f).value) && Raise(f).value.mem == mem
    ensures !f.status.wip ==> Ready(Raise(f).value) && Raise(f).value.status == f.status
  {
    hide Raise;
    RaiseAnswered(f, Rdsr);
  }
}
