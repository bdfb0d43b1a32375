/** What holds over every run of the flash simulator, whatever the pins do. */
module FlashSafety {
  import opened Bits
  import opened Wrappers
  import opened FlashSpec
  import opened FlashBytes

  /** A run: the states between the calls and the pins at each call. */
  ghost predicate Trace(fs: seq<Flash>, pins: seq<Input>) {
    |fs| == |pins| + 1 && (forall i | 0 <= i < |fs| :: Shape(fs[i])) &&
    forall i | 0 <= i < |pins| :: Moves(fs[i], pins[i], fs[i + 1])
  }

  ghost predicate Moves(f: Flash, i: Input, g: Flash) { Shape(f) && Step(f, i) == Some(g) }

  predicate Changes(s: State) { s == PageProgram || s == SectorErase || s == BulkErase }

  // ---- the timer ----

  /** A running write has time left. */
  predicate WipTimed(f: Flash) { f.status.wip ==> f.wc > 0 }

  lemma WipTimedStep(f: Flash, i: Input, g: Flash)
    requires Moves(f, i, g) && WipTimed(f)
    ensures WipTimed(g)
  {
    hide Command, Data, Deselect;
    var t := Timer(f);
    if i.csn {
      DeselectTimed(t);
    } else {
      var s := Shift(t, i.dat);
      CommandTimed(s);
      DataTimed(s);
    }
  }

  lemma DeselectTimed(f: Flash)
    requires Shape(f) && WipTimed(f)
    ensures Deselect(f).Some? ==> WipTimed(Deselect(f).value)
  {}

  lemma CommandTimed(f: Flash)
    requires Shape(f) && WipTimed(f)
    ensures Command(f).Some? ==> WipTimed(Command(f).value)
  {}

  lemma DataTimed(f: Flash)
    requires Shape(f) && WipTimed(f)
    ensures Data(f).Some? ==> WipTimed(Data(f).value)
  {}

  lemma {:induction false} WipTimedAlways(fs: seq<Flash>, pins: seq<Input>, n: nat)
    requires Trace(fs, pins) && n < |fs| && WipTimed(fs[0])
    ensures WipTimed(fs[n])
  {
    if n > 0 {
      WipTimedAlways(fs, pins, n - 1);
      assert Moves(fs[n - 1], pins[n - 1], fs[n - 1 + 1]);
      WipTimedStep(fs[n - 1], pins[n - 1], fs[n]);
    }
  }

  // ---- who may change the memory ----

  lemma CommandKeeps(f: Flash)
    requires Shape(f)
    ensures Command(f).Some? ==>
      var g := Command(f).value;
      g.mem == f.mem && (g.state == f.state || (Changes(g.state) ==> Granted(f.status)))
    ensures f.status.dpd && Command(f).Some? ==>
      var g := Command(f).value;
      if f.ireg % 256 == 0xab then g.state == Release && !g.status.dpd else g.state == f.state && g.status == f.status
  {}

  lemma DataKeeps(f: Flash)
    requires Shape(f)
    ensures Data(f).Some? ==> Data(f).value.mem == f.mem && Data(f).value.state == f.state
    ensures f.state == Idle ==> Data(f).Some? && Data(f).value.status == f.status
  {}

  lemma DeselectKeeps(f: Flash)
    requires Shape(f)
    ensures Deselect(f).Some? ==> !Changes(Deselect(f).value.state)
    ensures Deselect(f).Some? && !Changes(f.state) ==> Deselect(f).value.mem == f.mem
    ensures f.state == Idle ==>
      Deselect(f).Some? && Deselect(f).value.status == f.status && Deselect(f).value.state == Idle
  {}

  /** One call changes memory only on chip select high, out of a program or erase state. */
  lemma ChangeStep(f: Flash, i: Input, g: Flash)
    requires Moves(f, i, g) && g.mem != f.mem
    ensures i.csn && Changes(f.state)
  {
    hide Command, Data, Deselect;
    CommandKeeps(Shift(Timer(f), i.dat));
    DataKeeps(Shift(Timer(f), i.dat));
    DeselectKeeps(Timer(f));
  }

  /** A bit that was 0 and is now 1 lies in the sector being erased, or the whole chip is. */
  lemma BitRaised(f: Flash, i: Input, g: Flash, a: nat, bit: nat)
    requires Moves(f, i, g) && a < |f.mem| && !Bit(f.mem[a], bit) && Bit(g.mem[a], bit)
    ensures f.state == BulkErase || (f.state == SectorErase && a / 0x1_0000 == f.addr / 0x1_0000)
  {
    hide Command, Data, Deselect, Bit;
    ChangeStep(f, i, g);
    DeselectMemory(Timer(f), a, bit);
  }

  lemma DeselectMemory(f: Flash, a: nat, bit: nat)
    requires Shape(f) && Deselect(f).Some? && a < |f.mem|
    ensures |Deselect(f).value.mem| == |f.mem|
    ensures !Bit(f.mem[a], bit) && Bit(Deselect(f).value.mem[a], bit) ==>
      f.state == BulkErase || (f.state == SectorErase && a / 0x1_0000 == f.addr / 0x1_0000)
  {
    hide Bit, BitAnd;
    match f.state
    case PageProgram => ProgramClears(f.mem, f.addr / 256 * 256, f.pmem, a, bit);
    case SectorErase => DivModUnique(a, 0x1_0000, a / 0x1_0000, a % 0x1_0000);
    case _ =>
  }

  lemma ProgramClears(mem: seq<nat>, page: nat, pmem: seq<nat>, a: nat, bit: nat)
    requires page + 256 <= |mem| && |pmem| == 256 && a < |mem|
    ensures Bit(Programmed(mem, page, pmem)[a], bit) ==> Bit(mem[a], bit)
  {
    hide Bit, BitAnd;
    if page <= a < page + 256 { BitOfAnd(mem[a], pmem[a - page], bit); }
  }

  /** The state comes from a command taken with the write enable up, no write running and no deep
      power down. */
  ghost predicate Enters(f: Flash, i: Input, g: Flash) {
    !i.csn && f.count == 7 && Granted(Timer(f).status) && Changes(g.state)
  }

  lemma EnterStep(f: Flash, i: Input, g: Flash)
    requires Moves(f, i, g) && Changes(g.state)
    ensures Enters(f, i, g) || (g.state == f.state && !i.csn)
  {
    hide Command, Data, Deselect;
    CommandKeeps(Shift(Timer(f), i.dat));
    DataKeeps(Shift(Timer(f), i.dat));
    DeselectKeeps(Timer(f));
  }

  /** Memory changes at call n only if an earlier call k granted the command, and the chip has been
      selected and in that state ever since. */
  lemma {:induction false} ChangesGranted(fs: seq<Flash>, pins: seq<Input>, n: nat)
    requires Trace(fs, pins) && n < |pins| && !Changes(fs[0].state) && fs[n + 1].mem != fs[n].mem
    ensures pins[n].csn
    ensures exists k: nat :: GrantedAt(fs, pins, n, k)
  {
    assert Moves(fs[n], pins[n], fs[n + 1]);
    ChangeStep(fs[n], pins[n], fs[n + 1]);
    StateGranted(fs, pins, n);
  }

  ghost predicate GrantedAt(fs: seq<Flash>, pins: seq<Input>, n: nat, k: nat) {
    k < n < |fs| && |fs| == |pins| + 1 && Enters(fs[k], pins[k], fs[k + 1]) &&
    forall j | k < j <= n :: fs[j].state == fs[n].state && (j < n ==> !pins[j].csn)
  }

  lemma {:induction false} StateGranted(fs: seq<Flash>, pins: seq<Input>, n: nat)
    requires Trace(fs, pins) && n < |fs| && !Changes(fs[0].state) && Changes(fs[n].state)
    ensures exists k: nat :: GrantedAt(fs, pins, n, k)
  {
    hide Enters, Moves;
    assert Moves(fs[n - 1], pins[n - 1], fs[n - 1 + 1]);
    EnterStep(fs[n - 1], pins[n - 1], fs[n]);
    if Enters(fs[n - 1], pins[n - 1], fs[n]) {
      assert GrantedAt(fs, pins, n, n - 1);
    } else {
      StateGranted(fs, pins, n - 1);
      var k: nat :| GrantedAt(fs, pins, n - 1, k);
      GrantedLater(fs, pins, n, k);
    }
  }

  lemma GrantedLater(fs: seq<Flash>, pins: seq<Input>, n: nat, k: nat)
    requires 0 < n < |fs| && GrantedAt(fs, pins, n - 1, k) && fs[n].state == fs[n - 1].state && !pins[n - 1].csn
    ensures GrantedAt(fs, pins, n, k)
  {
    hide Enters;
  }

  // ---- deep power down ----

  /** This call takes command cmd: the eighth falling edge since the chip was selected. */
  predicate Takes(f: Flash, i: Input, cmd: nat) {
    !i.csn && f.lastSck && !i.sck && f.count == 7 && Shift(f, i.dat).ireg % 256 == cmd
  }

  /** Deep power down lasts until the release command is taken or the write timer, which may be
      running from an earlier release, runs out; running out clears the bit, unless the power-down
      command comes at that very call. Memory stays as it is throughout. */
  lemma DeepPowerDownHolds(f: Flash, i: Input, g: Flash)
    requires Moves(f, i, g) && f.status.dpd && f.state == Idle
    ensures g.mem == f.mem
    ensures g.status.dpd <==> if f.wc == 1 then Takes(f, i, 0xb9) else !Takes(f, i, 0xab)
    ensures f.wc != 1 ==> g.state == if Takes(f, i, 0xab) then Release else Idle
  {
    hide Process, Deselect;
    EdgeSleeps(Shift(Timer(f), i.dat));
    DeselectKeeps(Timer(f));
  }

  /** An edge of an idle chip: only the two commands move the deep-power-down bit. */
  lemma EdgeSleeps(f: Flash)
    requires Shape(f) && f.state == Idle
    ensures Process(f).Some? ==>
      var g, cmd := Process(f).value, f.ireg % 256;
      g.mem == f.mem &&
      (f.status.dpd ==> (g.status.dpd <==> !(f.count == 8 && cmd == 0xab)) &&
                        g.state == if f.count == 8 && cmd == 0xab then Release else Idle) &&
      (!f.status.dpd && !f.status.wip ==> (g.status.dpd <==> f.count == 8 && cmd == 0xb9))
  {
    hide Command, Data;
    CommandKeeps(f);
    DataKeeps(f);
    if !f.status.dpd && !f.status.wip { CommandSleeps(f); }
  }

  /** Awake and with no write running, a command puts the chip to sleep only if it is 0xb9. */
  lemma CommandSleeps(f: Flash)
    requires Shape(f) && !f.status.dpd && !f.status.wip
    ensures Command(f).Some? ==> (Command(f).value.status.dpd <==> f.ireg % 256 == 0xb9)
  {}

  /** n calls with chip select high. */
  function HighFor(f: Flash, n: nat): (r: Option<Flash>)
    requires Shape(f)
    ensures r.Some? ==> Shape(r.value)
    decreases n
  {
    if n == 0 then Some(f)
    else match Step(f, Input(true, true, false))
      case None => None
      case Some(g) => HighFor(g, n - 1)
  }

  lemma {:induction false} TimerWakes(f: Flash)
    requires Shape(f) && f.state == Idle && f.wc > 0 && f.status.dpd
    ensures var r := HighFor(f, f.wc);
      r.Some? && r.value.state == Idle && !r.value.status.dpd && r.value.mem == f.mem
    decreases f.wc
  {
    var g := Step(f, Input(true, true, false)).value;
    if f.wc > 1 { TimerWakes(g); }
  }

  /** So the chip can wake up without a command: a release of a chip that is awake starts the timer,
      power down follows while it runs, and when it has run out the chip is awake again. */
  lemma WakesUnasked(f: Flash)
    requires Shape(f) && f.state == Idle && f.lastSck && f.count == 0 && f.ireg == 0 && f.wc == 0
    requires !f.status.wip && !f.status.dpd
    ensures var released := ByteStep(f, 0xab);
      released.Some? && HighFor(released.value, 1).Some? &&
      var asleep := ByteStep(HighFor(released.value, 1).value, 0xb9);
      asleep.Some? && asleep.value.status.dpd && asleep.value.state == Idle &&
      var later := HighFor(asleep.value, asleep.value.wc);
      later.Some? && later.value.state == Idle && !later.value.status.dpd
  {
    hide Data, Timer;
    ReleaseStarts(f);
    var g := HighFor(ByteStep(f, 0xab).value, 1).value;
    SleepWhileTimed(g);
    TimerWakes(ByteStep(g, 0xb9).value);
  }

  lemma ReleaseStarts(f: Flash)
    requires Shape(f) && f.state == Idle && f.lastSck && f.count == 0 && f.ireg == 0 && f.wc == 0
    requires !f.status.wip && !f.status.dpd
    ensures ByteStep(f, 0xab).Some? && HighFor(ByteStep(f, 0xab).value, 1).Some?
    ensures var g := HighFor(ByteStep(f, 0xab).value, 1).value;
      Shape(g) && g.state == Idle && g.lastSck && g.count == 0 && g.ireg == 0 && g.wc == 3_000_000_000 &&
      !g.status.wip && !g.status.dpd
  {
    hide Data, ByteStep;
    QuietCommand(f, 0xab);
    var a := ByteStep(f, 0xab).value;
    assert a.state == Release && a.wc == 0;
    assert HighFor(Step(a, Input(true, true, false)).value, 0) == Some(Step(a, Input(true, true, false)).value);
  }

  lemma SleepWhileTimed(f: Flash)
    requires Shape(f) && f.state == Idle && f.lastSck && f.count == 0 && f.ireg == 0 && f.wc == 3_000_000_000
    requires !f.status.wip && !f.status.dpd
    ensures ByteStep(f, 0xb9).Some?
    ensures var g := ByteStep(f, 0xb9).value; Shape(g) && g.state == Idle && g.status.dpd && g.wc > 0
  {
    hide Data;
    assert Received(f, 0xb9).ireg == 0xb9 && Received(f, 0xb9).count == 8;
  }
}
