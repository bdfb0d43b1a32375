/** The flash driver of sw/host/flashdrvr.cpp over the simulated chip. Writing a byte to the
    configuration port clocks it into the chip, eight bits with chip select low; writing 0x100 raises
    chip select. */
module FlashDrvr {
  import opened Bits
  import opened Wrappers
  import opened FlashSpec
  import opened FlashBytes
  import opened FlashFrames
  import opened FlashWrites
  import opened FlashGoal
  import opened ByteSwap
  import Sim = FlashSim

  const FLASHBASE := 0x100_0000

  /** One access to the configuration port. */
  function Io(f: Flash, v: nat): Option<Flash>
    requires Shape(f)
  {
    if v == 0x100 then Raise(f) else ByteStep(f, v)
  }

  /** What is left of a write that is being polled. */
  ghost function PollLeft(f: Flash): nat { f.wc + f.oreg % 2 }

  predicate AtByte(f: Flash) { Shape(f) && f.lastSck && f.count % 8 == 0 }

  /** The byte received is what was in the output register, if its last bit stayed there. */
  predicate Heard(f: Flash, g: Flash, rx: nat) { Out(g) == (f.oreg % 2 == 1) ==> rx == f.oreg % 256 }

  class FlashDrvr {
    const sim: Sim.FlashSim
    /** The last byte received, most significant bit first. */
    var rx: nat

    constructor (chip: Sim.FlashSim)
      ensures sim == chip
    {
      sim := chip;
      rx := 0;
    }

    /** One bit: a call with the clock low and one with it high, where the data output is sampled. */
    method Clock(d: bool)
      requires sim.Valid()
      requires var low := Step(sim.View(), Input(false, false, d));
        low.Some? && Step(low.value, Input(false, true, d)).Some?
      modifies this, sim, sim.mem, sim.pmem
      ensures sim.Valid()
      ensures var low := Step(old(sim.View()), Input(false, false, d));
        low.Some? && Step(low.value, Input(false, true, d)) == Some(sim.View())
      ensures rx == 2 * old(rx) % 256 + if Out(sim.View()) then 1 else 0
    {
      hide Step;
      var o := sim.Tick(false, false, d);
      o := sim.Tick(false, true, d);
      rx := 2 * rx % 256 + if o then 1 else 0;
    }

    method WriteByte(b: nat)
      requires sim.Valid() && AtByte(sim.View()) && b < 256 && ByteStep(sim.View(), b).Some?
      modifies this, sim, sim.mem, sim.pmem
      ensures sim.Valid() && Some(sim.View()) == ByteStep(old(sim.View()), b)
      ensures Heard(old(sim.View()), sim.View(), rx)
    {
      hide Step, ByteStep, Shr, Shl, Out, BitOf;
      ghost var f := sim.View();
      MidZero(f, b);
      RxStart(f.oreg);
      rx := 0;
      var i := 0;
      while i < 7
        invariant 0 <= i <= 7 && sim.Valid() && sim.View() == Mid(f, b, i)
        invariant rx == Shr(f.oreg % 256, 8 - i)
      {
        MidStep(f, b, i);
        RxStep(f, b, i);
        Clock(BitOf(b, i));
        i := i + 1;
      }
      LastStep(f, b);
      RxLast(f.oreg);
      Clock(BitOf(b, 7));
    }

    /** `writeio(R_FLASHCFG, v)` */
    method WriteIo(v: nat)
      requires sim.Valid() && (v == 0x100 || (v < 256 && AtByte(sim.View()))) && Io(sim.View(), v).Some?
      modifies this, sim, sim.mem, sim.pmem
      ensures sim.Valid() && Some(sim.View()) == Io(old(sim.View()), v)
      ensures v == 0x100 || Heard(old(sim.View()), sim.View(), rx)
    {
      hide Step, ByteStep;
      if v == 0x100 {
        var o := sim.Tick(true, true, false);
      } else {
        WriteByte(v);
      }
    }

    /** One status byte: it brings the end of the write nearer, or the last one is clear. */
    method PollByte(ghost m: seq<nat>)
      requires sim.Valid() && Polling(sim.View(), m) && AtByte(sim.View())
      modifies this, sim, sim.mem, sim.pmem
      ensures sim.Valid() && Polling(sim.View(), m) && AtByte(sim.View())
      ensures PollLeft(sim.View()) + rx % 2 <= PollLeft(old(sim.View()))
      ensures rx % 2 == 0 ==> !sim.View().status.wip
    {
      hide Step, ByteStep, Raise, Polling;
      ghost var f := sim.View();
      Poll(f, m);
      SameParity(f.oreg);
      WriteIo(0x00);
      PollShape(sim.View(), m);
    }

    method StartPoll()
      requires sim.Valid() && Resting(sim.View())
      modifies this, sim, sim.mem, sim.pmem
      ensures sim.Valid() && Polling(sim.View(), old(sim.View().mem)) && AtByte(sim.View())
    {
      hide Step, ByteStep, Raise, Polling;
      RaiseResting(sim.View());
      WriteIo(0x100);
      PollStart(sim.View());
      WriteIo(0x05);
      PollShape(sim.View(), old(sim.View().mem));
    }

    /** Polls the status register until no write is running; the write timer makes that happen. */
    method FlWait()
      requires sim.Valid() && Resting(sim.View())
      modifies this, sim, sim.mem, sim.pmem
      ensures sim.Valid() && Ready(sim.View()) && sim.View().mem == old(sim.View().mem)
    {
      hide Step, ByteStep, Raise, Polling, Resting, PollLeft, AtByte;
      ghost var m := sim.View().mem;
      StartPoll();
      PollByte(m);
      var sr := rx;
      while sr % 2 == 1
        invariant sim.Valid() && Polling(sim.View(), m) && AtByte(sim.View())
        invariant sr % 2 == 0 ==> !sim.View().status.wip
        decreases PollLeft(sim.View()), sr % 2
      {
        PollByte(m);
        sr := rx;
      }
      PollEnd(sim.View(), m);
      WriteIo(0x100);
    }

    /** Write enable, with chip select raised before and after. */
    method WriteEnable()
      requires sim.Valid() && Ready(sim.View())
      modifies this, sim, sim.mem, sim.pmem
      ensures sim.Valid() && Ready(sim.View()) && sim.View().status.wel && sim.View().mem == old(sim.View().mem)
    {
      hide Step, ByteStep, Raise;
      RaiseResting(sim.View());
      WriteIo(0x100);
      Enable(sim.View(), true);
      WriteIo(0x06);
      WriteIo(0x100);
    }

    /** A command and its 24 address bits. The last byte of an erase from 4 megabytes on would stop
        the simulator, at its assertion on the address. */
    method SendAddressed(erase: bool, flashaddr: nat) returns (stopped: bool)
      requires sim.Valid() && Ready(sim.View()) && sim.View().status.wel && flashaddr < SIZE
      modifies this, sim, sim.mem, sim.pmem
      ensures sim.Valid() && (stopped <==> erase && flashaddr >= 0x40_0000)
      ensures if stopped then Halts(sim.View(), flashaddr % 0x100) && sim.View().mem == old(sim.View().mem)
              else if erase then Aimed(old(sim.View()), sim.View(), flashaddr)
              else Loading(old(sim.View()), sim.View(), flashaddr, [])
    {
      hide Step, ByteStep, Raise, Loading, Aimed, PageBuffer;
      ghost var f := sim.View();
      var cmd := if erase then 0xd8 else 0x02;
      ghost var st := if erase then State.SectorErase else State.PageProgram;
      var hi, mid, lo := flashaddr / 0x1_0000 % 0x100, flashaddr / 0x100 % 0x100, flashaddr % 0x100;
      Address(cmd, flashaddr);
      GrantedCommand(f, erase);
      WriteIo(cmd);
      AddressByte(f, sim.View(), st, 1, cmd, hi);
      WriteIo(hi);
      AddressByte(f, sim.View(), st, 2, 256 * cmd + hi, mid);
      WriteIo(mid);
      stopped := erase && flashaddr >= 0x40_0000;
      if stopped {
        AimFails(f, sim.View(), 256 * (256 * cmd + hi) + mid, lo, flashaddr);
        return;
      }
      if erase {
        Aim(f, sim.View(), 256 * (256 * cmd + hi) + mid, lo, flashaddr);
      } else {
        LoadStart(f, sim.View(), 256 * (256 * cmd + hi) + mid, lo, flashaddr);
      }
      WriteIo(lo);
    }

    /** `readi`: n words from bus address a, through the read-only window on the chip's memory. */
    method ReadI(a: nat, n: nat) returns (words: seq<nat>)
      requires sim.Valid() && !sim.View().status.wip && FLASHBASE <= a && a - FLASHBASE + 4 * n <= sim.mem.Length
      ensures Words(words, sim.View().mem[a - FLASHBASE..a - FLASHBASE + 4 * n])
    {
      ghost var m := sim.View().mem;
      var at := a - FLASHBASE;
      words := [];
      var i := 0;
      while i < n
        invariant 0 <= i <= n && |words| == i
        invariant forall k | 0 <= k < i :: words[k] == WordAt(m, at + 4 * k)
      {
        var j := at + 4 * i;
        words := words + [BuildWord(sim.mem[j], sim.mem[j + 1], sim.mem[j + 2], sim.mem[j + 3])];
        i := i + 1;
      }
    }

    /** The read-back of `erase_sector`, page by page. */
    method VerifyErased(flashaddr: nat) returns (ok: bool)
      requires sim.Valid() && !sim.View().status.wip && AllBytes(sim.View().mem) && flashaddr + 0x1_0000 <= sim.mem.Length
      ensures ok <==> forall k | flashaddr <= k < flashaddr + 0x1_0000 :: sim.View().mem[k] == 255
    {
      ghost var m := sim.View().mem;
      var i := 0;
      while i < 256
        invariant 0 <= i <= 256 && forall k | flashaddr <= k < flashaddr + 256 * i :: m[k] == 255
      {
        var page := ReadI(FLASHBASE + flashaddr + i * 256, 64);
        var j := 0;
        while j < 64
          invariant 0 <= j <= 64 && forall k | flashaddr <= k < flashaddr + 256 * i + 4 * j :: m[k] == 255
        {
          ghost var at := flashaddr + 256 * i + 4 * j;
          assert page[j] == BuildWord(m[at], m[at + 1], m[at + 2], m[at + 3]);
          SameWord(m[at], m[at + 1], m[at + 2], m[at + 3], 255, 255, 255, 255);
          if page[j] != 0xffff_ffff {
            ghost var k := if m[at] != 255 then at else if m[at + 1] != 255 then at + 1
                           else if m[at + 2] != 255 then at + 2 else at + 3;
            assert sim.View().mem[k] != 255 && flashaddr <= k < flashaddr + 0x1_0000;
            return false;
          }
          j := j + 1;
        }
        i := i + 1;
      }
      ok := true;
    }

    /** Erases the sector that holds the address, and reads 64 KB back from the address on. */
    method EraseSector(sector: nat, verify: bool) returns (ok: bool, stopped: bool)
      requires sim.Valid() && Ready(sim.View()) && AllBytes(sim.View().mem)
      requires FLASHBASE <= sector < FLASHBASE + SIZE
      modifies this, sim, sim.mem, sim.pmem
      ensures sim.Valid() && (stopped <==> sector - FLASHBASE >= 0x40_0000)
      ensures stopped ==> Halts(sim.View(), sector % 0x100) && sim.View().mem == old(sim.View().mem)
      ensures !stopped ==>
        var at := sector - FLASHBASE;
        Ready(sim.View()) && sim.View().mem == Erased(old(sim.View().mem), at / 0x1_0000 * 0x1_0000, 0x1_0000) &&
        (ok <==> !verify || forall k | at <= k < at + 0x1_0000 :: sim.View().mem[k] == 255)
    {
      hide Step, ByteStep, Raise, Aimed, Loading, Erased, AllBytes;
      ok := true;
      var flashaddr := sector % 0x100_0000;
      ghost var m := sim.View().mem;
      WriteEnable();
      ghost var f := sim.View();
      stopped := SendAddressed(true, flashaddr);
      if stopped {
        return;
      }
      Erase(f, sim.View(), flashaddr);
      WriteIo(0x100);
      FlWait();
      ErasedBytes(m, flashaddr / 0x1_0000 * 0x1_0000, 0x1_0000);
      if verify {
        ok := VerifyErased(flashaddr);
      }
    }

    /** Sends the page data and waits for the chip to burn it. */
    method SendPage(flashaddr: nat, len: nat, data: seq<nat>)
      requires sim.Valid() && Ready(sim.View()) && AllBytes(sim.View().mem)
      requires len <= |data| && AllBytes(data) && flashaddr < SIZE && flashaddr % 256 + len <= 256
      modifies this, sim, sim.mem, sim.pmem
      ensures sim.Valid() && Ready(sim.View()) && flashaddr + len <= SIZE
      ensures sim.View().mem == Burnt(old(sim.View().mem), flashaddr, data[..len])
    {
      hide Step, ByteStep, Raise, Loading, Aimed, Burnt;
      WriteEnable();
      RaiseResting(sim.View());
      WriteIo(0x100);
      ghost var f := sim.View();
      var stopped := SendAddressed(false, flashaddr);
      LoadShape(f, sim.View(), flashaddr, []);
      assert data[..0] == [];
      var i := 0;
      while i < len
        invariant 0 <= i <= len && sim.Valid() && Loading(f, sim.View(), flashaddr, data[..i]) && AtByte(sim.View())
      {
        LoadByte(f, sim.View(), flashaddr, data[..i], data[i]);
        assert data[..i] + [data[i]] == data[..i + 1];
        WriteIo(data[i] % 0x100);
        LoadShape(f, sim.View(), flashaddr, data[..i + 1]);
        i := i + 1;
      }
      Burn(f, sim.View(), flashaddr, data[..len]);
      WriteIo(0x100);
      FlWait();
    }

    /** The read-back of `page_program`: words are compared, which decides the bytes. */
    method VerifyPage(addr: nat, len: nat, goal: seq<nat>, ghost data: seq<nat>) returns (ok: bool)
      requires sim.Valid() && !sim.View().status.wip && AllBytes(sim.View().mem) && AllBytes(data)
      requires FLASHBASE <= addr && addr - FLASHBASE + len <= sim.mem.Length && len % 4 == 0
      requires |data| == len && Words(goal, data)
      ensures ok <==> sim.View().mem[addr - FLASHBASE..addr - FLASHBASE + len] == data
    {
      var buf := ReadI(addr, len / 4);
      WordsDecide(buf, goal, sim.View().mem[addr - FLASHBASE..addr - FLASHBASE + len], data);
      var i := 0;
      while i < len / 4
        invariant 0 <= i <= len / 4 && buf[..i] == goal[..i]
      {
        if buf[i] != goal[i] {
          return false;
        }
        i := i + 1;
      }
      assert buf[..i] == buf && goal[..i] == goal;
      ok := true;
    }

    /** Programs part of one page, unless it is all ones, and reads it back if asked to. */
    method PageProgram(addr: nat, len: nat, data: seq<nat>, verify: bool) returns (ok: bool)
      requires sim.Valid() && Ready(sim.View()) && AllBytes(sim.View().mem)
      requires 0 < len <= 256 && SamePage(addr, addr + len - 1) && len % 4 == 0
      requires len <= |data| && AllBytes(data) && FLASHBASE <= addr < FLASHBASE + SIZE
      modifies this, sim, sim.mem, sim.pmem
      ensures sim.Valid() && Ready(sim.View()) && addr - FLASHBASE + len <= SIZE
      ensures sim.View().mem == Burnt(old(sim.View().mem), addr - FLASHBASE, data[..len])
      ensures AllBytes(sim.View().mem)
      ensures ok <==> !verify || sim.View().mem[addr - FLASHBASE..addr - FLASHBASE + len] == data[..len]
    {
      hide Step, ByteStep, Raise, Burnt, SamePage;
      WindowPage(addr, len);
      var flashaddr := addr % 0x100_0000;
      var bswapd, empty := Gather(len, data);
      if !empty {
        SendPage(flashaddr, len, data);
      } else {
        BurntOnes(sim.View().mem, flashaddr, data[..len]);
      }
      BurntBytes(old(sim.View().mem), flashaddr, data[..len]);
      ok := true;
      if verify {
        ok := VerifyPage(addr, len, bswapd, data[..len]);
      }
    }

    /** `readi` and `byteswapbuf`: n bytes of flash in the host's memory. */
    method ReadBytes(a: nat, n: nat) returns (buf: seq<nat>)
      requires sim.Valid() && !sim.View().status.wip && AllBytes(sim.View().mem) && n % 4 == 0
      requires FLASHBASE <= a && a - FLASHBASE + n <= sim.mem.Length
      ensures buf == sim.View().mem[a - FLASHBASE..a - FLASHBASE + n]
    {
      ghost var m := sim.View().mem[a - FLASHBASE..a - FLASHBASE + n];
      var words := ReadI(a, n / 4);
      buf := [];
      var i := 0;
      while i < n / 4
        invariant 0 <= i <= n / 4 && buf == m[..4 * i]
      {
        SwapRestores(m[4 * i], m[4 * i + 1], m[4 * i + 2], m[4 * i + 3]);
        var v := Swap(words[i]);
        buf := buf + [HostByte(v, 0), HostByte(v, 1), HostByte(v, 2), HostByte(v, 3)];
        i := i + 1;
      }
      assert m[..n] == m;
    }

    /** Programs the data from `newv` to the end of the sector or of the data, page by page. */
    method Pages(newv: nat, s: nat, addr: nat, len: nat, data: seq<nat>, verify: bool) returns (ok: bool)
      requires sim.Valid() && Ready(sim.View()) && AllBytes(sim.View().mem) && AllBytes(data) && Placed(addr, len, data)
      requires s % 0x1_0000 == 0 && InSector(s, addr, len) && From(s, addr) <= newv <= To(s, addr, len) && newv % 4 == 0
      requires Reachable(sim.View().mem, addr - FLASHBASE, data, newv - FLASHBASE, To(s, addr, len) - FLASHBASE)
      modifies this, sim, sim.mem, sim.pmem
      ensures sim.Valid() && Ready(sim.View()) && AllBytes(sim.View().mem) && ok
      ensures Replaced(old(sim.View().mem), sim.View().mem, addr - FLASHBASE, data, newv - FLASHBASE,
                       To(s, addr, len) - FLASHBASE)
    {
      hide Step, AllBytes, Ready, Replaced, Reachable, Burnt, SamePage, NextPage, Placed, InSector, From;
      SectorFits(s, addr, len, data);
      ghost var m, to, off, from := sim.View().mem, To(s, addr, len), addr - FLASHBASE, newv - FLASHBASE;
      ReplacedNone(m, off, data, from, to - FLASHBASE);
      var p := newv;
      while p < s + 0x1_0000 && p < addr + len
        invariant sim.Valid() && Ready(sim.View()) && AllBytes(sim.View().mem) && newv <= p && p % 4 == 0
        invariant Replaced(m, sim.View().mem, off, data, from, Min(p, to) - FLASHBASE)
        decreases addr + len - p
      {
        PageFits(p, s, addr, len, data);
        var start, n := p, addr + len - p;
        if !SamePage(start + n - 1, start) {
          n := NextPage(start) - start;
        }
        ghost var m1 := sim.View().mem;
        ok := PageProgram(start, n, data[p - addr..], verify);
        PageReplaced(m, m1, sim.View().mem, off, data, from, p - FLASHBASE, n, to - FLASHBASE);
        if !ok {
          assert false;
          return;
        }
        p := NextPage(p);
      }
      ok := true;
    }

    /** A sector that has to be erased first. */
    method Rewrite(s: nat, addr: nat, len: nat, data: seq<nat>, verify: bool) returns (ok: bool, stopped: bool)
      requires sim.Valid() && Ready(sim.View()) && AllBytes(sim.View().mem) && AllBytes(data) && Placed(addr, len, data)
      requires s % 0x1_0000 == 0 && InSector(s, addr, len)
      requires NeedsErase(sim.View().mem, addr - FLASHBASE, data, s - FLASHBASE)
      modifies this, sim, sim.mem, sim.pmem
      ensures sim.Valid() && (stopped <==> s - FLASHBASE >= 0x40_0000)
      ensures stopped ==> Halts(sim.View(), 0) && sim.View().mem == old(sim.View().mem)
      ensures !stopped ==>
        Ready(sim.View()) && AllBytes(sim.View().mem) && ok &&
        SectorDone(old(sim.View().mem), sim.View().mem, addr - FLASHBASE, data, s - FLASHBASE)
    {
      hide Step, NeedsErase, FinalAt, SectorDone, Replaced, Reachable, Erased, AllBytes, Ready, OutOfReach;
      ghost var m, off, at := sim.View().mem, addr - FLASHBASE, s - FLASHBASE;
      ghost var lo, to := From(s, addr) - FLASHBASE, To(s, addr, len) - FLASHBASE;
      ReadyQuiet(sim.View());
      SectorStart(s);
      Fours(s / 0x1_0000);
      ok, stopped := EraseSector(s, verify);
      if stopped {
        return;
      }
      var newv := if s < addr then addr else s;
      ghost var blank := sim.View().mem;
      BlankReachable(m, blank, off, data, at, lo, to);
      if !ok {
        assert false;
        return;
      }
      ok := Pages(newv, s, addr, len, data, verify);
      ErasedSector(m, blank, sim.View().mem, off, data, at, lo, to);
    }

    /** A sector that programming alone brings to its new contents. */
    method Extend(newv: nat, s: nat, addr: nat, len: nat, data: seq<nat>, verify: bool) returns (ok: bool)
      requires sim.Valid() && Ready(sim.View()) && AllBytes(sim.View().mem) && AllBytes(data) && Placed(addr, len, data)
      requires s % 0x1_0000 == 0 && InSector(s, addr, len) && From(s, addr) <= newv <= To(s, addr, len) && newv % 4 == 0
      requires !NeedsErase(sim.View().mem, addr - FLASHBASE, data, s - FLASHBASE)
      requires Found(sim.View().mem, addr - FLASHBASE, data, From(s, addr) - FLASHBASE, newv - FLASHBASE,
                     To(s, addr, len) - FLASHBASE)
      modifies this, sim, sim.mem, sim.pmem
      ensures sim.Valid() && Ready(sim.View()) && AllBytes(sim.View().mem) && ok
      ensures SectorDone(old(sim.View().mem), sim.View().mem, addr - FLASHBASE, data, s - FLASHBASE)
    {
      hide Step, NeedsErase, FinalAt, SectorDone, Replaced, Reachable, AllBytes, Ready, OutOfReach;
      ghost var m := sim.View().mem;
      ok := Pages(newv, s, addr, len, data, verify);
      KeptSector(m, sim.View().mem, addr - FLASHBASE, data, s - FLASHBASE, From(s, addr) - FLASHBASE, newv - FLASHBASE,
                 To(s, addr, len) - FLASHBASE);
    }

    /** The comparison at the head of the sector loop, in terms of the flash's memory. */
    method ScanSector(s: nat, addr: nat, len: nat, data: seq<nat>) returns (newv: nat, needErase: bool, ghost from: nat)
      requires sim.Valid() && Ready(sim.View()) && AllBytes(sim.View().mem) && Placed(addr, len, data)
      requires s % 0x1_0000 == 0 && InSector(s, addr, len)
      ensures needErase <==> NeedsErase(sim.View().mem, addr - FLASHBASE, data, s - FLASHBASE)
      ensures !needErase && newv != 0 ==> newv % 4 == 0 && From(s, addr) <= newv < To(s, addr, len)
      ensures from == (if newv == 0 || needErase then To(s, addr, len) else newv) - FLASHBASE
      ensures !needErase ==>
        Found(sim.View().mem, addr - FLASHBASE, data, From(s, addr) - FLASHBASE, from, To(s, addr, len) - FLASHBASE)
    {
      hide Step, NeedsErase, Found, AllBytes, Ready, OutOfReach;
      ghost var m, off := sim.View().mem, addr - FLASHBASE;
      ReadyQuiet(sim.View());
      Aligned(s, addr, len);
      var base := From(s, addr);
      var ln := To(s, addr, len) - base;
      ghost var at, lo, to := s - FLASHBASE, base - FLASHBASE, base - FLASHBASE + ln;
      var sbuf := ReadBytes(base, ln);
      var dp := data[base - addr..base - addr + ln];
      assert dp == data[lo - off..to - off];
      newv, needErase := Scan(sbuf, dp, base);
      from := if newv == 0 || needErase then to else newv - FLASHBASE;
      ScanMeans(m, off, data, at, lo, to, sbuf, dp, needErase, from);
    }

    /** The body of the sector loop of `write`. */
    method WriteSector(s: nat, addr: nat, len: nat, data: seq<nat>, verify: bool) returns (ok: bool, stopped: bool)
      requires sim.Valid() && Ready(sim.View()) && AllBytes(sim.View().mem) && AllBytes(data) && Placed(addr, len, data)
      requires s % 0x1_0000 == 0 && InSector(s, addr, len)
      modifies this, sim, sim.mem, sim.pmem
      ensures sim.Valid() && (stopped <==> TooHigh(old(sim.View().mem), addr - FLASHBASE, data, s - FLASHBASE))
      ensures stopped ==> Halts(sim.View(), 0) && sim.View().mem == old(sim.View().mem)
      ensures !stopped ==>
        Ready(sim.View()) && AllBytes(sim.View().mem) && ok &&
        SectorDone(old(sim.View().mem), sim.View().mem, addr - FLASHBASE, data, s - FLASHBASE)
    {
      hide Step, NeedsErase, FinalAt, SectorDone, Replaced, Found, AllBytes, Ready, OutOfReach;
      ReadyQuiet(sim.View());
      SectorStart(s);
      ghost var from: nat;
      var newv, needErase;
      newv, needErase, from := ScanSector(s, addr, len, data);
      stopped := false;
      if needErase {
        ok, stopped := Rewrite(s, addr, len, data, verify);
      } else if newv == 0 {
        MatchedSector(sim.View().mem, addr - FLASHBASE, data, s - FLASHBASE, From(s, addr) - FLASHBASE,
                      To(s, addr, len) - FLASHBASE);
        ok := true;
      } else {
        ok := Extend(newv, s, addr, len, data, verify);
      }
    }

    /** The sectors from the first to the last that the data touches. */
    method Sectors(addr: nat, len: nat, data: seq<nat>, verify: bool) returns (ok: bool, stopped: bool, ghost at: nat)
      requires sim.Valid() && Ready(sim.View()) && AllBytes(sim.View().mem) && AllBytes(data) && Placed(addr, len, data)
      modifies this, sim, sim.mem, sim.pmem
      ensures sim.Valid()
      ensures stopped ==>
        TooHigh(old(sim.View().mem), addr - FLASHBASE, data, at) && Halts(sim.View(), 0) &&
        DoneBelow(old(sim.View().mem), sim.View().mem, addr - FLASHBASE, data, at)
      ensures !stopped ==>
        Ready(sim.View()) && ok && at % 0x1_0000 == 0 && addr + len - FLASHBASE <= at &&
        (var off := addr - FLASHBASE;
        DoneBelow(old(sim.View().mem), sim.View().mem, off, data, at) &&
        forall k: nat :: !TooHigh(old(sim.View().mem), off, data, k))
    {
      hide Step, NeedsErase, FinalAt, SectorDone, DoneBelow, AllBytes, Ready, TooHigh;
      ghost var m, off := sim.View().mem, addr - FLASHBASE;
      DoneStart(m, off, data);
      NoneBelow(m, off, data);
      BaseSectors(addr, addr + len);
      ok, stopped := true, false;
      var s := addr / 0x1_0000 * 0x1_0000;
      at := s - FLASHBASE;
      while s < (addr + len + 0xffff) / 0x1_0000 * 0x1_0000
        invariant sim.Valid() && Ready(sim.View()) && AllBytes(sim.View().mem) && ok && !stopped
        invariant s % 0x1_0000 == 0 && addr / 0x1_0000 * 0x1_0000 <= s && at == s - FLASHBASE && at % 0x1_0000 == 0
        invariant DoneBelow(m, sim.View().mem, off, data, at)
        invariant forall k: nat | k < at :: !TooHigh(m, off, data, k)
      {
        ghost var m1 := sim.View().mem;
        SectorInside(s, addr, len);
        DoneSame(m, m1, off, data, at);
        ok, stopped := WriteSector(s, addr, len, data, verify);
        if stopped {
          return;
        }
        DoneNext(m, m1, sim.View().mem, off, data, at);
        NextAligned(m, off, data, at);
        if !ok {
          assert false;
          return;
        }
        s := s + 0x1_0000;
        at := at + 0x1_0000;
      }
      NoneAbove(m, off, data, at);
    }

    /** The whole write: afterwards the data is in the flash; a sector that held a byte which
        programming alone could not change is blank around the data; every other byte is as before.
        It stops at the simulator's assertion exactly if such a sector lies at 4 megabytes or above,
        with the sectors below the first of them done. */
    method Write(addr: nat, len: nat, data: seq<nat>, verify: bool) returns (ok: bool, stopped: bool)
      requires sim.Valid() && Ready(sim.View()) && AllBytes(sim.View().mem) && AllBytes(data) && Placed(addr, len, data)
      modifies this, sim, sim.mem, sim.pmem
      ensures sim.Valid()
      ensures var off := addr - FLASHBASE;
        stopped <==> exists s: nat :: TooHigh(old(sim.View().mem), off, data, s)
      ensures stopped ==>
        var off := addr - FLASHBASE;
        Halts(sim.View(), 0) &&
        exists s: nat :: TooHigh(old(sim.View().mem), off, data, s) &&
          DoneBelow(old(sim.View().mem), sim.View().mem, off, data, s)
      ensures !stopped ==>
        Ready(sim.View()) && ok && !sim.View().status.wel && |sim.View().mem| == |old(sim.View().mem)| &&
        forall i: nat | i < |sim.View().mem| ::
          sim.View().mem[i] == FinalAt(old(sim.View().mem), addr - FLASHBASE, data, i)
    {
      hide Step, ByteStep, Raise, NeedsErase, FinalAt, AllBytes;
      ghost var m, off, at := sim.View().mem, addr - FLASHBASE, 0;
      ok, stopped, at := Sectors(addr, len, data, verify);
      if stopped {
        return;
      }
      DoneEnd(m, sim.View().mem, off, data, at);
      Enable(sim.View(), false);
      WriteIo(0x04);
      WriteIo(0x100);
    }
  }

  /** The next byte stops the simulator. */
  ghost predicate Halts(f: Flash, b: nat) { Shape(f) && ByteStep(f, b).None? }

  function Min(a: nat, b: nat): nat { if a < b then a else b }

  /** The driver's page arithmetic: PAGEOF, and the end of a page. */
  predicate SamePage(a: nat, b: nat) { a / 256 == b / 256 }

  function NextPage(a: nat): nat { (a + 256) / 256 * 256 }

  /** A page's part of the flash window, as an address of the flash. */
  lemma WindowPage(addr: nat, len: nat)
    requires FLASHBASE <= addr < FLASHBASE + SIZE && 0 < len <= 256 && SamePage(addr, addr + len - 1)
    ensures var a := addr % 0x100_0000;
      a == addr - FLASHBASE && a % 256 + len <= 256 && a + len <= SIZE
  {
    DivModUnique(addr, 0x100_0000, 1, addr - FLASHBASE);
    var q := addr / 256;
    DivModUnique(addr - FLASHBASE, 256, q - 0x1_0000, addr % 256);
  }

  /** One page's worth of the data at p, which lies in the sector at s. */
  lemma PageBounds(p: nat, s: nat, end: nat)
    requires p % 4 == 0 && end % 4 == 0 && s % 0x1_0000 == 0 && p < s + 0x1_0000 && p < end
    ensures var next := NextPage(p);
      var n := if !SamePage(p + (end - p) - 1, p) then next - p else end - p;
      0 < n <= 256 && n % 4 == 0 && SamePage(p, p + n - 1) &&
      next % 4 == 0 && p < next <= s + 0x1_0000 && p + n == Min(next, end)
  {
    hide SamePage, NextPage;
    var q, next := p / 256, NextPage(p);
    PageSpan(p);
    OnPage(end - 1, p);
    OnPage(next - 1, p);
    SectorPages(q, s);
    DivModUnique(next, 4, 64 * (q + 1), 0);
    Four(next, p);
    Four(end, p);
  }

  lemma PageSpan(p: nat)
    ensures var q := p / 256; NextPage(p) == 256 * (q + 1) && 256 * q <= p < 256 * (q + 1)
  {
    DivModUnique(p + 256, 256, p / 256 + 1, p % 256);
  }

  lemma OnPage(x: nat, p: nat)
    ensures SamePage(x, p) <==> 256 * (p / 256) <= x < 256 * (p / 256) + 256
    ensures SamePage(p, x) <==> SamePage(x, p)
  {
    PageOf(x, p / 256);
  }

  /** What the page programmed at p asks for. */
  lemma PageFits(p: nat, s: nat, addr: nat, len: nat, data: seq<nat>)
    requires Placed(addr, len, data) && s % 0x1_0000 == 0 && p % 4 == 0 && AllBytes(data)
    requires InSector(s, addr, len) && From(s, addr) <= p < s + 0x1_0000 && p < addr + len
    ensures var next := NextPage(p);
      var n := if !SamePage(p + (addr + len - p) - 1, p) then next - p else addr + len - p;
      0 < n <= 256 && n % 4 == 0 && SamePage(p, p + n - 1) && p - addr + n <= |data| && AllBytes(data[p - addr..]) &&
      p < FLASHBASE + SIZE && next % 4 == 0 && p < next && p + n == Min(next, To(s, addr, len))
  {
    PageBounds(p, s, addr + len);
    SuffixBytes(data, p - addr);
  }

  lemma SectorFits(s: nat, addr: nat, len: nat, data: seq<nat>)
    requires Placed(addr, len, data) && InSector(s, addr, len)
    ensures |data| == len && FLASHBASE <= s && FLASHBASE <= addr <= From(s, addr) && s <= From(s, addr)
  {}

  lemma PageOf(x: nat, q: nat)
    ensures x / 256 == q <==> 256 * q <= x < 256 * q + 256
  {}

  lemma SectorPages(q: nat, s: nat)
    requires s % 0x1_0000 == 0 && 256 * q < s + 0x1_0000
    ensures 256 * (q + 1) <= s + 0x1_0000
  {
    PageBefore(q, 256 * (s / 0x1_0000) + 256);
  }

  lemma PageBefore(q: nat, j: nat)
    ensures 256 * q < 256 * j ==> 256 * (q + 1) <= 256 * j
  {}

  lemma SuffixBytes(data: seq<nat>, k: nat)
    requires AllBytes(data) && k <= |data|
    ensures AllBytes(data[k..])
  {}

  lemma ReplacedNone(mem: seq<nat>, off: nat, data: seq<nat>, from: nat, to: nat)
    requires Reachable(mem, off, data, from, to) && from <= to
    ensures Replaced(mem, mem, off, data, from, from)
  {}

  lemma Aligned(s: nat, addr: nat, len: nat)
    requires s % 0x1_0000 == 0 && addr % 4 == 0 && len % 4 == 0 && InSector(s, addr, len)
    ensures From(s, addr) % 4 == 0 && (To(s, addr, len) - From(s, addr)) % 4 == 0
  {
    Fours(s / 0x1_0000);
    assert s % 4 == 0 && (s + 0x1_0000) % 4 == 0;
    Four(addr + len, From(s, addr));
    Four(s + 0x1_0000, From(s, addr));
  }

  lemma Fours(k: nat)
    ensures 0x1_0000 * k % 4 == 0 && (0x1_0000 * k + 0x1_0000) % 4 == 0
  {
    var j := 0x4000 * k;
    assert 0x1_0000 * k == 4 * j;
  }

  lemma Four(x: nat, y: nat)
    requires x % 4 == 0 && y % 4 == 0
    ensures (x - y) % 4 == 0
  {}

  lemma ErasedBytes(mem: seq<nat>, start: nat, n: nat)
    requires start + n <= |mem| && AllBytes(mem)
    ensures AllBytes(Erased(mem, start, n))
  {}

  /** The flash window begins at a sector's start. */
  lemma SectorStart(s: nat)
    requires s % 0x1_0000 == 0 && FLASHBASE <= s
    ensures s % 0x100 == 0 && (s - FLASHBASE) % 0x1_0000 == 0 && (s - FLASHBASE) / 0x1_0000 * 0x1_0000 == s - FLASHBASE
  {
    Multiple(s / 0x1_0000);
  }

  lemma Multiple(k: nat)
    ensures 0x1_0000 * k % 0x100 == 0
  {
    var j := 0x100 * k;
    assert 0x1_0000 * k == 0x100 * j;
  }

  lemma BaseSectors(addr: nat, end: nat)
    requires FLASHBASE <= addr <= end
    ensures FLASHBASE <= addr / 0x1_0000 * 0x1_0000
    ensures addr / 0x1_0000 * 0x1_0000 - FLASHBASE == (addr - FLASHBASE) / 0x1_0000 * 0x1_0000
    ensures end <= (end + 0xffff) / 0x1_0000 * 0x1_0000
  {}

  lemma SectorInside(s: nat, addr: nat, len: nat)
    requires s % 0x1_0000 == 0 && addr / 0x1_0000 * 0x1_0000 <= s < (addr + len + 0xffff) / 0x1_0000 * 0x1_0000
    requires FLASHBASE <= addr / 0x1_0000 * 0x1_0000
    ensures InSector(s, addr, len)
  {}

  lemma ReadyQuiet(f: Flash)
    requires Ready(f)
    ensures !f.status.wip && |f.mem| == SIZE
  {}

  /** An erased sector can be programmed to anything. */
  lemma BlankReachable(mem: seq<nat>, blank: seq<nat>, off: nat, data: seq<nat>, s: nat, lo: nat, to: nat)
    requires s + 0x1_0000 <= |mem| && blank == Erased(mem, s, 0x1_0000) && AllBytes(mem) && AllBytes(data)
    requires off <= lo && s <= lo && to <= s + 0x1_0000 && to <= off + |data|
    ensures AllBytes(blank) && Reachable(blank, off, data, lo, to)
    ensures forall i: nat | i < |mem| :: blank[i] == if s <= i < s + 0x1_0000 then 255 else mem[i]
  {
    forall i: nat | lo <= i < to ensures !OutOfReach(blank[i], data[i - off]) {
      AllAnd(data[i - off]);
    }
  }

  lemma AllAnd(x: nat)
    requires x < 256
    ensures BitAnd(255, x) == x
  {
    AndSwap(255, x);
    AndAll(x);
  }

  lemma {:induction false} AndSwap(x: nat, y: nat)
    ensures BitAnd(x, y) == BitAnd(y, x)
  {
    if x != 0 && y != 0 { AndSwap(x / 2, y / 2); }
  }

  /** A page burnt onto cells that programming can bring to their values takes the data. */
  lemma PageReplaced(m: seq<nat>, m1: seq<nat>, m2: seq<nat>, off: nat, data: seq<nat>, from: nat, p: nat, n: nat, to: nat)
    requires Reachable(m, off, data, from, to) && from <= p && p + n <= to
    requires Replaced(m, m1, off, data, from, p) && m2 == Burnt(m1, p, data[p - off..][..n])
    ensures Replaced(m, m2, off, data, from, p + n)
    ensures m2[p..p + n] == data[p - off..][..n]
  {
    forall i: nat | i < |m| ensures m2[i] == if from <= i < p + n then data[i - off] else m[i] {
      if p <= i < p + n { assert !OutOfReach(m[i], data[i - off]); }
    }
  }

  /** Compares what is there with what is wanted. `newv` is the word of the first byte that
      programming cannot reach, else that of the first difference, else 0. */
  method Scan(have: seq<nat>, want: seq<nat>, base: nat) returns (newv: nat, needErase: bool)
    requires |have| == |want| && base > 0 && base % 4 == 0
    ensures needErase <==> exists k: nat | k < |have| :: OutOfReach(have[k], want[k])
    ensures needErase ==> newv != 0
    ensures !needErase && newv != 0 ==> newv % 4 == 0 && base <= newv < base + |have|
    ensures !needErase ==> forall k: nat | k < if newv == 0 then |have| else newv - base :: have[k] == want[k]
  {
    newv, needErase := 0, false;
    var i := 0;
    while i < |have|
      invariant 0 <= i <= |have| && !needErase && (newv == 0 || (newv % 4 == 0 && base <= newv < base + i))
      invariant forall k: nat | k < i :: !OutOfReach(have[k], want[k])
      invariant forall k: nat | k < if newv == 0 then i else newv - base :: have[k] == want[k]
    {
      if BitAnd(have[i], want[i]) != want[i] {
        needErase := true;
        newv := i / 4 * 4 + base;
        assert OutOfReach(have[i], want[i]);
        return;
      } else if have[i] != want[i] && newv == 0 {
        newv := i / 4 * 4 + base;
      }
      i := i + 1;
    }
  }

  /** The data lies word-aligned inside the flash window. */
  predicate Placed(addr: nat, len: nat, data: seq<nat>) {
    |data| == len && FLASHBASE <= addr && addr + len <= FLASHBASE + SIZE && addr % 4 == 0 && len % 4 == 0
  }

  /** The part of the data that falls into the sector at s. */
  function From(s: nat, addr: nat): nat { if addr > s then addr else s }

  function To(s: nat, addr: nat, len: nat): nat {
    if addr + len > s + 0x1_0000 then s + 0x1_0000 else addr + len
  }

  predicate InSector(s: nat, addr: nat, len: nat) {
    FLASHBASE <= s && addr < s + 0x1_0000 && s < addr + len && From(s, addr) <= To(s, addr, len)
  }

  /** The words of the page, and whether all of them are blank. */
  method Gather(len: nat, data: seq<nat>) returns (words: seq<nat>, empty: bool)
    requires len % 4 == 0 && len <= |data| && AllBytes(data)
    ensures Words(words, data[..len])
    ensures empty <==> forall i | 0 <= i < len :: data[i] == 255
  {
    words, empty := [], true;
    var i := 0;
    while i < len
      invariant 0 <= i <= len && i % 4 == 0 && |words| == i / 4
      invariant forall k | 0 <= k < i / 4 :: words[k] == WordAt(data[..len], 4 * k)
      invariant empty <==> forall k | 0 <= k < i :: data[k] == 255
    {
      var v := BuildWord(data[i], data[i + 1], data[i + 2], data[i + 3]);
      SameWord(data[i], data[i + 1], data[i + 2], data[i + 3], 255, 255, 255, 255);
      words := words + [v];
      if v != 0xffff_ffff {
        empty := false;
        ghost var k := if data[i] != 255 then i else if data[i + 1] != 255 then i + 1
                       else if data[i + 2] != 255 then i + 2 else i + 3;
        assert data[k] != 255;
      }
      i := i + 4;
    }
  }

  lemma BurntOnes(mem: seq<nat>, a: nat, data: seq<nat>)
    requires a + |data| <= |mem| && AllBytes(mem) && forall i | 0 <= i < |data| :: data[i] == 255
    ensures Burnt(mem, a, data) == mem
  {
    forall i | 0 <= i < |mem| ensures Burnt(mem, a, data)[i] == mem[i] { AndAll(mem[i]); }
  }

  lemma BurntBytes(mem: seq<nat>, a: nat, data: seq<nat>)
    requires a + |data| <= |mem| && AllBytes(mem)
    ensures AllBytes(Burnt(mem, a, data))
  {
    forall i | 0 <= i < |mem| ensures Burnt(mem, a, data)[i] < 256 {
      if a <= i < a + |data| { AndLe(mem[i], data[i - a]); }
    }
  }

  lemma {:induction false} AndLe(x: nat, y: nat)
    ensures BitAnd(x, y) <= x && BitAnd(x, y) <= y
  {
    if x != 0 && y != 0 { AndLe(x / 2, y / 2); }
  }

  lemma LoadShape(f0: Flash, f: Flash, a: nat, data: seq<nat>)
    requires Loading(f0, f, a, data)
    ensures AtByte(f)
  {}

  lemma PollShape(f: Flash, mem: seq<nat>)
    requires Polling(f, mem)
    ensures AtByte(f)
  {}

  lemma SameParity(o: nat)
    ensures o % 256 % 2 == o % 2
  {
    DivModUnique(o % 256, 2, o / 2 - 128 * (o / 256), o % 2);
  }

  lemma RxStart(o: nat)
    ensures Shr(o % 256, 8) == 0
  {
    Shr8(o % 256);
  }

  lemma RxStep(f: Flash, b: nat, i: nat)
    requires i < 7
    ensures Shr(f.oreg % 256, 7 - i) == 2 * Shr(f.oreg % 256, 8 - i) % 256 + if Out(Mid(f, b, i + 1)) then 1 else 0
  {
    hide Shl, Shr;
    TopBit(f.oreg, i + 1);
    ShrStep(f.oreg % 256, 7 - i);
    ShrLe(f.oreg % 256, 7 - i);
    Doubled(Shr(f.oreg % 256, 7 - i));
  }

  lemma Doubled(y: nat)
    requires y < 256
    ensures 2 * (y / 2) % 256 + y % 2 == y
  {}

  lemma {:induction false} ShrLe(x: nat, k: nat)
    ensures Shr(x, k) <= x
  {
    if k > 0 { ShrLe(x / 2, k - 1); }
  }

  lemma RxLast(o: nat)
    ensures 2 * Shr(o % 256, 1) % 256 + (o % 2) == o % 256
  {
    hide Shr;
    ShrSmall(o % 256);
    var x := o % 256;
    assert 2 * (x / 2) % 256 == 2 * (x / 2);
  }
}
