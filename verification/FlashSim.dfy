/** The flash simulator of sim/verilated/flashsim.cpp, field by field, proved to take the steps of
    FlashSpec. Its assertions and exits are conditions on the caller. */
module FlashSim {
  import opened Bits
  import opened Wrappers
  import opened FlashSpec

  class FlashSim {
    const mem: array<nat>
    const pmem: array<nat>
    const memmask: nat
    var state: State
    var status: Status
    var creg: nat
    var writeCount: nat
    var count: nat
    var ireg: nat
    var oreg: nat
    var addr: nat
    var lastSck: bool
    ghost const lg: nat

    ghost predicate Valid()
      reads this, mem, pmem
    {
      mem.Length == memmask + 1 == Shl(1, lg) && mem != pmem && Shape(View())
    }

    ghost function View(): Flash
      reads this, mem, pmem
    {
      Flash(state, status, creg, writeCount, count, ireg, oreg, addr, lastSck, mem[..], pmem[..])
    }

    /** An erased chip of 2^lglen bytes. The page buffer, the address and the bit count start out as
        whatever is there; the count is set by the first call with chip select high. */
    constructor (lglen: nat, stale: nat)
      ensures Valid() && fresh(mem) && fresh(pmem) && mem.Length == Shl(1, lglen)
      ensures View().state == Idle && View().status == Status(false, false, false, 0, 0x1c) && View().wc == 0
      ensures View().creg == 1 && View().lastSck && View().ireg == 0 && View().mem == seq(Shl(1, lglen), _ => 255)
    {
      ShlGrows(1, 0, lglen);
      var size := Shl(1, lglen);
      mem := new nat[size](_ => 255);
      pmem := new nat[256];
      memmask, lg := size - 1, lglen;
      state, status, creg := Idle, Status(false, false, false, 0, 0x1c), 1;
      writeCount, count, ireg, oreg, addr, lastSck := 0, stale, 0, 0, stale, true;
    }

    method TickTimer()
      requires Valid()
      modifies this
      ensures Valid() && View() == Timer(old(View()))
    {
      if writeCount > 0 {
        writeCount := writeCount - 1;
        if writeCount == 0 {
          status := status.(wip := false, wel := false, dpd := false);
        }
      }
    }

    method BurnPage(page: nat)
      requires pmem.Length == 256 && page + 256 <= mem.Length && mem != pmem
      modifies mem
      ensures mem[..] == Programmed(old(mem[..]), page, pmem[..])
    {
      var i := 0;
      while i < 256
        invariant 0 <= i <= 256 && pmem[..] == old(pmem[..])
        invariant forall k | 0 <= k < mem.Length ::
          mem[k] == if page <= k < page + i then BitAnd(old(mem[k]), pmem[k - page]) else old(mem[k])
      {
        mem[page + i] := BitAnd(mem[page + i], pmem[i]);
        i := i + 1;
      }
    }

    method Fill(start: nat, n: nat)
      requires start + n <= mem.Length
      modifies mem
      ensures mem[..] == Erased(old(mem[..]), start, n)
    {
      var i := 0;
      while i < n
        invariant 0 <= i <= n
        invariant forall k | 0 <= k < mem.Length :: mem[k] == if start <= k < start + i then 255 else old(mem[k])
      {
        mem[start + i] := 255;
        i := i + 1;
      }
    }

    method BeginWrite(time: nat)
      requires Valid()
      modifies this
      ensures Valid() && View() == Busy(old(View()), time)
    {
      writeCount := time;
      state := Idle;
      status := status.(wel := false);
      status := status.(wip := true);
    }

    /** Raising chip select carries out what was commanded. */
    method CarryOut()
      requires Valid() && Deselect(View()).Some?
      modifies this, mem
      ensures Valid() && Some(View().(oreg := 0xfe)) == Deselect(old(View()))
    {
      hide Shl, BitAnd, Programmed, Erased;
      lastSck, ireg, oreg, count := true, 0, 0, 0;
      match state
      case PageProgram =>
        BeginWrite(1_200);
        assert mem[..] == old(mem[..]) && pmem[..] == old(pmem[..]);
        BurnPage(addr / 256 * 256);
      case SectorErase =>
        BeginWrite(1_500_000);
        addr := addr / 0x1_0000 * 0x1_0000;
        assert mem[..] == old(mem[..]);
        Fill(addr, 0x1_0000);
      case Wrsr =>
        BeginWrite(5_000);
      case Clsr =>
        state := Idle;
        status := status.(err := 0, dpd := false);
      case BulkErase =>
        BeginWrite(3_200_000_000);
        assert mem[..] == old(mem[..]);
        Fill(0, mem.Length);
      case Release =>
        writeCount := 3_000_000_000;
        state := Idle;
      case _ =>
    }

    method OnDeselect()
      requires Valid() && Deselect(View()).Some?
      modifies this, mem
      ensures Valid() && Some(View()) == Deselect(old(View()))
    {
      CarryOut();
      ghost var v := View();
      oreg := 0xfe;
      assert mem[..] == v.mem && pmem[..] == v.pmem;
    }

    /** `QOREG` */
    method Load(v: nat)
      requires Valid()
      modifies this`oreg
      ensures Valid() && View() == Queue(old(View()), v)
    {
      oreg := oreg / 256 * 256 + v % 256;
    }

    method Accept(s: State)
      requires Valid()
      modifies this`state
      ensures Valid() && Some(View()) == IfGranted(old(View()), s)
    {
      state := if status.wel && !status.wip && !status.dpd then s else Invalid;
    }

    method OnCommand()
      requires Valid() && Command(View()).Some?
      modifies this
      ensures Valid() && Some(View()) == Command(old(View()))
    {
      hide Shl, BitAnd;
      var cmd := ireg % 256;
      ghost var m, p := mem[..], pmem[..];
      Load(0xa5);
      if status.dpd && cmd != 0xab {
      } else {
        match cmd
        case 0x01 => Accept(Wrsr);
        case 0x02 => Accept(PageProgram);
        case 0x03 => state := SlowRead;
        case 0x04 =>
          state := Idle;
          status := status.(wel := false);
        case 0x05 =>
          state := Rdsr;
          Load(StatusByte(status));
        case 0x06 =>
          state := Idle;
          status := status.(wel := true);
        case 0x0b => state := FastRead;
        case 0x30 => state := Clsr;
        case 0x35 =>
          state := Rdcr;
          Load(creg);
        case 0x50 =>
          state := Idle;
          Load(0);
        case 0x70 =>
          state := Idle;
          Load(0);
        case 0x81 => Load(0);
        case 0x9f =>
          state := Rdid;
          Load(0);
        case 0xab =>
          if status.dpd {
            status := status.(dpd := false);
            writeCount := 3_000_000_000;
          }
          state := Release;
        case 0xb9 =>
          if status.wip {
            state := Invalid;
          } else {
            status := status.(dpd := true);
            state := Idle;
          }
        case 0xc7 => Accept(BulkErase);
        case 0xd8 => Accept(SectorErase);
        case 0x00 => state := Idle;
        case 0xff => state := Idle;
        case _ =>
      }
      assert mem[..] == m && pmem[..] == p;
    }

    /** The next memory byte of a read, unless a write is running. */
    method LoadNext()
      requires Valid() && NextByte(View()).Some?
      modifies this
      ensures Valid() && Some(View()) == NextByte(old(View()))
    {
      if !status.wip {
        Load(mem[addr]);
        addr := addr + 1;
      } else {
        oreg := 0;
      }
    }

    method ClearBuffer()
      requires Valid()
      modifies pmem
      ensures pmem[..] == seq(256, _ => 255)
    {
      var i := 0;
      while i < 256
        invariant 0 <= i <= 256 && forall k | 0 <= k < i :: pmem[k] == 255
      {
        pmem[i] := 255;
        i := i + 1;
      }
    }

    /** A data byte is complete in state f; the low byte of the output is cleared already. */
    ghost predicate AtData(f: Flash)
      reads this, mem, pmem
    {
      Shape(f) && Data(f).Some? && View() == Queue(f, 0) && BitAnd(ireg, memmask) == ireg % mem.Length
    }

    method OnSlowRead(ghost f: Flash)
      requires Valid() && AtData(f) && f.state == SlowRead
      modifies this
      ensures Valid() && Some(View()) == Data(f)
    {
      hide BitAnd;
      if count == 32 {
        addr := BitAnd(ireg, memmask);
        Load(mem[addr]);
        addr := addr + 1;
      } else if count >= 40 {
        LoadNext();
      } else {
        oreg := 0;
      }
    }

    method OnFastRead(ghost f: Flash)
      requires Valid() && AtData(f) && f.state == FastRead
      modifies this
      ensures Valid() && Some(View()) == Data(f)
    {
      hide BitAnd;
      if count == 32 {
        addr := BitAnd(ireg, memmask);
        Load(0xc3);
      } else if count >= 40 {
        LoadNext();
      } else {
        oreg := 0;
      }
    }

    method OnProgram(ghost f: Flash)
      requires Valid() && AtData(f) && f.state == PageProgram
      modifies this, pmem
      ensures Valid() && Some(View()) == Data(f)
    {
      hide BitAnd;
      if count == 32 {
        addr := BitAnd(ireg, memmask);
        ClearBuffer();
      } else if count >= 40 {
        pmem[addr % 256] := ireg % 256;
        addr := addr / 256 * 256 + (addr + 1) % 256;
      }
    }

    method OnData()
      requires Valid() && Data(View()).Some?
      modifies this, pmem
      ensures Valid() && Some(View()) == Data(old(View()))
    {
      hide Shl, Shr, BitAnd, BitOr;
      ghost var f := View();
      MaskIsMod(ireg, lg);
      Load(0);
      match state
      case Wrsr =>
        if count == 16 {
          status := status.(wel := false, dpd := false, prot := BitAnd(ireg % 256, 0x9c));
        } else {
          creg := BitOr(BitAnd(creg, 0xfd), BitAnd(ireg % 256, 2));
        }
      case Rdid => Load(Shr(0x0115, 32 - count));
      case Rdsr => Load(StatusByte(status));
      case Rdcr => Load(creg);
      case SlowRead => OnSlowRead(f);
      case FastRead => OnFastRead(f);
      case PageProgram => OnProgram(f);
      case SectorErase =>
        if count == 32 {
          addr := ireg % 0x100_0000 / 0x4000 * 0x4000;
        }
      case Release =>
        if count >= 32 {
          Load(0x14);
        }
      case _ =>
    }

    method ShiftIn(dat: bool)
      requires Valid()
      modifies this
      ensures Valid() && View() == Shift(old(View()), dat)
    {
      ireg := (2 * ireg + if dat then 1 else 0) % 0x1_0000_0000;
      count := count + 1;
      oreg := 2 * oreg % 512;
    }

    method OnEdge()
      requires Valid() && Process(View()).Some?
      modifies this, pmem
      ensures Valid() && Some(View()) == Process(old(View()))
    {
      if count == 8 {
        OnCommand();
      } else if count % 8 == 0 {
        OnData();
      }
    }

    method SetClock(sck: bool)
      requires Valid()
      modifies this`lastSck
      ensures Valid() && View() == old(View()).(lastSck := sck)
    {
      lastSck := sck;
    }

    /** One call of the simulator. With the chip selected `out` is its data output. */
    method Tick(csn: bool, sck: bool, dat: bool) returns (out: bool)
      requires Valid() && Step(View(), Input(csn, sck, dat)).Some?
      modifies this, mem, pmem
      ensures Valid() && Some(View()) == Step(old(View()), Input(csn, sck, dat))
      ensures out == if csn then dat else Out(View())
    {
      hide Shl, Command, Data, Deselect;
      TickTimer();
      if csn {
        OnDeselect();
        out := dat;
      } else {
        if lastSck && !sck {
          ShiftIn(dat);
          OnEdge();
        }
        SetClock(sck);
        out := oreg / 256 % 2 == 1;
      }
    }
  }
}
