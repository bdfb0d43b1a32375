/** The operational branch of sim/verilated/sdramsim.cpp, clock by clock, proved to be the flat
    memory of SdramSpec. An `assert` of the simulator is a condition on the caller's pins. */
module Sdram {
  import opened SdramSpec
  import opened SdramPins

  const MAX_REFRESH_TIME := 6_400_000
  const MAX_BANKOPEN_TIME := 10_000

  /** A bank's status after one clock: bits move down, and an opening bank keeps bit 2. */
  function Aged(status: nat): nat {
    var s := status / 2;
    if s / 2 % 2 == 1 && s / 4 % 2 == 0 then s + 4 else s
  }

  /** What the command at this clock makes of the status of bank b. */
  function StatusAfter(p: Pins, b: nat, status: nat): nat {
    match KindOf(p)
    case Precharge => if p.addr / 0x400 % 2 == 1 || p.bs == b then status % 4 else status
    case Activate => if p.bs == b && status / 4 % 2 == 0 then status + 4 else status
    case Write => if p.bs == b && p.addr / 0x400 % 2 == 1 then status % 4 else status
    case Read => if p.bs == b && p.addr / 0x400 % 2 == 1 then status % 4 else status
    case _ => status
  }

  /** A status stays a three-bit number. */
  lemma StatusSmall(p: Pins, b: nat, status: nat)
    requires status < 8
    ensures StatusAfter(p, b, Aged(status)) < 8
  {
    hide KindOf;
    assert Aged(status) < 8;
  }

  /** The clocks bank b may still stay open after the command at this clock. */
  function OpenAfter(p: Pins, b: nat, left: int): int {
    if p.bs == b && (KindOf(p) == Activate || (Transfers(p) && p.addr / 0x400 % 2 == 1)) then MAX_BANKOPEN_TIME else left
  }

  function LocAfter(p: Pins, loc: nat, n: nat): nat {
    if KindOf(p) != Refresh then loc else if loc + 1 >= n then 0 else loc + 1
  }

  class SdramSim {
    const mem: array<int>
    const bankStatus: array<nat>
    const bankRow: array<nat>
    const bankOpenTime: array<int>
    const refreshTime: array<int>
    const qdata: array<int>
    var refreshLoc: nat
    var qloc: nat
    var wrAddr: nat
    var clocksTillIdle: nat
    var nextWr: bool
    var fail: nat

    /** The commands so far and what memory and row registers held before them. */
    ghost var hist: seq<Pins>
    ghost const init: seq<int>
    ghost const row0: seq<nat>

    /** The powered-up device: every bank precharged, every refresh deadline at its maximum. */
    constructor (contents: seq<int>, rows: seq<nat>, nrefresh: nat)
      requires |contents| == SIZE && |rows| == 4 && nrefresh > 0
      ensures Valid() && hist == [] && fail == 0 && refreshTime.Length == nrefresh
      ensures init == contents && row0 == rows
      ensures forall b | 0 <= b < 4 :: bankStatus[b] == 0
      ensures fresh(mem) && fresh(bankStatus) && fresh(bankRow) && fresh(bankOpenTime) && fresh(refreshTime) && fresh(qdata)
    {
      mem := new int[SIZE](i requires 0 <= i < |contents| => contents[i]);
      bankStatus := new nat[4](_ => 0);
      bankRow := new nat[4](i requires 0 <= i < |rows| => rows[i]);
      bankOpenTime := new int[4](_ => 0);
      refreshTime := new int[nrefresh](_ => MAX_REFRESH_TIME);
      qdata := new int[16](_ => 0);
      refreshLoc, qloc, wrAddr, clocksTillIdle, nextWr, fail := 0, 0, 0, 0, false, 0;
      hist, init, row0 := [], contents, rows;
    }

    ghost predicate Shapes() {
      mem.Length == |init| == SIZE && bankStatus.Length == bankRow.Length == bankOpenTime.Length == 4 &&
      qdata.Length == 16 && refreshTime.Length > 0 && |row0| == 4 &&
      mem != bankOpenTime && mem != refreshTime && mem != qdata && bankOpenTime != refreshTime &&
      bankOpenTime != qdata && refreshTime != qdata && bankStatus != bankRow
    }

    ghost predicate Memory()
      requires Shapes()
      reads this, mem
    {
      forall a: nat | a < SIZE :: mem[a] == WordAt(init, row0, hist, a)
    }

    ghost predicate Rows()
      requires Shapes()
      reads this, bankRow
    {
      forall b: nat | b < 4 :: bankRow[b] == RowOf(row0, hist, b)
    }

    /** The pending second word of a write. */
    ghost predicate Pending()
      requires Shapes()
      reads this
    {
      if hist != [] && KindOf(hist[|hist| - 1]) == Write then
        nextWr && clocksTillIdle == 2 && wrAddr < SIZE &&
        wrAddr == Target(row0, hist[..|hist| - 1], hist[|hist| - 1]) + 1
      else !nextWr
    }

    ghost predicate Valid()
      reads this, mem, bankStatus, bankRow, bankOpenTime, refreshTime, qdata
    {
      Shapes() && qloc < 16 && Memory() && Rows() && Pending() && Spaced(hist) && Banked(hist) &&
      QueueHolds(qdata[..], qloc, init, row0, hist) &&
      (forall b: nat | b < 4 :: bankStatus[b] < 8) &&
      RingSorted(refreshTime[..], refreshLoc, MAX_REFRESH_TIME)
    }

    /** The pins meet every assertion that the simulator makes at this clock. */
    ghost predicate Legal(p: Pins)
      requires Shapes()
      reads this, bankStatus, bankRow, bankOpenTime, refreshTime
    {
      refreshLoc < refreshTime.Length && refreshTime[refreshLoc] - 1 >= 0 && fail != 1 &&
      (forall b | 0 <= b < 4 :: Aged(bankStatus[b]) % 2 == 1 ==> bankOpenTime[b] - 1 >= 0) &&
      match KindOf(p)
      case Refresh => forall b | 0 <= b < 4 :: Aged(bankStatus[b]) / 2 % 4 == 0
      case Precharge => p.addr / 0x400 % 2 == 1 || p.bs < 4
      case Activate => p.bs < 4
      case Write => p.bs < 4 && Aged(bankStatus[p.bs]) % 2 == 1 && p.driv && InRange(p)
      case Read => p.bs < 4 && Aged(bankStatus[p.bs]) % 2 == 1 && !p.driv && InRange(p)
      case Nothing => true
      case Unknown => false
    }

    /** Both words of the transfer lie inside the memory array. */
    ghost predicate InRange(p: Pins)
      requires Shapes() && p.bs < 4
      reads bankRow
    {
      bankRow[p.bs] < ROWS && Pack(bankRow[p.bs], p.bs, p.addr % 512) + 1 < SIZE
    }

    lemma LegalBank(p: Pins)
      requires Shapes() && Legal(p)
      ensures Transfers(p) ==> p.bs < 4
    {}

    method TickRefresh()
      modifies refreshTime
      ensures forall k | 0 <= k < refreshTime.Length :: refreshTime[k] == old(refreshTime[k]) - 1
    {
      var i := 0;
      while i < refreshTime.Length
        invariant 0 <= i <= refreshTime.Length
        invariant forall k | 0 <= k < refreshTime.Length ::
          refreshTime[k] == old(refreshTime[k]) - if k < i then 1 else 0
      {
        refreshTime[i] := refreshTime[i] - 1;
        i := i + 1;
      }
    }

    method AgeBanks()
      requires Shapes()
      modifies bankStatus, bankOpenTime
      ensures forall b | 0 <= b < 4 :: bankStatus[b] == Aged(old(bankStatus[b]))
      ensures forall b | 0 <= b < 4 ::
        bankOpenTime[b] == old(bankOpenTime[b]) - if bankStatus[b] % 2 == 1 then 1 else 0
    {
      var i := 0;
      while i < 4
        invariant 0 <= i <= 4
        invariant forall b | 0 <= b < 4 :: bankStatus[b] == if b < i then Aged(old(bankStatus[b])) else old(bankStatus[b])
        invariant forall b | 0 <= b < 4 ::
          bankOpenTime[b] == old(bankOpenTime[b]) - if b < i && bankStatus[b] % 2 == 1 then 1 else 0
      {
        bankStatus[i] := bankStatus[i] / 2;
        if bankStatus[i] / 2 % 2 == 1 && bankStatus[i] / 4 % 2 == 0 {
          bankStatus[i] := bankStatus[i] + 4;
        }
        if bankStatus[i] % 2 == 1 {
          bankOpenTime[i] := bankOpenTime[i] - 1;
        }
        i := i + 1;
      }
    }

    /** Counters, and the second word of a write begun at the previous clock. */
    method SecondBeat(p: Pins)
      requires Shapes() && Pending() && Memory() && fail != 1
      modifies this`clocksTillIdle, this`fail, this`wrAddr, this`nextWr, mem
      ensures !nextWr && fail == if old(fail) > 0 then old(fail) - 1 else 0
      ensures forall a: nat | a < SIZE ::
        mem[a] == if SecondOf(row0, hist, a) then p.data else WordAt(init, row0, hist, a)
    {
      if clocksTillIdle > 0 {
        clocksTillIdle := clocksTillIdle - 1;
      }
      if fail > 0 {
        fail := fail - 1;
      }
      if clocksTillIdle > 0 && nextWr {
        mem[wrAddr] := p.data;
        wrAddr := wrAddr + 1;
        nextWr := false;
      }
    }

    /** The read queue moves up by one. */
    method Shift(p: Pins) returns (result: int)
      requires Shapes() && qloc < 16
      modifies this`qloc, qdata
      ensures qloc == (old(qloc) + 1) % 16
      ensures result == if p.driv then p.data else old(qdata[(qloc + 1) % 16])
      ensures forall k | 0 <= k < 16 :: qdata[k] == if k == qloc then 0 else old(qdata[k])
    {
      qloc := (qloc + 1) % 16;
      result := if p.driv then p.data else qdata[qloc];
      qdata[qloc] := 0;
    }

    method IssueWrite(p: Pins)
      requires Shapes() && KindOf(p) == Write && p.bs < 4 && InRange(p)
      modifies this`wrAddr, this`clocksTillIdle, this`nextWr, mem, bankStatus, bankOpenTime
      ensures var a := Pack(bankRow[p.bs], p.bs, p.addr % 512);
        nextWr && clocksTillIdle == 2 && wrAddr == a + 1 &&
        forall k | 0 <= k < SIZE :: mem[k] == if k == a then p.data else old(mem[k])
      ensures forall b: nat | b < 4 :: bankStatus[b] == StatusAfter(p, b, old(bankStatus[b]))
      ensures forall b: nat | b < 4 :: bankOpenTime[b] == OpenAfter(p, b, old(bankOpenTime[b]))
    {
      wrAddr := bankRow[p.bs];
      wrAddr := wrAddr * 4 + p.bs;
      wrAddr := wrAddr * 512 + p.addr % 0x200;
      var waddr := wrAddr;
      wrAddr := wrAddr + 1;
      mem[waddr] := p.data;
      clocksTillIdle := 2;
      nextWr := true;
      if p.addr / 0x400 % 2 == 1 {
        bankStatus[p.bs] := bankStatus[p.bs] % 4;
        bankOpenTime[p.bs] := MAX_BANKOPEN_TIME;
      }
    }

    method IssueRead(p: Pins)
      requires Shapes() && KindOf(p) == Read && p.bs < 4 && InRange(p) && qloc < 16
      modifies this`clocksTillIdle, qdata, bankStatus, bankOpenTime
      ensures clocksTillIdle == 2
      ensures var a := Pack(bankRow[p.bs], p.bs, p.addr % 512);
        forall k | 0 <= k < 16 ::
          qdata[k] == if k == (qloc + 3) % 16 then mem[a]
                      else if k == (qloc + 4) % 16 then mem[a + 1] else old(qdata[k])
      ensures forall b: nat | b < 4 :: bankStatus[b] == StatusAfter(p, b, old(bankStatus[b]))
      ensures forall b: nat | b < 4 :: bankOpenTime[b] == OpenAfter(p, b, old(bankOpenTime[b]))
    {
      var rdAddr := bankRow[p.bs] % 0x2000;
      rdAddr := rdAddr * 4 + p.bs;
      rdAddr := rdAddr * 512 + p.addr % 0x200;
      qdata[(qloc + 3) % 16] := mem[rdAddr];
      rdAddr := rdAddr + 1;
      qdata[(qloc + 4) % 16] := mem[rdAddr];
      clocksTillIdle := 2;
      if p.addr / 0x400 % 2 == 1 {
        bankStatus[p.bs] := bankStatus[p.bs] % 4;
        bankOpenTime[p.bs] := MAX_BANKOPEN_TIME;
      }
    }

    method PrechargeAll()
      requires Shapes()
      modifies bankStatus
      ensures forall b: nat | b < 4 :: bankStatus[b] == old(bankStatus[b]) % 4
    {
      var i := 0;
      while i < 4
        invariant 0 <= i <= 4
        invariant forall b: nat | b < 4 :: bankStatus[b] == if b < i then old(bankStatus[b]) % 4 else old(bankStatus[b])
      {
        bankStatus[i] := bankStatus[i] % 4;
        i := i + 1;
      }
    }

    method RefreshRow()
      requires Shapes() && RingSorted(refreshTime[..], refreshLoc, MAX_REFRESH_TIME)
      modifies this`refreshLoc, refreshTime
      ensures RingSorted(refreshTime[..], refreshLoc, MAX_REFRESH_TIME)
      ensures refreshLoc == if old(refreshLoc) + 1 >= refreshTime.Length then 0 else old(refreshLoc) + 1
      ensures forall k | 0 <= k < refreshTime.Length ::
        refreshTime[k] == if k == old(refreshLoc) then MAX_REFRESH_TIME else old(refreshTime[k])
    {
      RingRefresh(refreshTime[..], refreshLoc, MAX_REFRESH_TIME);
      ghost var renewed := refreshTime[..][refreshLoc := MAX_REFRESH_TIME];
      refreshTime[refreshLoc] := MAX_REFRESH_TIME;
      assert refreshTime[..] == renewed;
      refreshLoc := refreshLoc + 1;
      if refreshLoc >= refreshTime.Length {
        refreshLoc := 0;
      }
    }

    method OpenBank(p: Pins)
      requires Shapes() && p.bs < 4
      modifies this`fail, bankStatus, bankOpenTime, bankRow
      ensures fail == if old(bankStatus[p.bs]) != 0 then 4 else old(fail)
      ensures forall b: nat | b < 4 ::
        bankStatus[b] == old(bankStatus[b]) + if b == p.bs && old(bankStatus[b]) / 4 % 2 == 0 then 4 else 0
      ensures forall b: nat | b < 4 :: bankOpenTime[b] == if b == p.bs then MAX_BANKOPEN_TIME else old(bankOpenTime[b])
      ensures forall b: nat | b < 4 :: bankRow[b] == if b == p.bs then p.addr else old(bankRow[b])
    {
      if bankStatus[p.bs] != 0 {
        fail := 4;
      }
      if bankStatus[p.bs] / 4 % 2 == 0 {
        bankStatus[p.bs] := bankStatus[p.bs] + 4;
      }
      bankOpenTime[p.bs] := MAX_BANKOPEN_TIME;
      bankRow[p.bs] := p.addr;
    }

    /** Refresh, precharge and activate: no data moves. */
    method IssueControl(p: Pins)
      requires Shapes() && !Transfers(p) && (KindOf(p) == Activate ==> p.bs < 4)
      requires KindOf(p) == Precharge ==> p.addr / 0x400 % 2 == 1 || p.bs < 4
      requires RingSorted(refreshTime[..], refreshLoc, MAX_REFRESH_TIME)
      modifies this`refreshLoc, this`fail, refreshTime, bankStatus, bankOpenTime, bankRow
      ensures RingSorted(refreshTime[..], refreshLoc, MAX_REFRESH_TIME)
      ensures refreshLoc == LocAfter(p, old(refreshLoc), refreshTime.Length)
      ensures forall k | 0 <= k < refreshTime.Length ::
        refreshTime[k] == if KindOf(p) == Refresh && k == old(refreshLoc) then MAX_REFRESH_TIME else old(refreshTime[k])
      ensures fail == if KindOf(p) == Activate && old(bankStatus[p.bs]) != 0 then 4 else old(fail)
      ensures forall b: nat | b < 4 :: bankStatus[b] == StatusAfter(p, b, old(bankStatus[b]))
      ensures forall b: nat | b < 4 :: bankOpenTime[b] == OpenAfter(p, b, old(bankOpenTime[b]))
      ensures forall b: nat | b < 4 ::
        bankRow[b] == if KindOf(p) == Activate && p.bs == b then p.addr else old(bankRow[b])
    {
      hide RingSorted;
      match KindOf(p)
      case Refresh => RefreshRow();
      case Precharge =>
        if p.addr / 0x400 % 2 == 1 {
          PrechargeAll();
        } else {
          bankStatus[p.bs] := bankStatus[p.bs] % 4;
        }
      case Activate => OpenBank(p);
      case _ =>
    }

    /** What every clock does before it looks at the command. */
    method Advance(p: Pins) returns (result: int)
      requires Valid() && Legal(p)
      modifies this`clocksTillIdle, this`fail, this`wrAddr, this`nextWr, this`qloc
      modifies mem, bankStatus, bankOpenTime, refreshTime, qdata
      ensures !nextWr && qloc == (old(qloc) + 1) % 16
      ensures fail == if old(fail) > 0 then old(fail) - 1 else 0
      ensures forall b: nat | b < 4 :: bankOpenTime[b] == old(bankOpenTime[b]) - if bankStatus[b] % 2 == 1 then 1 else 0
      ensures forall a: nat | a < SIZE ::
        mem[a] == if SecondOf(row0, hist, a) then p.data else WordAt(init, row0, hist, a)
      ensures result == if p.driv then p.data else old(qdata[(qloc + 1) % 16])
      ensures forall k: nat | k < 16 :: qdata[k] == if k == qloc then 0 else old(qdata[k])
      ensures forall b: nat | b < 4 :: bankStatus[b] == Aged(old(bankStatus[b]))
      ensures RingSorted(refreshTime[..], refreshLoc, MAX_REFRESH_TIME)
      ensures forall k | 0 <= k < refreshTime.Length ::
        refreshTime[k] == old(refreshTime[k]) - 1 && refreshTime[k] >= 0
    {
      ghost var ring := refreshTime[..];
      TickRefresh();
      RingTick(ring, refreshTime[..], refreshLoc, MAX_REFRESH_TIME);
      HeadDecides(refreshTime[..], refreshLoc, MAX_REFRESH_TIME);
      AgeBanks();
      SecondBeat(p);
      result := Shift(p);
    }

    /** The command at this clock. */
    method Issue(p: Pins)
      requires Shapes() && qloc < 16 && KindOf(p) != Unknown && !nextWr
      requires Transfers(p) ==> p.bs < 4 && InRange(p)
      requires KindOf(p) == Activate ==> p.bs < 4
      requires KindOf(p) == Precharge ==> p.addr / 0x400 % 2 == 1 || p.bs < 4
      requires RingSorted(refreshTime[..], refreshLoc, MAX_REFRESH_TIME)
      modifies this`wrAddr, this`clocksTillIdle, this`nextWr, this`refreshLoc, this`fail
      modifies mem, bankStatus, bankRow, bankOpenTime, refreshTime, qdata
      ensures RingSorted(refreshTime[..], refreshLoc, MAX_REFRESH_TIME)
      ensures refreshLoc == LocAfter(p, old(refreshLoc), refreshTime.Length)
      ensures forall k | 0 <= k < refreshTime.Length ::
        refreshTime[k] == if KindOf(p) == Refresh && k == old(refreshLoc) then MAX_REFRESH_TIME else old(refreshTime[k])
      ensures fail == if KindOf(p) == Activate && old(bankStatus[p.bs]) != 0 then 4 else old(fail)
      ensures forall b: nat | b < 4 :: bankStatus[b] == StatusAfter(p, b, old(bankStatus[b]))
      ensures forall b: nat | b < 4 :: bankOpenTime[b] == OpenAfter(p, b, old(bankOpenTime[b]))
      ensures forall b: nat | b < 4 ::
        bankRow[b] == if KindOf(p) == Activate && p.bs == b then p.addr else old(bankRow[b])
      ensures nextWr == (KindOf(p) == Write)
      ensures nextWr ==> clocksTillIdle == 2 && wrAddr == Pack(old(bankRow[p.bs]), p.bs, p.addr % 512) + 1
      ensures forall k: nat | k < SIZE ::
        mem[k] == if KindOf(p) == Write && Pack(old(bankRow[p.bs]), p.bs, p.addr % 512) == k then p.data
                  else old(mem[k])
      ensures forall k: nat | k < 16 ::
        qdata[k] == if KindOf(p) == Read && k == (qloc + 3) % 16 then mem[Pack(old(bankRow[p.bs]), p.bs, p.addr % 512)]
                    else if KindOf(p) == Read && k == (qloc + 4) % 16 then
                      mem[Pack(old(bankRow[p.bs]), p.bs, p.addr % 512) + 1]
                    else old(qdata[k])
    {
      if KindOf(p) == Write {
        IssueWrite(p);
      } else if KindOf(p) == Read {
        IssueRead(p);
      } else {
        IssueControl(p);
      }
    }

    /** Banks, deadlines and the failure count after a clock. */
    twostate predicate Controls(p: Pins)
      requires Shapes() && (KindOf(p) == Activate ==> p.bs < 4)
      reads bankStatus, bankOpenTime, refreshTime, this`refreshLoc, this`fail
    {
      (forall b: nat | b < 4 :: bankStatus[b] == StatusAfter(p, b, Aged(old(bankStatus[b])))) &&
      (forall b: nat | b < 4 ::
        bankOpenTime[b] == OpenAfter(p, b, old(bankOpenTime[b]) - if Aged(old(bankStatus[b])) % 2 == 1 then 1 else 0)) &&
      refreshLoc == LocAfter(p, old(refreshLoc), refreshTime.Length) &&
      (forall k | 0 <= k < refreshTime.Length ::
        refreshTime[k] == if KindOf(p) == Refresh && k == old(refreshLoc) then MAX_REFRESH_TIME else old(refreshTime[k]) - 1) &&
      (fail == if KindOf(p) == Activate && Aged(old(bankStatus[p.bs])) != 0 then 4
               else if old(fail) > 0 then old(fail) - 1 else 0) &&
      forall k | 0 <= k < refreshTime.Length :: old(refreshTime[k]) - 1 >= 0
    }

    twostate lemma StatusesSmall(p: Pins)
      requires Shapes() && (KindOf(p) == Activate ==> p.bs < 4) && Controls(p)
      requires forall b: nat | b < 4 :: old(bankStatus[b]) < 8
      ensures forall b: nat | b < 4 :: bankStatus[b] < 8
    {
      forall b: nat | b < 4 ensures bankStatus[b] < 8 { StatusSmall(p, b, old(bankStatus[b])); }
    }

    /** One clock's effect on the fields, with the command not yet entered into the history. */
    method Step(p: Pins) returns (result: int)
      requires Valid() && Legal(p)
      modifies this`clocksTillIdle, this`fail, this`wrAddr, this`nextWr, this`qloc, this`refreshLoc
      modifies mem, bankStatus, bankRow, bankOpenTime, refreshTime, qdata
      ensures forall a: nat | a < SIZE :: mem[a] == WordAt(init, row0, hist + [p], a)
      ensures forall b: nat | b < 4 :: bankRow[b] == RowOf(row0, hist + [p], b)
      ensures nextWr == (KindOf(p) == Write)
      ensures nextWr ==> clocksTillIdle == 2 && wrAddr < SIZE && wrAddr == Target(row0, hist, p) + 1
      ensures qloc == (old(qloc) + 1) % 16
      ensures KindOf(p) == Read ==> Target(row0, hist, p) + 1 < SIZE
      ensures var a := if KindOf(p) == Read then Target(row0, hist, p) else 0;
        QueueMoved(old(qdata[..]), qdata[..], old(qloc), p, mem[a], mem[a + 1])
      ensures result == if p.driv then p.data else old(qdata[(qloc + 1) % 16])
      ensures RingSorted(refreshTime[..], refreshLoc, MAX_REFRESH_TIME)
      ensures Controls(p)
    {
      hide WordAt, RowOf, RingSorted, StatusAfter, OpenAfter, LocAfter, QueueHolds, QueueMoved, Aged, KindOf, Pack, Spaced;
      hide SecondOf, Pending;
      ghost var at, q := qloc, qdata[..];
      result := Advance(p);
      ghost var mid, rows, q1 := mem[..], bankRow[..], qdata[..];
      Issue(p);
      ghost var a := if KindOf(p) == Read then Target(row0, hist, p) else 0;
      MovedTwice(q, q1, qdata[..], at, p, mem[a], mem[a + 1]);
      MemoryStep(init, row0, hist, p, mid, mem[..]);
      RowsStep(row0, hist, p, rows, bankRow[..]);
    }

    /** One clock, entered into the history. */
    method Enter(p: Pins) returns (result: int)
      requires Valid() && Legal(p) && Spaced(hist + [p])
      modifies this, mem, bankStatus, bankRow, bankOpenTime, refreshTime, qdata
      ensures Valid() && hist == old(hist) + [p]
      ensures !p.driv ==> Returned(result, init, row0, hist)
      ensures Controls(p)
    {
      hide WordAt, RowOf, Returned, QueueHolds, QueueMoved, RingSorted, StatusAfter, OpenAfter, LocAfter, Aged;
      hide KindOf, Target, Pack, Spaced, Banked, InRange, Controls;
      LegalBank(p);
      QueueReturns(qdata[..], qloc, init, row0, hist, p);
      BankedNext(hist, p);
      ghost var h, q, at := hist, qdata[..], qloc;
      result := Step(p);
      StatusesSmall(p);
      ghost var a := if KindOf(p) == Read then Target(row0, h, p) else 0;
      ghost var q', ring := qdata[..], refreshTime[..];
      QueueStep(q, q', at, init, row0, h, p, mem[a], mem[a + 1]);
      hist := h + [p];
      assert hist[..|hist| - 1] == h && qdata[..] == q' && refreshTime[..] == ring;
    }

    /** One clock, by the levels of the pins. A read returns its first word exactly three clocks
        later and the next word one clock after that; every refresh deadline is met because the one
        tested is. */
    method Clock(p: Pins) returns (result: int)
      requires Valid() && Legal(p) && Spaced(hist + [p])
      modifies this, mem, bankStatus, bankRow, bankOpenTime, refreshTime, qdata
      ensures Valid() && hist == old(hist) + [p]
      ensures !p.driv ==> Returned(result, init, row0, hist) && Answers(result, init, row0, hist)
      // refresh: the deadline at the location is renewed, and the location moves on
      ensures !p.csN && !p.rasN && !p.casN && p.weN ==>
        refreshTime[old(refreshLoc)] == 6_400_000 &&
        refreshLoc == if old(refreshLoc) + 1 >= refreshTime.Length then 0 else old(refreshLoc) + 1
      ensures !(!p.csN && !p.rasN && !p.casN && p.weN) ==> refreshLoc == old(refreshLoc)
      // precharge: the bank, or with address bit 10 every bank, is asked to close
      ensures !p.csN && !p.rasN && p.casN && !p.weN ==>
        forall b: nat | b < 4 && (p.addr / 0x400 % 2 == 1 || p.bs == b) :: bankStatus[b] / 4 % 2 == 0
      // activate: the bank takes the row and is asked to open
      ensures !p.csN && !p.rasN && p.casN && p.weN ==>
        bankRow[p.bs] == p.addr && bankStatus[p.bs] / 4 % 2 == 1 && bankOpenTime[p.bs] == 10_000
      ensures forall b: nat | b < 4 && !(!p.csN && !p.rasN && p.casN && p.weN && p.bs == b) ::
        bankRow[b] == old(bankRow[b])
      // write: the first word is in memory
      ensures !p.csN && p.rasN && !p.casN && !p.weN ==>
        mem[(bankRow[p.bs] * 4 + p.bs) * 512 + p.addr % 512] == p.data
      // write or read with address bit 10: the bank is asked to close
      ensures !p.csN && p.rasN && !p.casN && p.addr / 0x400 % 2 == 1 ==>
        bankStatus[p.bs] / 4 % 2 == 0 && bankOpenTime[p.bs] == 10_000
      ensures forall b: nat | b < 4 :: bankStatus[b] == StatusAfter(p, b, Aged(old(bankStatus[b])))
      ensures forall b: nat | b < 4 ::
        bankOpenTime[b] == OpenAfter(p, b, old(bankOpenTime[b]) - if Aged(old(bankStatus[b])) % 2 == 1 then 1 else 0)
      ensures refreshLoc == LocAfter(p, old(refreshLoc), refreshTime.Length)
      ensures forall k | 0 <= k < refreshTime.Length ::
        refreshTime[k] == if KindOf(p) == Refresh && k == old(refreshLoc) then MAX_REFRESH_TIME else old(refreshTime[k]) - 1
      ensures fail == if KindOf(p) == Activate && Aged(old(bankStatus[p.bs])) != 0 then 4
                      else if old(fail) > 0 then old(fail) - 1 else 0
      ensures forall k | 0 <= k < refreshTime.Length :: old(refreshTime[k]) - 1 >= 0
    {
      hide WordAt, RowOf, Returned, Answers, QueueHolds, RingSorted, StatusAfter, OpenAfter, LocAfter, Aged;
      hide KindOf, Target, Spaced, Banked;
      ghost var h, loc := hist, refreshLoc;
      Decoded(p);
      result := Enter(p);
      if !p.driv { ReturnedAnswers(result, init, row0, hist); }
      LocationByPins(p, loc, refreshTime.Length);
      forall b: nat | b < 4
        ensures StatusByPins(p, b, bankStatus[b], bankOpenTime[b])
        ensures bankRow[b] == if !p.csN && !p.rasN && p.casN && p.weN && p.bs == b then p.addr else old(bankRow[b])
      {
        BankByPins(p, b, Aged(old(bankStatus[b])), old(bankOpenTime[b]) - if Aged(old(bankStatus[b])) % 2 == 1 then 1 else 0);
        RowByPins(row0, h, p, b);
      }
      if KindOf(p) == Write { WordByPins(init, row0, h, p); }
    }
  }

  // ---- what the pin levels decide ----

  lemma Decoded(p: Pins)
    ensures !p.csN && !p.rasN && !p.casN && p.weN <==> KindOf(p) == Refresh
    ensures !p.csN && !p.rasN && p.casN && !p.weN <==> KindOf(p) == Precharge
    ensures !p.csN && !p.rasN && p.casN && p.weN <==> KindOf(p) == Activate
    ensures !p.csN && p.rasN && !p.casN && !p.weN <==> KindOf(p) == Write
    ensures !p.csN && p.rasN && !p.casN && p.weN <==> KindOf(p) == Read
  {}

  lemma BankedNext(h: seq<Pins>, p: Pins)
    requires Banked(h) && (Transfers(p) ==> p.bs < 4)
    ensures Banked(h + [p])
  {
    Kinds(p);
  }

  lemma LocationByPins(p: Pins, loc: nat, n: nat)
    ensures LocAfter(p, loc, n) == if KindOf(p) != Refresh then loc else if loc + 1 >= n then 0 else loc + 1
  {
    hide KindOf;
  }

  ghost predicate StatusByPins(p: Pins, b: nat, status: nat, left: int) {
    (!p.csN && !p.rasN && p.casN && !p.weN && (p.addr / 0x400 % 2 == 1 || p.bs == b) ==> status / 4 % 2 == 0) &&
    (!p.csN && !p.rasN && p.casN && p.weN && p.bs == b ==> status / 4 % 2 == 1 && left == 10_000) &&
    (!p.csN && p.rasN && !p.casN && p.addr / 0x400 % 2 == 1 && p.bs == b ==> status / 4 % 2 == 0 && left == 10_000)
  }

  lemma BankByPins(p: Pins, b: nat, status: nat, left: int)
    ensures StatusByPins(p, b, StatusAfter(p, b, status), OpenAfter(p, b, left))
  {
    hide KindOf;
    Decoded(p);
    assert status % 4 / 4 == 0;
    assert (status + 4) / 4 == status / 4 + 1;
  }

  lemma RowByPins(row0: seq<nat>, h: seq<Pins>, p: Pins, b: nat)
    requires |row0| == 4 && b < 4
    ensures RowOf(row0, h + [p], b) ==
      if !p.csN && !p.rasN && p.casN && p.weN && p.bs == b then p.addr else RowOf(row0, h, b)
  {
    hide KindOf, RowOf;
    Decoded(p);
    RowStep(row0, h, p, b);
  }

  lemma WordByPins(init: seq<int>, row0: seq<nat>, h: seq<Pins>, p: Pins)
    requires |row0| == 4 && KindOf(p) == Write && p.bs < 4 && Target(row0, h, p) < |init|
    ensures Target(row0, h, p) == (RowOf(row0, h + [p], p.bs) * 4 + p.bs) * 512 + p.addr % 512
    ensures WordAt(init, row0, h + [p], Target(row0, h, p)) == p.data
  {
    hide WordAt, RowOf, KindOf;
    WordStep(init, row0, h, p, Target(row0, h, p));
    RowStep(row0, h, p, p.bs);
  }

  /** What is asked of a bank takes two clocks: an opening bank then takes transfers and stays open,
      a closing one is idle. */
  lemma TwoClocks(status: nat)
    requires status < 8
    ensures status / 4 % 2 == 1 ==> Aged(Aged(status)) == 7 && Aged(7) == 7
    ensures status / 4 % 2 == 0 ==> Aged(Aged(status)) == 0 && Aged(0) == 0
    ensures (status == 4 ==> Aged(status) % 2 == 0) && (status == 3 ==> Aged(status) % 2 == 1)
  {}
}
