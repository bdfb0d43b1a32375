/** The serial flash of sim/verilated/flashsim.cpp in its one-bit mode, as a function of the pins:
    one call of the simulator is one Step. `None` stands for a failed assertion, an exit, an access
    outside the memory, or a command of the dual and quad modes. */
module FlashSpec {
  import opened Bits
  import opened Wrappers

  datatype State =
    | Idle | Rdsr | Rdcr | Wrsr | Clsr | Rdid | Release | SlowRead | FastRead
    | SectorErase | PageProgram | BulkErase | Invalid

  /** The status register: bits 0, 1 and 9, the error bits 0x60 and the protection bits 0x9c. */
  datatype Status = Status(wip: bool, wel: bool, dpd: bool, err: nat, prot: nat)

  function StatusByte(s: Status): nat {
    (if s.wip then 1 else 0) + (if s.wel then 2 else 0) + s.err + s.prot
  }

  /** `(m_sreg & 0x203) == 2`: write enabled, no write running, not in deep power down. */
  predicate Granted(s: Status) { s.wel && !s.wip && !s.dpd }

  /** `ireg` is a 32-bit register; only the low nine bits of `oreg` are ever looked at. */
  datatype Flash = Flash(
    state: State, status: Status, creg: nat, wc: nat, count: nat, ireg: nat, oreg: nat, addr: nat,
    lastSck: bool, mem: seq<nat>, pmem: seq<nat>)

  predicate Shape(f: Flash) { |f.pmem| == 256 && |f.mem| > 0 && f.ireg < 0x1_0000_0000 && f.oreg < 512 }

  predicate Keeps(f: Flash, r: Option<Flash>) { r.Some? ==> Shape(r.value) && |r.value.mem| == |f.mem| }

  datatype Input = Input(csn: bool, sck: bool, dat: bool)

  /** Data output: bit 8 of `oreg`. */
  predicate Out(f: Flash) { f.oreg / 256 % 2 == 1 }

  /** `QOREG` */
  function Queue(f: Flash, v: nat): Flash { f.(oreg := f.oreg / 256 * 256 + v % 256) }

  /** The write timer; when it runs out the low bits of the status register are cleared. */
  function Timer(f: Flash): Flash {
    if f.wc == 0 then f
    else if f.wc == 1 then f.(wc := 0, status := f.status.(wip := false, wel := false, dpd := false))
    else f.(wc := f.wc - 1)
  }

  // ---- chip select high: what was commanded is carried out ----

  function Programmed(mem: seq<nat>, page: nat, pmem: seq<nat>): (m: seq<nat>)
    requires page + 256 <= |mem| && |pmem| == 256
    ensures |m| == |mem|
  {
    seq(|mem|, a requires 0 <= a < |mem| => if page <= a < page + 256 then BitAnd(mem[a], pmem[a - page]) else mem[a])
  }

  function Erased(mem: seq<nat>, start: nat, n: nat): (m: seq<nat>)
    requires start + n <= |mem|
    ensures |m| == |mem|
  {
    seq(|mem|, a requires 0 <= a < |mem| => if start <= a < start + n then 255 else mem[a])
  }

  /** A write begins: the enable is used up and the timer runs. */
  function Busy(f: Flash, time: nat): Flash {
    f.(state := Idle, wc := time, status := f.status.(wel := false, wip := true))
  }

  function Deselect(f: Flash): (r: Option<Flash>)
    requires Shape(f)
    ensures Keeps(f, r)
  {
    var g := f.(lastSck := true, ireg := 0, count := 0, oreg := 0xfe);
    match f.state
    case PageProgram =>
      var page := f.addr / 256 * 256;
      if page + 256 > |f.mem| then None else Some(Busy(g, 1_200).(mem := Programmed(f.mem, page, f.pmem)))
    case SectorErase =>
      var start := f.addr / 0x1_0000 * 0x1_0000;
      if start + 0x1_0000 > |f.mem| then None
      else Some(Busy(g, 1_500_000).(addr := start, mem := Erased(f.mem, start, 0x1_0000)))
    case BulkErase => Some(Busy(g, 3_200_000_000).(mem := Erased(f.mem, 0, |f.mem|)))
    case Wrsr => Some(Busy(g, 5_000))
    case Clsr => Some(g.(state := Idle, status := f.status.(err := 0, dpd := false)))
    case Release => Some(g.(state := Idle, wc := 3_000_000_000))
    case _ => Some(g)
  }

  // ---- the eighth clock: a command ----

  function IfGranted(f: Flash, s: State): Option<Flash> {
    Some(f.(state := if Granted(f.status) then s else Invalid))
  }

  function Command(f: Flash): (r: Option<Flash>)
    requires Shape(f)
    ensures Keeps(f, r)
  {
    var g, cmd := Queue(f, 0xa5), f.ireg % 256;
    if f.status.dpd && cmd != 0xab then Some(g)
    else match cmd
      case 0x01 => IfGranted(g, Wrsr)
      case 0x02 => IfGranted(g, PageProgram)
      case 0x03 => Some(g.(state := SlowRead))
      case 0x04 => Some(g.(state := Idle, status := f.status.(wel := false)))
      case 0x05 => Some(Queue(g, StatusByte(f.status)).(state := Rdsr))
      case 0x06 => Some(g.(state := Idle, status := f.status.(wel := true)))
      case 0x0b => Some(g.(state := FastRead))
      case 0x30 => Some(g.(state := Clsr))
      case 0x35 => Some(Queue(g, f.creg).(state := Rdcr))
      case 0x50 => Some(Queue(g, 0).(state := Idle))
      case 0x70 => Some(Queue(g, 0).(state := Idle))
      case 0x81 => Some(Queue(g, 0))
      case 0x9f => Some(Queue(g, 0).(state := Rdid))
      case 0xab =>
        Some(if f.status.dpd then g.(state := Release, status := f.status.(dpd := false), wc := 3_000_000_000)
             else g.(state := Release))
      case 0xb9 =>
        Some(if f.status.wip then g.(state := Invalid) else g.(state := Idle, status := f.status.(dpd := true)))
      case 0xc7 => IfGranted(g, BulkErase)
      case 0xd8 => IfGranted(g, SectorErase)
      case 0x00 => Some(g.(state := Idle))
      case 0xff => Some(g.(state := Idle))
      case _ => None
  }

  // ---- every eighth clock after that: a byte for the command ----

  function NextByte(f: Flash): Option<Flash> {
    if f.status.wip then Some(f.(oreg := 0))
    else if f.addr >= |f.mem| then None
    else Some(Queue(f, f.mem[f.addr]).(addr := f.addr + 1))
  }

  function Data(f: Flash): (r: Option<Flash>)
    requires Shape(f)
    ensures Keeps(f, r)
  {
    var g, last := Queue(f, 0), f.ireg % 256;
    match f.state
    case Wrsr =>
      if f.count == 16 then
        Some(g.(status := f.status.(wel := false, dpd := false, prot := BitAnd(last, 0x9c))))
      else if f.count == 24 then Some(g.(creg := BitOr(BitAnd(f.creg, 0xfd), BitAnd(last, 2))))
      else None
    case Clsr => None
    case Rdid => if f.count <= 32 then Some(Queue(g, Shr(0x0115, 32 - f.count))) else None
    case Rdsr => Some(Queue(g, StatusByte(f.status)))
    case Rdcr => Some(Queue(g, f.creg))
    case SlowRead =>
      if f.count == 32 then
        var a := f.ireg % |f.mem|;
        Some(Queue(g, f.mem[a]).(addr := a + 1))
      else if f.count >= 40 then NextByte(g)
      else Some(g.(oreg := 0))
    case FastRead =>
      if f.count == 32 then Some(Queue(g, 0xc3).(addr := f.ireg % |f.mem|))
      else if f.count >= 40 then NextByte(g)
      else Some(g.(oreg := 0))
    case PageProgram =>
      if f.count == 32 then Some(g.(addr := f.ireg % |f.mem|, pmem := seq(256, _ => 255)))
      else if f.count >= 40 then
        Some(g.(pmem := f.pmem[f.addr % 256 := last], addr := f.addr / 256 * 256 + (f.addr + 1) % 256))
      else Some(g)
    case SectorErase =>
      if f.count == 32 then
        var a := f.ireg % 0x100_0000 / 0x4000 * 0x4000;
        if a >= 0x40_0000 then None else Some(g.(addr := a))
      else Some(g)
    case Release => Some(if f.count >= 32 then Queue(g, 0x14) else g)
    case _ => Some(g)
  }

  /** A falling clock edge with the chip selected. */
  function Shift(f: Flash, dat: bool): Flash {
    f.(ireg := (2 * f.ireg + if dat then 1 else 0) % 0x1_0000_0000, count := f.count + 1, oreg := 2 * f.oreg % 512)
  }

  function Process(f: Flash): (r: Option<Flash>)
    requires Shape(f)
    ensures Keeps(f, r)
  {
    if f.count == 8 then Command(f) else if f.count % 8 == 0 then Data(f) else Some(f)
  }

  function Step(f: Flash, i: Input): (r: Option<Flash>)
    requires Shape(f)
    ensures Keeps(f, r)
  {
    var g := Timer(f);
    if i.csn then Deselect(g)
    else if !g.lastSck || i.sck then Some(g.(lastSck := i.sck))
    else match Process(Shift(g, i.dat))
      case None => None
      case Some(h) => Some(h.(lastSck := false))
  }
}
