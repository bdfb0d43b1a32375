/** Bytes over the flash's serial pins: with the chip selected, a byte is eight clocks, most
    significant bit first, each clock one call with the clock low and one with it high. */
module FlashBytes {
  import opened Bits
  import opened Wrappers
  import opened FlashSpec

  function Waves(b: nat, i: nat): (w: seq<Input>)
    requires i <= 8
    decreases 8 - i
  {
    if i == 8 then [] else
      [Input(false, false, BitOf(b, i)), Input(false, true, BitOf(b, i))] + Waves(b, i + 1)
  }

  function Run(f: Flash, pins: seq<Input>): Option<Flash>
    requires Shape(f)
    decreases |pins|
  {
    if pins == [] then Some(f)
    else match Step(f, pins[0])
      case None => None
      case Some(g) => Run(g, pins[1..])
  }

  /** What the host samples: the data output at every call with the clock high. */
  function Sampled(f: Flash, pins: seq<Input>): seq<bool>
    requires Shape(f)
    decreases |pins|
  {
    if pins == [] then []
    else match Step(f, pins[0])
      case None => []
      case Some(g) => (if pins[0].sck then [Out(g)] else []) + Sampled(g, pins[1..])
  }

  /** n ticks of the write timer. */
  function TimerBy(f: Flash, n: nat): Flash {
    f.(wc := if n >= f.wc then 0 else f.wc - n,
       status := if 0 < f.wc <= n then f.status.(wip := false, wel := false, dpd := false) else f.status)
  }

  lemma TimerAdds(f: Flash, n: nat)
    ensures Timer(TimerBy(f, n)) == TimerBy(f, n + 1) && TimerBy(f, 0) == f
  {}

  /** The flash at the eighth falling edge, about to look at the byte. */
  function Received(f: Flash, b: nat): Flash {
    TimerBy(f, 15).(ireg := (256 * f.ireg + b) % 0x1_0000_0000, count := f.count + 8, oreg := f.oreg % 2 * 256)
  }

  /** What a whole byte does. */
  function ByteStep(f: Flash, b: nat): (r: Option<Flash>)
    requires Shape(f)
    ensures Keeps(f, r)
  {
    match Process(Received(f, b))
    case None => None
    case Some(g) => Some(Timer(g).(lastSck := true))
  }

  /** After i whole clocks of byte b, i < 8. */
  function Mid(f: Flash, b: nat, i: nat): Flash
    requires i <= 7
  {
    With(TimerBy(f, 2 * i), (Shl(f.ireg, i) + Shr(b, 8 - i)) % 0x1_0000_0000, f.count + i, Shl(f.oreg, i) % 512, true)
  }

  function With(f: Flash, ireg: nat, count: nat, oreg: nat, sck: bool): Flash {
    f.(ireg := ireg, count := count, oreg := oreg, lastSck := sck)
  }

  predicate BitOf(b: nat, i: nat)
    requires i <= 7
  {
    Shr(b, 7 - i) % 2 == 1
  }

  /** The registers after one more falling edge. */
  lemma ShiftMid(f: Flash, b: nat, i: nat)
    requires i <= 7
    ensures Shift(Timer(Mid(f, b, i)), BitOf(b, i)) ==
      With(TimerBy(f, 2 * i + 1), (Shl(f.ireg, i + 1) + Shr(b, 7 - i)) % 0x1_0000_0000, f.count + i + 1,
           Shl(f.oreg, i + 1) % 512, true)
  {
    hide Shl, Shr, BitOf;
    TimerAdds(f, 2 * i);
    ShiftIreg(f.ireg, b, i);
    ShlNext(f.oreg, i);
    DoubleMod(Shl(f.oreg, i), 0, 512);
  }

  /** The input register takes up the next bit. */
  lemma ShiftIreg(ireg: nat, b: nat, i: nat)
    requires i <= 7
    ensures (2 * ((Shl(ireg, i) + Shr(b, 8 - i)) % 0x1_0000_0000) + if BitOf(b, i) then 1 else 0) % 0x1_0000_0000
         == (Shl(ireg, i + 1) + Shr(b, 7 - i)) % 0x1_0000_0000
  {
    hide Shl, Shr;
    ShrStep(b, 7 - i);
    ShlNext(ireg, i);
    DoubleMod(Shl(ireg, i) + Shr(b, 8 - i), Shr(b, 7 - i) % 2, 0x1_0000_0000);
  }

  lemma DoubleMod(x: int, d: int, m: nat)
    requires m > 0
    ensures (2 * (x % m) + d) % m == (2 * x + d) % m
  {
    var q := x / m;
    assert x == m * q + x % m;
    assert 2 * x + d == 2 * (x % m) + d + (2 * q) * m;
    AddMultiple(2 * (x % m) + d, 2 * q, m);
  }

  /** A clock that does not complete a byte. */
  lemma MidStep(f: Flash, b: nat, i: nat)
    requires Shape(f) && f.lastSck && f.count % 8 == 0 && i < 7
    ensures var d := BitOf(b, i);
      var low := Step(Mid(f, b, i), Input(false, false, d));
      low.Some? && Step(low.value, Input(false, true, d)) == Some(Mid(f, b, i + 1))
  {
    hide Shl, Shr, Command, Data;
    ShiftMid(f, b, i);
    TimerAdds(f, 2 * i + 1);
  }

  /** The clock that completes a byte: its falling edge looks at the byte. */
  lemma LastStep(f: Flash, b: nat)
    requires Shape(f) && f.lastSck && f.count % 8 == 0 && b < 256
    ensures var d := BitOf(b, 7);
      var low := Step(Mid(f, b, 7), Input(false, false, d));
      match ByteStep(f, b)
      case None => low.None?
      case Some(g) => low.Some? && Step(low.value, Input(false, true, d)) == Some(g) && Out(low.value) == Out(g)
  {
    hide Shl, Shr, Command, Data;
    ShiftMid(f, b, 7);
    Shl8(f.ireg);
    Shl8(f.oreg);
    assert Shr(b, 0) == b by { Shr0(b); }
    assert Shift(Timer(Mid(f, b, 7)), BitOf(b, 7))
        == With(Received(f, b), Received(f, b).ireg, f.count + 8, f.oreg % 2 * 256, true);
  }

  lemma Shr0(b: nat)
    ensures Shr(b, 0) == b
  {}

  lemma Shl8(x: nat)
    ensures Shl(x, 8) == 256 * x && 256 * x % 512 == x % 2 * 256
  {
    ShlShl(x, 4, 4);
    Shl4(x);
    Shl4(16 * x);
  }

  /** The bits of a byte, most significant first. */
  function Bits8(v: nat): seq<bool> {
    seq(8, k requires 0 <= k < 8 => BitOf(v, k))
  }

  lemma RunTwo(f: Flash, i0: Input, i1: Input, rest: seq<Input>)
    requires Shape(f)
    ensures var r := Step(f, i0);
      var p := [i0, i1] + rest;
      match r
      case None => Run(f, p) == None && Sampled(f, p) == []
      case Some(g) =>
        match Step(g, i1)
        case None => Run(f, p) == None
        case Some(h) =>
          Run(f, p) == Run(h, rest) &&
          Sampled(f, p) == (if i0.sck then [Out(g)] else []) + (if i1.sck then [Out(h)] else []) + Sampled(h, rest)
  {
    hide Step;
    var p := [i0, i1] + rest;
    assert p[1..] == [i1] + rest && p[1..][1..] == rest;
  }

  /** The rest of a byte from its clock i on. */
  lemma {:induction false} RestOfByte(f: Flash, b: nat, i: nat)
    requires Shape(f) && f.lastSck && f.count % 8 == 0 && b < 256 && i <= 7
    ensures Shape(Mid(f, b, i)) && Run(Mid(f, b, i), Waves(b, i)) == ByteStep(f, b)
    ensures ByteStep(f, b).Some? && Out(ByteStep(f, b).value) == (f.oreg % 2 == 1) ==>
      Sampled(Mid(f, b, i), Waves(b, i)) == Bits8(f.oreg % 256)[i..]
    ensures ByteStep(f, b).Some? ==> |Sampled(Mid(f, b, i), Waves(b, i))| == 8 - i
    decreases 8 - i
  {
    hide Step, ByteStep, Shl, Shr, Bits8;
    var d := BitOf(b, i);
    RunTwo(Mid(f, b, i), Input(false, false, d), Input(false, true, d), Waves(b, i + 1));
    if i == 7 {
      LastStep(f, b);
      LastBit(f.oreg);
    } else {
      MidStep(f, b, i);
      RestOfByte(f, b, i + 1);
      OutMid(f, b, i);
    }
  }

  lemma LastBit(o: nat)
    ensures Bits8(o % 256)[7..] == [o % 2 == 1]
  {
    assert BitOf(o % 256, 7) == (o % 256 % 2 == 1);
  }

  /** After i + 1 clocks the output is bit i of the byte in `oreg`, counted from the top. */
  lemma OutMid(f: Flash, b: nat, i: nat)
    requires i < 7
    ensures Bits8(f.oreg % 256)[i..] == [Out(Mid(f, b, i + 1))] + Bits8(f.oreg % 256)[i + 1..]
  {
    TopBit(f.oreg, i + 1);
    assert BitOf(f.oreg % 256, i) == Out(Mid(f, b, i + 1));
  }

  lemma TopBit(o: nat, n: nat)
    requires 1 <= n <= 8
    ensures (Shl(o, n) % 512 / 256 % 2 == 1) == (Shr(o % 256, 8 - n) % 2 == 1)
  {
    hide Shl, Shr;
    ShlSmall(o);
    var q, r := o / 256, o % 256;
    ShrSmall(r);
    match n
    case 1 => Carry(q, r / 128, 2 * (r % 128));
    case 2 => Carry(2 * q, r / 64, 4 * (r % 64));
    case 3 => Carry(4 * q, r / 32, 8 * (r % 32));
    case 4 => Carry(8 * q, r / 16, 16 * (r % 16));
    case 5 => Carry(16 * q, r / 8, 32 * (r % 8));
    case 6 => Carry(32 * q, r / 4, 64 * (r % 4));
    case 7 => Carry(64 * q, r / 2, 128 * (r % 2));
    case 8 => Carry(128 * q, r, 0);
  }

  lemma Carry(j: nat, u: nat, w: nat)
    requires w < 256
    ensures (512 * j + 256 * u + w) % 512 / 256 % 2 == u % 2
  {
    var q, r := u / 2, u % 2;
    DivModUnique(512 * j + 256 * u + w, 512, j + q, 256 * r + w);
    DivModUnique(256 * r + w, 256, r, w);
  }

  lemma ShlSmall(x: nat)
    ensures Shl(x, 1) == 2 * x && Shl(x, 2) == 4 * x && Shl(x, 3) == 8 * x && Shl(x, 4) == 16 * x
    ensures Shl(x, 5) == 32 * x && Shl(x, 6) == 64 * x && Shl(x, 7) == 128 * x && Shl(x, 8) == 256 * x
  {}

  lemma ShrSmall(x: nat)
    ensures Shr(x, 0) == x && Shr(x, 1) == x / 2 && Shr(x, 2) == x / 4 && Shr(x, 3) == x / 8
    ensures Shr(x, 4) == x / 16 && Shr(x, 5) == x / 32 && Shr(x, 6) == x / 64 && Shr(x, 7) == x / 128
  {
    ShrStep(x, 0);
    ShrStep(x, 1);
    ShrStep(x, 2);
    ShrStep(x, 3);
    ShrStep(x, 4);
    ShrStep(x, 5);
    ShrStep(x, 6);
  }

  /** Sixteen calls are one byte. */
  lemma ByteRuns(f: Flash, b: nat)
    requires Shape(f) && f.lastSck && f.count % 8 == 0 && b < 256
    ensures Run(f, Waves(b, 0)) == ByteStep(f, b)
    ensures ByteStep(f, b).Some? && Out(ByteStep(f, b).value) == (f.oreg % 2 == 1) ==>
      Sampled(f, Waves(b, 0)) == Bits8(f.oreg % 256)
    ensures ByteStep(f, b).Some? ==> |Sampled(f, Waves(b, 0))| == 8
  {
    hide Step, ByteStep;
    MidZero(f, b);
    RestOfByte(f, b, 0);
  }

  lemma MidZero(f: Flash, b: nat)
    requires Shape(f) && f.lastSck && b < 256
    ensures Mid(f, b, 0) == f
  {
    Shr8(b);
  }

  lemma Shr8(b: nat)
    ensures Shr(b, 8) == b / 256
  {
    Shr4(b);
    Shr4(b / 16);
    ShrShr(b, 4, 4);
  }

  /** A byte while no timer runs, as a command and as data. */
  lemma QuietCommand(f: Flash, b: nat)
    requires Shape(f) && f.wc == 0 && f.count == 0 && f.ireg == 0 && b < 256
    ensures var r := Command(With(f, b, 8, f.oreg % 2 * 256, f.lastSck));
      ByteStep(f, b) == if r.None? then None else Some(Timer(r.value).(lastSck := true))
  {
    hide Command, Data, Timer;
    assert Received(f, b) == With(f, b, 8, f.oreg % 2 * 256, f.lastSck);
  }

  lemma QuietData(f: Flash, b: nat)
    requires Shape(f) && f.wc == 0 && f.count % 8 == 0 && f.count > 0
    ensures var r := Data(With(f, (256 * f.ireg + b) % 0x1_0000_0000, f.count + 8, f.oreg % 2 * 256, f.lastSck));
      ByteStep(f, b) == if r.None? then None else Some(Timer(r.value).(lastSck := true))
  {
    hide Command, Data, Timer;
    assert Received(f, b) == With(f, (256 * f.ireg + b) % 0x1_0000_0000, f.count + 8, f.oreg % 2 * 256, f.lastSck);
  }
}
