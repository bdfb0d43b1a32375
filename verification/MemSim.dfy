/** The delayed-acknowledge bus memory of sim/verilated/memsim.cpp: two circular buffers proved to
    be a queue whose length is the delay. */
module MemSim {
  import opened Bits
  import opened ByteLanes
  import opened MemLaws
  import opened MemSpec
  import opened Wrappers

  /** The head and tail that `apply` computes, wrap-around of the unsigned subtraction included. */
  lemma Places(n: nat, lg: nat, delay: nat)
    requires lg <= 31 && delay <= Shl(1, lg) && (delay == 0 ==> lg == 0)
    ensures var size := Shl(1, lg);
      0 < size <= 0x8000_0000 &&
      BitAnd(n % size + 1, size - 1) == Slot(n, size) &&
      BitAnd((n % size + 1 - delay) % 0x1_0000_0000, size - 1) == Slot(n - Latency(delay), size)
  {
    hide Shl, BitAnd;
    var size := Shl(1, lg);
    ShlNext(1, 0);
    ShlGrows(1, lg, 31);
    ShlGrows(1, 0, lg);
    Powers();
    Wrapped(n, 1, size);
    Wrapped(n, 1 - delay, size);
    MaskIsMod(n % size + 1, lg);
    var x := n % size + 1 - delay;
    MaskIsMod(x % 0x1_0000_0000, lg);
    WrapKeeps(x, lg);
    if delay == 0 { One(n); }
  }

  lemma One(n: int)
    ensures n % 1 == (n + 1) % 1 == 0
  {}

  lemma Wrapped(n: int, k: int, size: nat)
    requires size > 0
    ensures (n % size + k) % size == (n + k) % size
  {
    assert n == size * (n / size) + n % size;
    AddMultiple(n % size + k, n / size, size);
  }

  /** Reducing modulo 2^32 first does not change the low bits. */
  lemma WrapKeeps(x: int, lg: nat)
    requires lg <= 32
    ensures Shl(1, lg) > 0 && x % 0x1_0000_0000 % Shl(1, lg) == x % Shl(1, lg)
  {
    ShlGrows(1, 0, lg);
    ShlGrows(1, 0, 32 - lg);
    ShlShl(1, 32 - lg, lg);
    Powers();
    ShlProduct(Shl(1, 32 - lg), lg);
    ModOfMod(x, Shl(1, 32 - lg), Shl(1, lg), 0x1_0000_0000);
  }

  lemma ModOfMod(x: int, part: nat, size: nat, whole: nat)
    requires part > 0 && size > 0 && whole == size * part
    ensures whole > 0 ==> x % whole % size == x % size
  {
    if whole > 0 {
      var q, r := x / whole, x % whole;
      assert x == whole * q + r;
      assert whole * q == (q * part) * size by { Regroup(size, part, q); }
      AddMultiple(r, q * part, size);
    }
  }

  class MemSim {
    const mem: array<bv32>
    const mask: nat
    const delay: nat
    const delayMask: nat
    const fifoAck: array<bool>
    const fifoData: array<bv32>
    var head: nat
    var tail: nat

    ghost const lgMem: nat
    ghost const lgFifo: nat
    ghost const init: seq<bv32>
    /** The calls so far, and the replies acknowledged so far. */
    ghost var hist: seq<Request>
    ghost var delivered: seq<bv32>

    ghost predicate Shapes() {
      mem.Length == |init| == mask + 1 == Shl(1, lgMem) && lgMem <= 31 &&
      fifoAck.Length == fifoData.Length == delayMask + 1 == Shl(1, lgFifo) && lgFifo <= 31 &&
      delay <= delayMask + 1 && (delay == 0 ==> lgFifo == 0) && mem != fifoData &&
      (mem as object) != (fifoAck as object) && (fifoAck as object) != (fifoData as object)
    }

    ghost predicate Valid()
      reads this, mem, fifoAck, fifoData
    {
      Shapes() && head == |hist| % (delayMask + 1) &&
      (forall a: nat | a < mem.Length :: mem[a] == WordAt(init, hist, a)) &&
      Window(fifoAck[..], fifoData[..], init, hist) &&
      delivered == Replies(init, Served(hist, Latency(delay)))
    }

    /** The buffers start out with no acknowledge; the memory with whatever it holds. */
    constructor (nwords: nat, delay: nat)
      requires nwords <= 0x8000_0000 && delay <= 0x8000_0000
      ensures Valid() && hist == [] && delivered == [] && this.delay == delay
      ensures nwords <= mem.Length && (mem.Length == 1 || mem.Length / 2 < nwords)
      ensures fresh(mem) && fresh(fifoAck) && fresh(fifoData)
    {
      hide WordAt, Replies, Served, Window, Shl;
      var size, lg := RoundUp(nwords);
      var words := new bv32[size];
      mask, lgMem, mem, init := size - 1, lg, words, words[..];
      this.delay := delay;
      var fsize, flg := RoundUp(delay);
      fifoAck := new bool[fsize](_ => false);
      fifoData := new bv32[fsize];
      delayMask, lgFifo := fsize - 1, flg;
      head, tail := 0, 0;
      hist, delivered := [], [];
      new;
      WindowStart(fifoAck[..], fifoData[..], init);
      NothingYet(init, Latency(delay));
    }

    /** One call. The reply to a request comes exactly Latency(delay) calls later, once and in order. */
    method Apply(r: Request) returns (ack: bool, stall: bool, data: bv32)
      requires Valid()
      modifies this, mem, fifoAck, fifoData
      ensures Valid() && hist == old(hist) + [r] && !stall
      ensures var n := |old(hist)|;
        if n < Latency(delay) then !ack
        else match Reply(init, hist, n - Latency(delay))
          case None => !ack && data == 0
          case Some(w) => ack && data == w
      // by the calls: the one a delay ago is acknowledged if it asked, with the bytes stored last
      ensures var n, d := |old(hist)|, if delay == 0 then 1 else delay;
        if n < d then !ack
        else
          ack == (hist[n - d].cyc && hist[n - d].stb) &&
          (ack ==> Answers(init, hist, n - d, data)) && (!ack ==> data == 0)
      ensures delivered == old(delivered) + if ack then [data] else []
    {
      hide WordAt, Replies, Reply, Lanes, Window, Shl, BitAnd, Served, Slot, Answers;
      ghost var h, acks, datas := hist, fifoAck[..], fifoData[..];
      ServedNext(init, h, r, Latency(delay));
      WindowAt(acks, datas, init, h, r, |h| - Latency(delay));
      ack, data := Fetch();
      stall := false;
      Enter(r);
      ghost var acks', datas' := fifoAck[..], fifoData[..];
      WindowStep(acks, datas, acks', datas', init, h, r);
      hist := h + [r];
      delivered := delivered + if ack then [data] else [];
      assert fifoAck[..] == acks' && fifoData[..] == datas';
      if |h| >= Latency(delay) { ReplyAnswers(init, hist, |h| - Latency(delay)); }
    }

    /** Head and tail move on; the entry at the tail comes out. */
    method Fetch() returns (ack: bool, data: bv32)
      requires Valid()
      modifies this`head, this`tail
      ensures head == Slot(|hist|, fifoAck.Length) == (|hist| + 1) % (delayMask + 1)
      ensures tail == Slot(|hist| - Latency(delay), fifoAck.Length)
      ensures ack == fifoAck[tail] && data == fifoData[tail]
    {
      hide WordAt, Replies, Window, Shl, BitAnd, Served;
      Places(|hist|, lgFifo, delay);
      head := head + 1;
      tail := BitAnd((head - delay) % 0x1_0000_0000, delayMask);
      head := BitAnd(head, delayMask);
      ack, data := fifoAck[tail], fifoData[tail];
    }

    /** The request goes to memory, and its reply into the slot at head. */
    method Enter(r: Request)
      requires Shapes() && head <= delayMask && forall a: nat | a < mem.Length :: mem[a] == WordAt(init, hist, a)
      modifies mem, fifoAck, fifoData
      ensures forall a: nat | a < mem.Length :: mem[a] == WordAt(init, hist + [r], a)
      ensures var reply := Reply(init, hist + [r], |hist|);
        fifoAck[..] == old(fifoAck[..])[head := reply.Some?] &&
        fifoData[..] == old(fifoData[..])[head := if reply.Some? then reply.value else 0]
    {
      hide WordAt, Lanes, Shl, BitAnd;
      MaskIsMod(r.addr, lgMem);
      forall a: nat | a < mem.Length ensures WordAt(init, hist + [r], a) == Stored(init, hist, r, a) {
        WordNext(init, hist, r, a);
      }
      assert (hist + [r])[..|hist| + 1] == hist + [r] && (hist + [r])[|hist|] == r;
      fifoAck[head] := false;
      fifoData[head] := 0;
      if r.cyc && r.stb {
        var a := BitAnd(r.addr, mask);
        if r.we {
          var memv := Merge(r.sel, mem[a], r.data);
          mem[a] := memv;
        }
        fifoAck[head] := true;
        fifoData[head] := mem[a];
      }
      ghost var reply := Reply(init, hist + [r], |hist|);
      assert fifoAck[..] == old(fifoAck[..])[head := reply.Some?];
      assert fifoData[..] == old(fifoData[..])[head := if reply.Some? then reply.value else 0];
    }
  }

  /** The smallest power of two that is at least n; beyond 2^31 the source's doubling would wrap to 0. */
  method RoundUp(n: nat) returns (size: nat, ghost lg: nat)
    requires n <= 0x8000_0000
    ensures size == Shl(1, lg) && n <= size <= 0x8000_0000 && lg <= 31
    ensures if size == 1 then lg == 0 && n <= 1 else size / 2 < n
  {
    size, lg := 1, 0;
    while size < n
      invariant size == Shl(1, lg) && 1 <= size <= 0x8000_0000 && lg <= 31
      invariant if size == 1 then lg == 0 else size / 2 < n
      decreases n - size
    {
      Doubled(lg);
      size := size * 2;
      lg := lg + 1;
    }
  }

  lemma Doubled(lg: nat)
    requires lg <= 31 && Shl(1, lg) < 0x8000_0000
    ensures lg < 31 && Shl(1, lg + 1) <= 0x8000_0000
  {
    Powers();
    ShlGrows(1, lg + 1, 31);
  }
}
