/** The SDRAM of sim/verilated/sdramsim.cpp seen from its pins: a flat memory behind a fixed read
    latency. Everything here is a function of the commands clocked in so far, newest last. */
module SdramSpec {

  /** The pins at one clock; `data` is what is on the bus, `driv` says the controller drives it. */
  datatype Pins = Pins(csN: bool, rasN: bool, casN: bool, weN: bool, bs: nat, addr: nat, driv: bool, data: int)

  datatype Kind = Refresh | Precharge | Activate | Write | Read | Nothing | Unknown

  function KindOf(p: Pins): Kind {
    if !p.csN && !p.rasN && !p.casN && p.weN then Refresh
    else if !p.csN && !p.rasN && p.casN && !p.weN then Precharge
    else if !p.csN && !p.rasN && p.casN && p.weN then Activate
    else if !p.csN && p.rasN && !p.casN then (if !p.weN then Write else Read)
    else if p.csN then Nothing
    else if p.rasN && p.casN && p.weN then Nothing
    else Unknown
  }

  predicate Transfers(p: Pins) { KindOf(p) == Write || KindOf(p) == Read }

  /** A memory of 2^23 words, 12 row bits (the model's rows stay inside the array). */
  const SIZE := 0x80_0000
  const ROWS := 0x1000

  function Pack(row: nat, bank: nat, col: nat): nat { (row * 4 + bank) * 512 + col }

  /** The address packing loses nothing. */
  lemma PackInjective(r: nat, b: nat, c: nat, r': nat, b': nat, c': nat)
    requires b < 4 && c < 512 && b' < 4 && c' < 512
    ensures Pack(r, b, c) == Pack(r', b', c') <==> r == r' && b == b' && c == c'
    ensures r < ROWS ==> Pack(r, b, c) < SIZE
  {}

  /** The row that was last activated in bank b. */
  function RowOf(row0: seq<nat>, h: seq<Pins>, b: nat): nat
    requires |row0| == 4 && b < 4
  {
    if h == [] then row0[b]
    else
      var last := h[|h| - 1];
      if KindOf(last) == Activate && last.bs == b then last.addr else RowOf(row0, h[..|h| - 1], b)
  }

  /** The address that command p, issued after h, transfers to or from first. */
  function Target(row0: seq<nat>, h: seq<Pins>, p: Pins): nat
    requires |row0| == 4
  {
    if p.bs < 4 then Pack(RowOf(row0, h, p.bs), p.bs, p.addr % 512) else 0
  }

  /** A write puts its first word at the clock of the command and its second one clock later. */
  predicate Puts(row0: seq<nat>, h: seq<Pins>, a: nat)
    requires |row0| == 4 && h != []
  {
    var n := |h|;
    (KindOf(h[n - 1]) == Write && Target(row0, h[..n - 1], h[n - 1]) == a) ||
    (n >= 2 && KindOf(h[n - 2]) == Write && Target(row0, h[..n - 2], h[n - 2]) + 1 == a)
  }

  /** The word at address a after h: the last one written there. */
  function WordAt(init: seq<int>, row0: seq<nat>, h: seq<Pins>, a: nat): int
    requires |row0| == 4 && a < |init|
  {
    if h == [] then init[a]
    else if Puts(row0, h, a) then h[|h| - 1].data
    else WordAt(init, row0, h[..|h| - 1], a)
  }

  /** Transfers are at least two clocks apart. */
  ghost predicate Spaced(h: seq<Pins>) {
    forall k | 1 <= k < |h| :: !(Transfers(h[k - 1]) && Transfers(h[k]))
  }

  predicate PutsAt(row0: seq<nat>, h: seq<Pins>, a: nat, k: int)
    requires |row0| == 4 && 0 <= k < |h|
  {
    Puts(row0, h[..k + 1], a)
  }

  /** If clock k puts a word at a and no later clock does, that word is what a holds. */
  lemma {:induction false} WordAtIsLastWritten(init: seq<int>, row0: seq<nat>, h: seq<Pins>, a: nat, k: nat)
    requires |row0| == 4 && a < |init| && k < |h|
    requires PutsAt(row0, h, a, k) && forall j | k < j < |h| :: !PutsAt(row0, h, a, j)
    ensures WordAt(init, row0, h, a) == h[k].data
  {
    if k == |h| - 1 {
      assert h[..k + 1] == h;
    } else {
      var g := h[..|h| - 1];
      assert !PutsAt(row0, h, a, |h| - 1) && h[..|h| - 1 + 1] == h;
      assert PutsAt(row0, g, a, k) by { assert g[..k + 1] == h[..k + 1]; }
      forall j | k < j < |g| ensures !PutsAt(row0, g, a, j) {
        assert !PutsAt(row0, h, a, j) && g[..j + 1] == h[..j + 1];
      }
      WordAtIsLastWritten(init, row0, g, a, k);
    }
  }

  /** The newest command is a write whose second word, due at the next clock, goes to a. */
  predicate SecondOf(row0: seq<nat>, h: seq<Pins>, a: nat)
    requires |row0| == 4
  {
    h != [] && KindOf(h[|h| - 1]) == Write && Target(row0, h[..|h| - 1], h[|h| - 1]) + 1 == a
  }

  /** What one more clock does to the memory. */
  lemma WordStep(init: seq<int>, row0: seq<nat>, h: seq<Pins>, p: Pins, a: nat)
    requires |row0| == 4 && a < |init|
    ensures WordAt(init, row0, h + [p], a)
         == if KindOf(p) == Write && Target(row0, h, p) == a then p.data
            else if SecondOf(row0, h, a) then p.data
            else WordAt(init, row0, h, a)
  {
    var g := h + [p];
    assert g[..|g| - 1] == h;
    if h != [] { assert g[..|g| - 2] == h[..|h| - 1]; }
  }

  lemma RowStep(row0: seq<nat>, h: seq<Pins>, p: Pins, b: nat)
    requires |row0| == 4 && b < 4
    ensures RowOf(row0, h + [p], b) == if KindOf(p) == Activate && p.bs == b then p.addr else RowOf(row0, h, b)
  {
    assert (h + [p])[..|h + [p]| - 1] == h;
  }

  lemma RowsStep(row0: seq<nat>, h: seq<Pins>, p: Pins, rows: seq<nat>, rows': seq<nat>)
    requires |row0| == |rows| == |rows'| == 4
    requires forall b: nat | b < 4 :: rows[b] == RowOf(row0, h, b)
    requires forall b: nat | b < 4 :: rows'[b] == if KindOf(p) == Activate && p.bs == b then p.addr else rows[b]
    ensures forall b: nat | b < 4 :: rows'[b] == RowOf(row0, h + [p], b)
  {
    forall b: nat | b < 4 ensures rows'[b] == RowOf(row0, h + [p], b) {
      RowStep(row0, h, p, b);
    }
  }

  // ---- the read queue ----

  /** The words that a read k clocks ago still has in the queue: the first one 3 - k places ahead
      of the read position and the second one place further. */
  ghost predicate Queued(q: seq<int>, qloc: nat, init: seq<int>, row0: seq<nat>, h: seq<Pins>, k: nat) {
    |q| == 16 && |row0| == 4 && |init| == SIZE && k < 4 &&
    (k < |h| && KindOf(h[|h| - 1 - k]) == Read ==>
      var t := |h| - 1 - k;
      var a := Target(row0, h[..t], h[t]);
      a + 1 < SIZE &&
      (k < 3 ==> q[(qloc + 3 - k) % 16] == WordAt(init, row0, h[..t + 1], a)) &&
      q[(qloc + 4 - k) % 16] == WordAt(init, row0, h[..t + 1], a + 1))
  }

  ghost predicate QueueHolds(q: seq<int>, qloc: nat, init: seq<int>, row0: seq<nat>, h: seq<Pins>) {
    Queued(q, qloc, init, row0, h, 0) && Queued(q, qloc, init, row0, h, 1) &&
    Queued(q, qloc, init, row0, h, 2) && Queued(q, qloc, init, row0, h, 3)
  }

  lemma RingPlaces(qloc: nat, o: nat)
    requires o > 0
    ensures ((qloc + 1) % 16 + (o - 1)) % 16 == (qloc + o) % 16
  {}

  /** The queue after the clock of p: the position read is cleared, and a read drops its two words
      three and four places ahead of it. */
  ghost predicate QueueMoved(q: seq<int>, q': seq<int>, qloc: nat, p: Pins, first: int, second: int) {
    |q| == |q'| == 16 &&
    forall k: nat | k < 16 ::
      q'[k] == if KindOf(p) == Read && k == (qloc + 4) % 16 then first
               else if KindOf(p) == Read && k == (qloc + 5) % 16 then second
               else if k == (qloc + 1) % 16 then 0 else q[k]
  }

  /** The clearing of one place and the drop of the two words make up that move. */
  lemma MovedTwice(q: seq<int>, mid: seq<int>, q': seq<int>, qloc: nat, p: Pins, first: int, second: int)
    requires |q| == |mid| == |q'| == 16 && qloc < 16
    requires forall k: nat | k < 16 :: mid[k] == if k == (qloc + 1) % 16 then 0 else q[k]
    requires forall k: nat | k < 16 ::
      q'[k] == if KindOf(p) == Read && k == ((qloc + 1) % 16 + 3) % 16 then first
               else if KindOf(p) == Read && k == ((qloc + 1) % 16 + 4) % 16 then second else mid[k]
    ensures QueueMoved(q, q', qloc, p, first, second)
  {
    hide KindOf;
    RingPlaces(qloc, 4);
    RingPlaces(qloc, 5);
  }

  /** One clock leaves the word o places ahead alone, unless the clock's own read drops one there. */
  lemma PlaceKept(q: seq<int>, q': seq<int>, qloc: nat, p: Pins, first: int, second: int, o: nat)
    requires qloc < 16 && QueueMoved(q, q', qloc, p, first, second)
    requires 2 <= o <= 4 && (o == 4 ==> KindOf(p) != Read)
    ensures q'[((qloc + 1) % 16 + (o - 1)) % 16] == q[(qloc + o) % 16]
  {
    RingPlaces(qloc, o);
    Apart(qloc, o, 1);
    if o < 4 { Apart(qloc, o, 4); }
    Apart(qloc, o, 5);
  }

  lemma Apart(qloc: nat, o: nat, o': nat)
    requires o != o' && o < 16 && o' < 16
    ensures (qloc + o) % 16 != (qloc + o') % 16
  {}

  /** A read k clocks ago is one of k + 1 clocks ago after the next clock: its words are left alone,
      because a newer read comes at least two clocks later. */
  lemma QueueAges(q: seq<int>, q': seq<int>, qloc: nat, init: seq<int>, row0: seq<nat>, h: seq<Pins>, p: Pins,
                  first: int, second: int, k: nat)
    requires Queued(q, qloc, init, row0, h, k) && k < 3 && qloc < 16 && QueueMoved(q, q', qloc, p, first, second)
    requires h != [] && Transfers(p) ==> !Transfers(h[|h| - 1])
    ensures Queued(q', (qloc + 1) % 16, init, row0, h + [p], k + 1)
  {
    hide WordAt, Target, QueueMoved, KindOf;
    var g := h + [p];
    if k < |h| && KindOf(h[|h| - 1 - k]) == Read {
      var t := |h| - 1 - k;
      assert g[|g| - 1 - (k + 1)] == h[t] && g[..t] == h[..t] && g[..t + 1] == h[..t + 1];
      if k < 2 { PlaceKept(q, q', qloc, p, first, second, 3 - k); }
      PlaceKept(q, q', qloc, p, first, second, 4 - k);
      MovedLengths(q, q', qloc, p, first, second);
    } else {
      MovedLengths(q, q', qloc, p, first, second);
    }
  }

  lemma MovedLengths(q: seq<int>, q': seq<int>, qloc: nat, p: Pins, first: int, second: int)
    requires QueueMoved(q, q', qloc, p, first, second)
    ensures |q| == |q'| == 16
  {}

  lemma Fresh(q: seq<int>, q': seq<int>, qloc: nat, init: seq<int>, row0: seq<nat>, h: seq<Pins>, p: Pins,
              first: int, second: int)
    requires |row0| == 4 && |init| == SIZE && qloc < 16
    requires QueueMoved(q, q', qloc, p, first, second)
    requires KindOf(p) == Read ==>
      var a := Target(row0, h, p);
      a + 1 < SIZE && first == WordAt(init, row0, h + [p], a) && second == WordAt(init, row0, h + [p], a + 1)
    ensures Queued(q', (qloc + 1) % 16, init, row0, h + [p], 0)
  {
    var g := h + [p];
    assert g[..|g| - 1] == h && g[..|g|] == g;
  }

  /** The queue keeps its meaning over a clock. */
  lemma QueueStep(q: seq<int>, q': seq<int>, qloc: nat, init: seq<int>, row0: seq<nat>, h: seq<Pins>, p: Pins,
                  first: int, second: int)
    requires QueueHolds(q, qloc, init, row0, h) && qloc < 16 && Spaced(h + [p])
    requires QueueMoved(q, q', qloc, p, first, second)
    requires KindOf(p) == Read ==>
      var a := Target(row0, h, p);
      a + 1 < SIZE && first == WordAt(init, row0, h + [p], a) && second == WordAt(init, row0, h + [p], a + 1)
    ensures QueueHolds(q', (qloc + 1) % 16, init, row0, h + [p])
  {
    SpacedLast(h, p);
    Fresh(q, q', qloc, init, row0, h, p, first, second);
    QueueAges(q, q', qloc, init, row0, h, p, first, second, 0);
    QueueAges(q, q', qloc, init, row0, h, p, first, second, 1);
    QueueAges(q, q', qloc, init, row0, h, p, first, second, 2);
  }

  /** What the bus must carry at the newest clock of g: the first word of a read three clocks ago,
      the second word of a read four clocks ago. */
  ghost predicate Returned(result: int, init: seq<int>, row0: seq<nat>, g: seq<Pins>)
    requires |row0| == 4 && |init| == SIZE
  {
    var n := |g|;
    (n >= 4 && KindOf(g[n - 4]) == Read ==>
      var a := Target(row0, g[..n - 4], g[n - 4]);
      a < SIZE && result == WordAt(init, row0, g[..n - 3], a)) &&
    (n >= 5 && KindOf(g[n - 5]) == Read ==>
      var a := Target(row0, g[..n - 5], g[n - 5]) + 1;
      a < SIZE && result == WordAt(init, row0, g[..n - 4], a))
  }

  lemma QueueReturns(q: seq<int>, qloc: nat, init: seq<int>, row0: seq<nat>, h: seq<Pins>, p: Pins)
    requires QueueHolds(q, qloc, init, row0, h)
    ensures Returned(q[(qloc + 1) % 16], init, row0, h + [p])
  {
    var g, n := h + [p], |h| + 1;
    if n >= 4 && KindOf(g[n - 4]) == Read {
      assert g[n - 4] == h[|h| - 3] && g[..n - 4] == h[..|h| - 3] && g[..n - 3] == h[..|h| - 2];
    }
    if n >= 5 && KindOf(g[n - 5]) == Read {
      assert g[n - 5] == h[|h| - 4] && g[..n - 5] == h[..|h| - 4] && g[..n - 4] == h[..|h| - 3];
    }
  }

  lemma SpacedLast(h: seq<Pins>, p: Pins)
    requires Spaced(h + [p])
    ensures h != [] && Transfers(p) ==> !Transfers(h[|h| - 1])
    ensures Spaced(h)
  {
    var g := h + [p];
    if h != [] {
      assert g[|h| - 1] == h[|h| - 1] && g[|h|] == p;
      assert !(Transfers(g[|h| - 1]) && Transfers(g[|h|]));
    }
    forall k | 1 <= k < |h| ensures !(Transfers(h[k - 1]) && Transfers(h[k])) {
      assert g[k - 1] == h[k - 1] && g[k] == h[k];
    }
  }

  /** The memory keeps its meaning over a clock: `mid` is what it holds once the second word of a
      write begun at the previous clock is in, `m` what it holds after the command. */
  lemma MemoryStep(init: seq<int>, row0: seq<nat>, h: seq<Pins>, p: Pins, mid: seq<int>, m: seq<int>)
    requires |row0| == 4 && |init| == |mid| == |m| == SIZE
    requires forall a: nat | a < SIZE :: mid[a] == if SecondOf(row0, h, a) then p.data else WordAt(init, row0, h, a)
    requires forall a: nat | a < SIZE ::
      m[a] == if KindOf(p) == Write && Target(row0, h, p) == a then p.data else mid[a]
    ensures forall a: nat | a < SIZE :: m[a] == WordAt(init, row0, h + [p], a)
  {
    forall a: nat | a < SIZE ensures m[a] == WordAt(init, row0, h + [p], a) {
      WordStep(init, row0, h, p, a);
    }
  }

  // ---- the refresh ring ----

  /** The i-th deadline, counted cyclically from loc. */
  function Deadline(ring: seq<int>, loc: nat, i: nat): int
    requires loc < |ring| && i < |ring|
  {
    ring[if loc + i < |ring| then loc + i else loc + i - |ring|]
  }

  /** Read from loc onwards the deadlines never decrease, and none exceeds top. */
  ghost predicate RingSorted(ring: seq<int>, loc: nat, top: int) {
    loc < |ring| &&
    (forall i: nat, j: nat | i <= j < |ring| :: Deadline(ring, loc, i) <= Deadline(ring, loc, j)) &&
    forall i: nat | i < |ring| :: Deadline(ring, loc, i) <= top
  }

  lemma DeadlineOf(ring: seq<int>, loc: nat, k: nat) returns (i: nat)
    requires loc < |ring| && k < |ring|
    ensures i < |ring| && Deadline(ring, loc, i) == ring[k]
  {
    i := if loc <= k then k - loc else k + |ring| - loc;
  }

  /** Testing the one entry at loc is testing them all. */
  lemma HeadDecides(ring: seq<int>, loc: nat, top: int)
    requires RingSorted(ring, loc, top)
    ensures ring[loc] >= 0 <==> forall k | 0 <= k < |ring| :: ring[k] >= 0
  {
    assert Deadline(ring, loc, 0) == ring[loc];
    forall k: nat | k < |ring| ensures ring[loc] <= ring[k] {
      var i := DeadlineOf(ring, loc, k);
    }
  }

  /** A clock lowers every deadline by one and keeps the order. */
  lemma RingTick(ring: seq<int>, ring': seq<int>, loc: nat, top: int)
    requires RingSorted(ring, loc, top) && |ring'| == |ring|
    requires forall k | 0 <= k < |ring| :: ring'[k] == ring[k] - 1
    ensures RingSorted(ring', loc, top)
  {
    forall i: nat | i < |ring| ensures Deadline(ring', loc, i) == Deadline(ring, loc, i) - 1 {}
  }

  /** A refresh renews the entry at loc and moves on. */
  lemma RingRefresh(ring: seq<int>, loc: nat, top: int)
    requires RingSorted(ring, loc, top)
    ensures RingSorted(ring[loc := top], if loc + 1 >= |ring| then 0 else loc + 1, top)
  {
    var n, ring' := |ring|, ring[loc := top];
    var loc' := if loc + 1 >= n then 0 else loc + 1;
    forall i: nat | i < n
      ensures Deadline(ring', loc', i) == if i == n - 1 then top else Deadline(ring, loc, i + 1)
    {}
  }
}
