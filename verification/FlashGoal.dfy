/** What a write of `data` at offset `off` is to make of the flash's memory. */
module FlashGoal {
  import opened Bits

  /** Programming only clears bits. */
  predicate OutOfReach(have: nat, want: nat) { BitAnd(have, want) != want }

  /** Programming cannot give byte i its new value: it would have to set a bit. */
  predicate Stuck(mem: seq<nat>, off: nat, data: seq<nat>, i: nat) {
    i < |mem| && off <= i < off + |data| && OutOfReach(mem[i], data[i - off])
  }

  /** The 64 KB sector at s holds a byte that programming cannot reach. */
  ghost predicate NeedsErase(mem: seq<nat>, off: nat, data: seq<nat>, s: nat) {
    exists i: nat | s <= i < s + 0x1_0000 :: Stuck(mem, off, data, i)
  }

  /** The byte at i afterwards: the data where there is data; elsewhere blank if its sector had to be
      erased, and otherwise as it was. */
  ghost function FinalAt(mem: seq<nat>, off: nat, data: seq<nat>, i: nat): nat
    requires i < |mem|
  {
    if off <= i < off + |data| then data[i - off]
    else if NeedsErase(mem, off, data, i / 0x1_0000 * 0x1_0000) then 255
    else mem[i]
  }

  /** Sectors below s are done, the others untouched. */
  ghost predicate DoneBelow(mem0: seq<nat>, mem: seq<nat>, off: nat, data: seq<nat>, s: nat) {
    |mem| == |mem0| &&
    forall i: nat | i < |mem0| :: mem[i] == if i < s then FinalAt(mem0, off, data, i) else mem0[i]
  }

  /** One more sector. */
  ghost predicate SectorDone(mem: seq<nat>, mem': seq<nat>, off: nat, data: seq<nat>, s: nat) {
    |mem'| == |mem| &&
    forall i: nat | i < |mem| ::
      mem'[i] == if s <= i < s + 0x1_0000 then FinalAt(mem, off, data, i) else mem[i]
  }

  /** [lo, to) is the part of the data that falls into the sector at s. */
  predicate IsPart(off: nat, data: seq<nat>, s: nat, lo: nat, to: nat) {
    lo == (if off > s then off else s) &&
    to == (if off + |data| > s + 0x1_0000 then s + 0x1_0000 else off + |data|)
  }

  /** Looking at the data's part of the sector decides whether the sector needs an erase. */
  lemma PartDecides(mem: seq<nat>, off: nat, data: seq<nat>, s: nat, lo: nat, to: nat)
    requires IsPart(off, data, s, lo, to)
    requires lo <= to <= |mem|
    ensures NeedsErase(mem, off, data, s) <==>
      exists k: nat | k < to - lo :: OutOfReach(mem[lo..to][k], data[lo - off..to - off][k])
  {
    hide OutOfReach;
    if NeedsErase(mem, off, data, s) {
      var i: nat :| s <= i < s + 0x1_0000 && Stuck(mem, off, data, i);
      SameByte(mem, off, data, lo, to, i - lo);
      assert OutOfReach(mem[lo..to][i - lo], data[lo - off..to - off][i - lo]);
    }
    if k: nat :| k < to - lo && OutOfReach(mem[lo..to][k], data[lo - off..to - off][k]) {
      SameByte(mem, off, data, lo, to, k);
      assert Stuck(mem, off, data, lo + k);
    }
  }

  lemma SameByte(mem: seq<nat>, off: nat, data: seq<nat>, lo: nat, to: nat, k: nat)
    requires off <= lo && lo + k < to <= |mem| && to <= off + |data|
    ensures mem[lo..to][k] == mem[lo + k] && data[lo - off..to - off][k] == data[lo + k - off]
  {}

  lemma SectorOf(s: nat, i: nat)
    requires s % 0x1_0000 == 0 && s <= i < s + 0x1_0000
    ensures i / 0x1_0000 * 0x1_0000 == s
  {}

  lemma DoneStart(mem: seq<nat>, off: nat, data: seq<nat>)
    ensures DoneBelow(mem, mem, off, data, off / 0x1_0000 * 0x1_0000)
  {
    forall i: nat | i < |mem| && i < off / 0x1_0000 * 0x1_0000 ensures FinalAt(mem, off, data, i) == mem[i] {
      assert i / 0x1_0000 * 0x1_0000 + 0x1_0000 <= off;
    }
  }

  lemma DoneNext(mem0: seq<nat>, mem: seq<nat>, mem': seq<nat>, off: nat, data: seq<nat>, s: nat)
    requires DoneBelow(mem0, mem, off, data, s) && SectorDone(mem, mem', off, data, s) && s % 0x1_0000 == 0
    ensures DoneBelow(mem0, mem', off, data, s + 0x1_0000)
  {
    SameNeed(mem0, mem, off, data, s);
    forall i: nat | i < |mem0| && s <= i < s + 0x1_0000
      ensures FinalAt(mem, off, data, i) == FinalAt(mem0, off, data, i)
    {
      SectorOf(s, i);
    }
  }

  lemma SameNeed(mem0: seq<nat>, mem: seq<nat>, off: nat, data: seq<nat>, s: nat)
    requires |mem| == |mem0| && forall i: nat | s <= i < |mem0| :: mem[i] == mem0[i]
    ensures NeedsErase(mem, off, data, s) <==> NeedsErase(mem0, off, data, s)
  {
    if NeedsErase(mem, off, data, s) {
      var i: nat :| s <= i < s + 0x1_0000 && Stuck(mem, off, data, i);
      assert Stuck(mem0, off, data, i);
    }
    if NeedsErase(mem0, off, data, s) {
      var i: nat :| s <= i < s + 0x1_0000 && Stuck(mem0, off, data, i);
      assert Stuck(mem, off, data, i);
    }
  }

  /** The sector at s has to be erased, and lies where the simulator refuses to erase. */
  ghost predicate TooHigh(mem: seq<nat>, off: nat, data: seq<nat>, s: nat) {
    s % 0x1_0000 == 0 && s >= 0x40_0000 && NeedsErase(mem, off, data, s)
  }

  lemma NoneBelow(mem: seq<nat>, off: nat, data: seq<nat>)
    ensures forall s: nat | s < off / 0x1_0000 * 0x1_0000 :: !TooHigh(mem, off, data, s)
  {
    forall s: nat | s < off / 0x1_0000 * 0x1_0000 && s % 0x1_0000 == 0 ensures !NeedsErase(mem, off, data, s) {
      assert s + 0x1_0000 <= off;
    }
  }

  lemma NoneAbove(mem: seq<nat>, off: nat, data: seq<nat>, at: nat)
    requires off + |data| <= at && forall s: nat | s < at :: !TooHigh(mem, off, data, s)
    ensures forall s: nat :: !TooHigh(mem, off, data, s)
  {}

  lemma NextAligned(mem: seq<nat>, off: nat, data: seq<nat>, at: nat)
    requires at % 0x1_0000 == 0 && !TooHigh(mem, off, data, at)
    requires forall s: nat | s < at :: !TooHigh(mem, off, data, s)
    ensures forall s: nat | s < at + 0x1_0000 :: !TooHigh(mem, off, data, s)
  {
    forall s: nat | at < s < at + 0x1_0000 ensures !TooHigh(mem, off, data, s) { assert s % 0x1_0000 != 0; }
  }

  /** What the sector at s needs has not been touched by the work below it. */
  lemma DoneSame(mem0: seq<nat>, mem: seq<nat>, off: nat, data: seq<nat>, s: nat)
    requires DoneBelow(mem0, mem, off, data, s)
    ensures TooHigh(mem, off, data, s) <==> TooHigh(mem0, off, data, s)
  {
    SameNeed(mem0, mem, off, data, s);
  }

  /** Past the last sector there is nothing left to do. */
  lemma DoneEnd(mem0: seq<nat>, mem: seq<nat>, off: nat, data: seq<nat>, s: nat)
    requires DoneBelow(mem0, mem, off, data, s) && off + |data| <= s && s % 0x1_0000 == 0
    ensures forall i: nat | i < |mem0| :: mem[i] == FinalAt(mem0, off, data, i)
  {
    forall i: nat | i < |mem0| && s <= i ensures mem0[i] == FinalAt(mem0, off, data, i) {
      assert i / 0x1_0000 * 0x1_0000 >= s;
    }
  }

  // ---- one sector, with and without an erase ----

  /** Bytes [from, to) take the data, the rest stays. */
  ghost predicate Replaced(mem: seq<nat>, mem': seq<nat>, off: nat, data: seq<nat>, from: nat, to: nat) {
    off <= from && to <= off + |data| && |mem'| == |mem| &&
    forall i: nat | i < |mem| :: mem'[i] == if from <= i < to then data[i - off] else mem[i]
  }

  /** Programming can give the bytes in [from, to) their values. */
  ghost predicate Reachable(mem: seq<nat>, off: nat, data: seq<nat>, from: nat, to: nat) {
    off <= from && to <= off + |data| && to <= |mem| &&
    forall i: nat | from <= i < to :: !OutOfReach(mem[i], data[i - off])
  }

  /** The bytes before `from` match, and programming can bring the others to their values. */
  ghost predicate Found(mem: seq<nat>, off: nat, data: seq<nat>, lo: nat, from: nat, to: nat) {
    off <= lo <= from && Reachable(mem, off, data, from, to) &&
    forall i: nat | lo <= i < from && i < to :: mem[i] == data[i - off]
  }

  /** No erase: the bytes before `from` had their values already. */
  lemma KeptSector(mem: seq<nat>, mem': seq<nat>, off: nat, data: seq<nat>, s: nat, lo: nat, from: nat, to: nat)
    requires s % 0x1_0000 == 0 && !NeedsErase(mem, off, data, s)
    requires IsPart(off, data, s, lo, to)
    requires lo <= from && Replaced(mem, mem', off, data, from, to) && Found(mem, off, data, lo, from, to)
    ensures SectorDone(mem, mem', off, data, s)
  {
    forall i: nat | i < |mem|
      ensures mem'[i] == if s <= i < s + 0x1_0000 then FinalAt(mem, off, data, i) else mem[i]
    {
      if s <= i < s + 0x1_0000 { SectorOf(s, i); }
    }
  }

  /** After an erase every byte of the sector is written or blank. */
  lemma ErasedSector(mem: seq<nat>, blank: seq<nat>, mem': seq<nat>, off: nat, data: seq<nat>, s: nat, lo: nat, to: nat)
    requires s % 0x1_0000 == 0 && NeedsErase(mem, off, data, s) && |blank| == |mem|
    requires IsPart(off, data, s, lo, to)
    requires forall i: nat | i < |mem| :: blank[i] == if s <= i < s + 0x1_0000 then 255 else mem[i]
    requires Replaced(blank, mem', off, data, lo, to)
    ensures SectorDone(mem, mem', off, data, s)
  {
    forall i: nat | i < |mem|
      ensures mem'[i] == if s <= i < s + 0x1_0000 then FinalAt(mem, off, data, i) else mem[i]
    {
      if s <= i < s + 0x1_0000 { SectorOf(s, i); }
    }
  }

  /** What the comparison of a sector's part says about memory. */
  lemma ScanFound(mem: seq<nat>, off: nat, data: seq<nat>, lo: nat, to: nat, from: nat)
    requires off <= lo <= from <= to <= off + |data| && to <= |mem|
    requires !exists k: nat | k < to - lo :: OutOfReach(mem[lo..to][k], data[lo - off..to - off][k])
    requires forall k: nat | k < from - lo :: mem[lo..to][k] == data[lo - off..to - off][k]
    ensures Found(mem, off, data, lo, from, to)
  {
    forall i: nat | lo <= i < from ensures mem[i] == data[i - off] {
      assert mem[lo..to][i - lo] == data[lo - off..to - off][i - lo];
    }
    forall i: nat | from <= i < to ensures !OutOfReach(mem[i], data[i - off]) {
      assert !OutOfReach(mem[lo..to][i - lo], data[lo - off..to - off][i - lo]);
    }
  }

  /** Both conclusions of the comparison, from the bytes compared. */
  lemma ScanMeans(mem: seq<nat>, off: nat, data: seq<nat>, s: nat, lo: nat, to: nat, have: seq<nat>, want: seq<nat>,
                  need: bool, from: nat)
    requires IsPart(off, data, s, lo, to)
    requires lo <= from <= to <= |mem| && have == mem[lo..to] && want == data[lo - off..to - off]
    requires need <==> exists k: nat | k < |have| :: OutOfReach(have[k], want[k])
    requires !need ==> forall k: nat | k < from - lo :: have[k] == want[k]
    ensures need <==> NeedsErase(mem, off, data, s)
    ensures !need ==> Found(mem, off, data, lo, from, to)
  {
    PartDecides(mem, off, data, s, lo, to);
    if !need { ScanFound(mem, off, data, lo, to, from); }
  }

  /** A sector that already matches is done. */
  lemma MatchedSector(mem: seq<nat>, off: nat, data: seq<nat>, s: nat, lo: nat, to: nat)
    requires s % 0x1_0000 == 0 && !NeedsErase(mem, off, data, s)
    requires IsPart(off, data, s, lo, to)
    requires lo <= to && Found(mem, off, data, lo, to, to)
    ensures SectorDone(mem, mem, off, data, s)
  {
    KeptSector(mem, mem, off, data, s, lo, to, to);
  }

  // ---- what FinalAt promises ----

  /** A sector without data is never in need of an erase, so it stays as it is. */
  lemma UntouchedSector(mem: seq<nat>, off: nat, data: seq<nat>, i: nat)
    requires i < |mem|
    requires var s := i / 0x1_0000 * 0x1_0000; s + 0x1_0000 <= off || off + |data| <= s
    ensures FinalAt(mem, off, data, i) == mem[i]
  {
    assert i / 0x1_0000 * 0x1_0000 <= i < i / 0x1_0000 * 0x1_0000 + 0x1_0000;
  }

  /** Data that only clears bits is written without losing a byte of its sectors. */
  lemma ClearingKeepsAll(mem: seq<nat>, off: nat, data: seq<nat>, i: nat)
    requires i < |mem| && !(off <= i < off + |data|)
    requires forall k: nat | off <= k < off + |data| && k < |mem| :: !OutOfReach(mem[k], data[k - off])
    ensures FinalAt(mem, off, data, i) == mem[i]
  {
    var s := i / 0x1_0000 * 0x1_0000;
    forall k: nat | s <= k < s + 0x1_0000 ensures !Stuck(mem, off, data, k) {
      if k < |mem| && off <= k < off + |data| { assert !OutOfReach(mem[k], data[k - off]); }
    }
  }

  /** One byte that needs a 0 turned into a 1 costs the rest of its sector. */
  lemma StuckByteBlanks(mem: seq<nat>, off: nat, data: seq<nat>, i: nat, k: nat)
    requires i < |mem| && !(off <= i < off + |data|) && Stuck(mem, off, data, k) && i / 0x1_0000 == k / 0x1_0000
    ensures FinalAt(mem, off, data, i) == 255
  {
    assert k / 0x1_0000 * 0x1_0000 <= k < k / 0x1_0000 * 0x1_0000 + 0x1_0000;
  }
}
