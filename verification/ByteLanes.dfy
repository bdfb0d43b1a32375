/** The byte-select merge of sim/verilated/memsim.cpp on 32-bit words. */
module ByteLanes {

  /** The byte selects, bit 3 to bit 0 of `wb_sel`. */
  datatype Select = Select(b3: bool, b2: bool, b1: bool, b0: bool)

  /** The word with the selected byte lanes taken from `data`. */
  function Lanes(sel: Select, word: bv32, data: bv32): bv32 {
    Join(if sel.b3 then data else word, if sel.b2 then data else word,
         if sel.b1 then data else word, if sel.b0 then data else word)
  }

  /** One byte lane from each of four words. */
  function Join(w3: bv32, w2: bv32, w1: bv32, w0: bv32): bv32 {
    (w3 & 0xff00_0000) | (w2 & 0x00ff_0000) | (w1 & 0x0000_ff00) | (w0 & 0x0000_00ff)
  }

  /** Byte s of a word, the lowest first, and whether the selects pick it. */
  function Byte(w: bv32, s: nat): bv32 {
    match s
    case 0 => w & 0xff
    case 1 => (w >> 8) & 0xff
    case 2 => (w >> 16) & 0xff
    case _ => w >> 24
  }

  predicate Picks(sel: Select, s: nat) {
    match s
    case 0 => sel.b0
    case 1 => sel.b1
    case 2 => sel.b2
    case _ => sel.b3
  }

  /** Every byte of the merge is the data's if it is selected, and otherwise the word's. */
  lemma LanesByBytes(sel: Select, word: bv32, data: bv32, s: nat)
    ensures Byte(Lanes(sel, word, data), s) == if Picks(sel, s) then Byte(data, s) else Byte(word, s)
  {
    hide Byte, Join;
    JoinBytes(if sel.b3 then data else word, if sel.b2 then data else word,
              if sel.b1 then data else word, if sel.b0 then data else word, s);
  }

  lemma JoinBytes(w3: bv32, w2: bv32, w1: bv32, w0: bv32, s: nat)
    ensures Byte(Join(w3, w2, w1, w0), s) == Byte(match s case 0 => w0 case 1 => w1 case 2 => w2 case _ => w3, s)
  {
    hide Byte, Join;
    var x := Join(w3, w2, w1, w0);
    ByteAt(x, s);
    match s
    case 0 => JoinByte0(w3, w2, w1, w0); ByteAt(w0, 0);
    case 1 => JoinByte1(w3, w2, w1, w0); ByteAt(w1, 1);
    case 2 => JoinByte2(w3, w2, w1, w0); ByteAt(w2, 2);
    case _ => JoinByte3(w3, w2, w1, w0); ByteAt(w3, s);
  }

  lemma ByteAt(w: bv32, s: nat)
    ensures Byte(w, s) ==
      match s case 0 => w & 0xff case 1 => (w >> 8) & 0xff case 2 => (w >> 16) & 0xff case _ => w >> 24
  {}

  lemma JoinByte0(w3: bv32, w2: bv32, w1: bv32, w0: bv32)
    ensures Join(w3, w2, w1, w0) & 0xff == w0 & 0xff
  {}

  lemma JoinByte1(w3: bv32, w2: bv32, w1: bv32, w0: bv32)
    ensures (Join(w3, w2, w1, w0) >> 8) & 0xff == (w1 >> 8) & 0xff
  {}

  lemma JoinByte2(w3: bv32, w2: bv32, w1: bv32, w0: bv32)
    ensures (Join(w3, w2, w1, w0) >> 16) & 0xff == (w2 >> 16) & 0xff
  {}

  lemma JoinByte3(w3: bv32, w2: bv32, w1: bv32, w0: bv32)
    ensures Join(w3, w2, w1, w0) >> 24 == w3 >> 24
  {}

  /** A word is its four bytes. */
  lemma BytesDecide(x: bv32, y: bv32)
    requires Byte(x, 0) == Byte(y, 0) && Byte(x, 1) == Byte(y, 1) && Byte(x, 2) == Byte(y, 2) && Byte(x, 3) == Byte(y, 3)
    ensures x == y
  {}

  /** `memv &= ~sel; memv |= data & sel`. */
  function Blend(word: bv32, data: bv32, mask: bv32): bv32 { (word & !mask) | (data & mask) }

  /** What the mask of the selects is on one byte lane c. */
  predicate Covers(mask: bv32, c: bv32, b: bool) { mask & c == if b then c else 0 }

  /** Two words agree on the lane c. */
  predicate Agree(x: bv32, y: bv32, c: bv32) { x & c == y & c }

  lemma Covered(word: bv32, data: bv32, mask: bv32, c: bv32)
    requires Covers(mask, c, true)
    ensures Agree(Blend(word, data, mask), data, c)
  {}

  lemma Uncovered(word: bv32, data: bv32, mask: bv32, c: bv32)
    requires Covers(mask, c, false)
    ensures Agree(Blend(word, data, mask), word, c)
  {}

  lemma Lane(word: bv32, data: bv32, mask: bv32, c: bv32, b: bool)
    requires Covers(mask, c, b)
    ensures Agree(Blend(word, data, mask), if b then data else word, c)
  {
    hide Covers, Agree, Blend;
    if b { Covered(word, data, mask, c); } else { Uncovered(word, data, mask, c); }
  }

  lemma Assemble(x: bv32, w3: bv32, w2: bv32, w1: bv32, w0: bv32)
    requires Agree(x, w3, 0xff00_0000) && Agree(x, w2, 0x00ff_0000)
    requires Agree(x, w1, 0x0000_ff00) && Agree(x, w0, 0x0000_00ff)
    ensures x == Join(w3, w2, w1, w0)
  {}

  /** Masking with the bits that the selects pick merges lane by lane. */
  lemma MaskMerges(sel: Select, word: bv32, data: bv32, mask: bv32)
    requires Covers(mask, 0xff00_0000, sel.b3) && Covers(mask, 0x00ff_0000, sel.b2)
    requires Covers(mask, 0x0000_ff00, sel.b1) && Covers(mask, 0x0000_00ff, sel.b0)
    ensures Blend(word, data, mask) == Lanes(sel, word, data)
  {
    hide Covers, Agree, Blend, Join;
    Lane(word, data, mask, 0xff00_0000, sel.b3);
    Lane(word, data, mask, 0x00ff_0000, sel.b2);
    Lane(word, data, mask, 0x0000_ff00, sel.b1);
    Lane(word, data, mask, 0x0000_00ff, sel.b0);
    Assemble(Blend(word, data, mask), if sel.b3 then data else word, if sel.b2 then data else word,
             if sel.b1 then data else word, if sel.b0 then data else word);
  }

  lemma FullMask(word: bv32, data: bv32)
    ensures Blend(word, data, 0xffff_ffff) == data
  {}

  method SelectMask(sel: Select) returns (mask: bv32)
    ensures Covers(mask, 0xff00_0000, sel.b3) && Covers(mask, 0x00ff_0000, sel.b2)
    ensures Covers(mask, 0x0000_ff00, sel.b1) && Covers(mask, 0x0000_00ff, sel.b0)
  {
    mask := 0;
    if sel.b3 { mask := mask | 0xff00_0000; }
    if sel.b2 { mask := mask | 0x00ff_0000; }
    if sel.b1 { mask := mask | 0x0000_ff00; }
    if sel.b0 { mask := mask | 0x0000_00ff; }
  }

  /** The write path of `apply`: the mask of the selects is applied, or skipped when full. */
  method Merge(sel: Select, word: bv32, data: bv32) returns (memv: bv32)
    ensures memv == Lanes(sel, word, data)
  {
    hide Lanes, Covers, Blend;
    var mask := SelectMask(sel);
    MaskMerges(sel, word, data, mask);
    FullMask(word, data);
    if mask == 0xffff_ffff {
      memv := data;
    } else {
      memv := Blend(word, data, mask);
    }
  }
}
