/** Which word the bus memory of sim/verilated/memsim.cpp answers with, byte by byte and from the
    calls alone: the byte stored last at the address, or the one that was there from the start. */
module MemLaws {
  import opened ByteLanes
  import opened Wrappers
  import opened MemSpec

  /** Call k stores byte s of address a, in a memory of n words. */
  predicate StoresAt(h: seq<Request>, n: nat, a: nat, s: nat, k: int)
    requires n > 0 && 0 <= k < |h|
  {
    h[k].cyc && h[k].stb && h[k].we && h[k].addr % n == a && Picks(h[k].sel, s)
  }

  ghost predicate StoredBy(h: seq<Request>, n: nat, a: nat, s: nat, v: bv32, k: nat)
    requires n > 0
  {
    k < |h| && StoresAt(h, n, a, s, k) && v == Byte(h[k].data, s) && forall j | k < j < |h| :: !StoresAt(h, n, a, s, j)
  }

  /** After the calls h, byte s of address a is v. */
  ghost predicate Contains(init: seq<bv32>, h: seq<Request>, a: nat, s: nat, v: bv32) {
    a < |init| &&
    ((exists k: nat :: StoredBy(h, |init|, a, s, v, k)) ||
     (v == Byte(init[a], s) && forall j | 0 <= j < |h| :: !StoresAt(h, |init|, a, s, j)))
  }

  /** The word w answers call i: its four bytes at that call's address, the call's own store included. */
  ghost predicate Answers(init: seq<bv32>, h: seq<Request>, i: nat, w: bv32) {
    i < |h| && init != [] && forall s: nat | s < 4 :: Contains(init, h[..i + 1], h[i].addr % |init|, s, Byte(w, s))
  }

  lemma {:induction false} WordContains(init: seq<bv32>, h: seq<Request>, a: nat, s: nat)
    requires a < |init|
    ensures Contains(init, h, a, s, Byte(WordAt(init, h, a), s))
  {
    hide Lanes, Byte, Picks;
    if h != [] {
      var n := |h| - 1;
      var g, r := h[..n], h[n];
      WordContains(init, g, a, s);
      LanesByBytes(r.sel, WordAt(init, g, a), r.data, s);
      if StoresAt(h, |init|, a, s, n) {
        assert StoredBy(h, |init|, a, s, Byte(r.data, s), n);
      } else {
        ContainsKept(init, h, a, s, Byte(WordAt(init, g, a), s));
      }
    }
  }

  lemma ContainsKept(init: seq<bv32>, h: seq<Request>, a: nat, s: nat, v: bv32)
    requires h != [] && a < |init| && !StoresAt(h, |init|, a, s, |h| - 1) && Contains(init, h[..|h| - 1], a, s, v)
    ensures Contains(init, h, a, s, v)
  {
    hide Byte, Picks;
    var g, n := h[..|h| - 1], |init|;
    forall j | 0 <= j < |g| ensures StoresAt(h, n, a, s, j) == StoresAt(g, n, a, s, j) {}
    if k: nat :| StoredBy(g, n, a, s, v, k) {
      assert StoredBy(h, n, a, s, v, k);
    }
  }

  /** What the model replies is that word. */
  lemma ReplyAnswers(init: seq<bv32>, h: seq<Request>, i: nat)
    requires i < |h| && init != []
    ensures Reply(init, h, i).Some? <==> h[i].cyc && h[i].stb
    ensures Reply(init, h, i).Some? ==> Answers(init, h, i, Reply(init, h, i).value)
  {
    hide Contains, WordAt, Byte;
    if Reply(init, h, i).Some? {
      var g, a, w := h[..i + 1], h[i].addr % |init|, Reply(init, h, i).value;
      forall s: nat | s < 4 ensures Contains(init, g, a, s, Byte(w, s)) { WordContains(init, g, a, s); }
    }
  }

  /** Only one word answers. */
  lemma AnswerUnique(init: seq<bv32>, h: seq<Request>, i: nat, w: bv32, w': bv32)
    requires Answers(init, h, i, w) && Answers(init, h, i, w')
    ensures w == w'
  {
    hide Byte, StoresAt;
    var a := h[i].addr % |init|;
    forall s: nat | s < 4 ensures Byte(w, s) == Byte(w', s) {
      ByteUnique(init, h[..i + 1], a, s, Byte(w, s), Byte(w', s));
    }
    BytesDecide(w, w');
  }

  lemma ByteUnique(init: seq<bv32>, h: seq<Request>, a: nat, s: nat, v: bv32, v': bv32)
    requires Contains(init, h, a, s, v) && Contains(init, h, a, s, v')
    ensures v == v'
  {
    hide Byte, StoresAt;
    if k: nat, k': nat :| StoredBy(h, |init|, a, s, v, k) && StoredBy(h, |init|, a, s, v', k') {
      assert k == k';
    }
  }

  /** Call k asks for and writes address a. */
  predicate Touches(h: seq<Request>, n: nat, a: nat, k: int)
    requires n > 0 && 0 <= k < |h|
  {
    h[k].cyc && h[k].stb && h[k].we && h[k].addr % n == a
  }

  /** Read after write: a call answers with the word that was written last at its address, if all of
      it was; a write answers with its own word. */
  lemma ReadAfterWrite(init: seq<bv32>, h: seq<Request>, k: nat, i: nat, w: bv32)
    requires k <= i && Answers(init, h, i, w) && h[k].sel == Select(true, true, true, true)
    requires var a := h[i].addr % |init|;
      Touches(h, |init|, a, k) && forall j | k < j <= i :: !Touches(h, |init|, a, j)
    ensures w == h[k].data
  {
    hide Byte;
    var a, g := h[i].addr % |init|, h[..i + 1];
    forall s: nat | s < 4 ensures Byte(w, s) == Byte(h[k].data, s) {
      forall j | k < j < |g| ensures !StoresAt(g, |init|, a, s, j) { assert !Touches(h, |init|, a, j); }
      assert StoredBy(g, |init|, a, s, Byte(h[k].data, s), k);
      ByteUnique(init, g, a, s, Byte(w, s), Byte(h[k].data, s));
    }
    BytesDecide(w, h[k].data);
  }

  /** A call answers with the initial word if nothing was written at its address. */
  lemma NeverWritten(init: seq<bv32>, h: seq<Request>, i: nat, w: bv32)
    requires Answers(init, h, i, w)
    requires forall j | 0 <= j <= i :: !Touches(h, |init|, h[i].addr % |init|, j)
    ensures w == init[h[i].addr % |init|]
  {
    hide Byte;
    var a, g := h[i].addr % |init|, h[..i + 1];
    forall s: nat | s < 4 ensures Byte(w, s) == Byte(init[a], s) {
      forall j | 0 <= j < |g| ensures !StoresAt(g, |init|, a, s, j) { assert !Touches(h, |init|, a, j); }
      ByteUnique(init, g, a, s, Byte(w, s), Byte(init[a], s));
    }
    BytesDecide(w, init[a]);
  }
}
