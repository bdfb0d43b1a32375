/** What the SDRAM does in terms of its pin levels alone: which row a bank has open, where a transfer
    goes, and which word a read has to bring. SdramSpec is proved to agree. */
module SdramPins {
  import opened SdramSpec

  predicate Opens(p: Pins, b: nat) { !p.csN && !p.rasN && p.casN && p.weN && p.bs == b }

  predicate Writes(p: Pins) { !p.csN && p.rasN && !p.casN && !p.weN }

  predicate Reads(p: Pins) { !p.csN && p.rasN && !p.casN && p.weN }

  /** Every command names one of the four banks. */
  ghost predicate Banked(h: seq<Pins>) {
    forall k | 0 <= k < |h| && (Writes(h[k]) || Reads(h[k])) :: h[k].bs < 4
  }

  predicate OpensAt(h: seq<Pins>, k: int, b: nat)
    requires 0 <= k < |h|
  {
    Opens(h[k], b)
  }

  /** Clock k opened row r of bank b, and no clock since opened another one. */
  ghost predicate OpenedBy(h: seq<Pins>, b: nat, r: nat, k: nat) {
    k < |h| && OpensAt(h, k, b) && h[k].addr == r && forall j | k < j < |h| :: !OpensAt(h, j, b)
  }

  /** Row r is open in bank b after the clocks h: opened last, or there from the start. */
  ghost predicate RowIs(row0: seq<nat>, h: seq<Pins>, b: nat, r: nat)
    requires |row0| == 4 && b < 4
  {
    (exists k: nat :: OpenedBy(h, b, r, k)) || (r == row0[b] && forall j | 0 <= j < |h| :: !OpensAt(h, j, b))
  }

  /** A transfer p after the clocks h starts at address x. */
  ghost predicate GoesTo(row0: seq<nat>, h: seq<Pins>, p: Pins, x: int)
    requires |row0| == 4
  {
    p.bs < 4 && exists r: nat :: RowIs(row0, h, p.bs, r) && x == (r * 4 + p.bs) * 512 + p.addr % 512
  }

  /** Clock k puts its word at x: the first word of a write, or the second one a clock later. */
  ghost predicate Stores(row0: seq<nat>, h: seq<Pins>, x: int, k: int)
    requires |row0| == 4 && 0 <= k < |h|
  {
    (Writes(h[k]) && GoesTo(row0, h[..k], h[k], x)) ||
    (k > 0 && Writes(h[k - 1]) && GoesTo(row0, h[..k - 1], h[k - 1], x - 1))
  }

  /** Address x holds what clock k put there. */
  ghost predicate StoredBy(row0: seq<nat>, h: seq<Pins>, x: int, w: int, k: nat)
    requires |row0| == 4
  {
    k < |h| && Stores(row0, h, x, k) && h[k].data == w && forall j | k < j < |h| :: !Stores(row0, h, x, j)
  }

  /** Address x holds the word w after the clocks h: stored last, or there from the start. */
  ghost predicate Contains(init: seq<int>, row0: seq<nat>, h: seq<Pins>, x: int, w: int)
    requires |row0| == 4
  {
    0 <= x < |init| &&
    ((exists k: nat :: StoredBy(row0, h, x, w, k)) || (init[x] == w && forall j | 0 <= j < |h| :: !Stores(row0, h, x, j)))
  }

  /** The read at clock k is of address x, and o places further the memory held w at that clock. */
  ghost predicate Brings(init: seq<int>, row0: seq<nat>, g: seq<Pins>, k: int, o: int, x: int, w: int)
    requires |row0| == 4 && 0 <= k < |g|
  {
    GoesTo(row0, g[..k], g[k], x) && Contains(init, row0, g[..k + 1], x + o, w)
  }

  ghost predicate ReadBrings(init: seq<int>, row0: seq<nat>, g: seq<Pins>, k: int, o: int, w: int)
    requires |row0| == 4 && 0 <= k < |g|
  {
    exists x: int :: Brings(init, row0, g, k, o, x, w)
  }

  /** What the bus has to carry at the newest clock of g: three clocks after a read the word that its
      address held then, and four clocks after it the next word. */
  ghost predicate Answers(result: int, init: seq<int>, row0: seq<nat>, g: seq<Pins>)
    requires |row0| == 4
  {
    var n := |g|;
    (n >= 4 && Reads(g[n - 4]) ==> ReadBrings(init, row0, g, n - 4, 0, result)) &&
    (n >= 5 && Reads(g[n - 5]) ==> ReadBrings(init, row0, g, n - 5, 1, result))
  }

  // ---- there is one row and one address ----

  lemma RowUnique(row0: seq<nat>, h: seq<Pins>, b: nat, r: nat, r': nat)
    requires |row0| == 4 && b < 4 && RowIs(row0, h, b, r) && RowIs(row0, h, b, r')
    ensures r == r'
  {
    if k: nat, k': nat :| OpenedBy(h, b, r, k) && OpenedBy(h, b, r', k') {
      assert k == k';
    }
  }

  lemma AddressUnique(row0: seq<nat>, h: seq<Pins>, p: Pins, x: int, x': int)
    requires |row0| == 4 && GoesTo(row0, h, p, x) && GoesTo(row0, h, p, x')
    ensures x == x'
  {
    var r: nat :| RowIs(row0, h, p.bs, r) && x == (r * 4 + p.bs) * 512 + p.addr % 512;
    var r': nat :| RowIs(row0, h, p.bs, r') && x' == (r' * 4 + p.bs) * 512 + p.addr % 512;
    RowUnique(row0, h, p.bs, r, r');
  }

  // ---- SdramSpec agrees ----

  lemma Kinds(p: Pins)
    ensures KindOf(p) == Activate <==> exists b: nat :: Opens(p, b)
    ensures KindOf(p) == Activate ==> Opens(p, p.bs)
    ensures (KindOf(p) == Write <==> Writes(p)) && (KindOf(p) == Read <==> Reads(p))
  {
    if KindOf(p) == Activate { assert Opens(p, p.bs); }
  }

  lemma {:induction false} RowAgrees(row0: seq<nat>, h: seq<Pins>, b: nat)
    requires |row0| == 4 && b < 4
    ensures RowIs(row0, h, b, RowOf(row0, h, b))
  {
    if h != [] {
      var n := |h| - 1;
      Kinds(h[n]);
      if Opens(h[n], b) {
        assert OpensAt(h, n, b) && OpenedBy(h, b, h[n].addr, n);
      } else {
        RowAgrees(row0, h[..n], b);
        assert !OpensAt(h, n, b);
        RowKept(row0, h, b, RowOf(row0, h[..n], b));
      }
    }
  }

  lemma RowKept(row0: seq<nat>, h: seq<Pins>, b: nat, r: nat)
    requires |row0| == 4 && b < 4 && h != [] && !OpensAt(h, |h| - 1, b) && RowIs(row0, h[..|h| - 1], b, r)
    ensures RowIs(row0, h, b, r)
  {
    var g := h[..|h| - 1];
    forall j | 0 <= j < |g| ensures OpensAt(h, j, b) == OpensAt(g, j, b) {}
    if k: nat :| OpenedBy(g, b, r, k) {
      assert OpensAt(g, k, b);
      forall j | k < j < |h| ensures !OpensAt(h, j, b) { if j < |g| { assert !OpensAt(g, j, b); } }
      assert OpenedBy(h, b, r, k);
    } else {
      forall j | 0 <= j < |h| ensures !OpensAt(h, j, b) { if j < |g| { assert !OpensAt(g, j, b); } }
    }
  }

  lemma TargetAgrees(row0: seq<nat>, h: seq<Pins>, p: Pins, x: int)
    requires |row0| == 4 && p.bs < 4
    ensures GoesTo(row0, h, p, x) <==> x == Target(row0, h, p)
  {
    hide RowIs, RowOf;
    var r := RowOf(row0, h, p.bs);
    RowAgrees(row0, h, p.bs);
    if GoesTo(row0, h, p, x) {
      var r': nat :| RowIs(row0, h, p.bs, r') && x == (r' * 4 + p.bs) * 512 + p.addr % 512;
      RowUnique(row0, h, p.bs, r, r');
    }
  }

  lemma StoresAgrees(row0: seq<nat>, h: seq<Pins>, x: nat, k: int)
    requires |row0| == 4 && 0 <= k < |h| && Banked(h)
    ensures Stores(row0, h, x, k) <==> PutsAt(row0, h, x, k)
  {
    hide GoesTo, Target, KindOf, Writes, Reads;
    var g := h[..k + 1];
    assert g[..k] == h[..k] && g[k] == h[k];
    Kinds(h[k]);
    if Writes(h[k]) { TargetAgrees(row0, h[..k], h[k], x); }
    if k > 0 {
      assert g[..k - 1] == h[..k - 1] && g[k - 1] == h[k - 1];
      Kinds(h[k - 1]);
      if Writes(h[k - 1]) { TargetAgrees(row0, h[..k - 1], h[k - 1], x - 1); }
    }
  }

  lemma BankedPrefix(h: seq<Pins>, n: nat)
    requires Banked(h) && n <= |h|
    ensures Banked(h[..n])
  {}

  /** The flat memory holds what was stored last. */
  lemma {:induction false} WordAgrees(init: seq<int>, row0: seq<nat>, h: seq<Pins>, x: nat)
    requires |row0| == 4 && x < |init| && Banked(h)
    ensures Contains(init, row0, h, x, WordAt(init, row0, h, x))
  {
    hide Stores, Puts;
    if h != [] {
      var n := |h| - 1;
      StoresAgrees(row0, h, x, n);
      assert h[..n + 1] == h;
      if Stores(row0, h, x, n) {
        assert StoredBy(row0, h, x, h[n].data, n);
      } else {
        BankedPrefix(h, n);
        WordAgrees(init, row0, h[..n], x);
        ContainsKept(init, row0, h, x, WordAt(init, row0, h[..n], x));
      }
    }
  }

  lemma ContainsKept(init: seq<int>, row0: seq<nat>, h: seq<Pins>, x: int, w: int)
    requires |row0| == 4 && h != [] && !Stores(row0, h, x, |h| - 1) && Contains(init, row0, h[..|h| - 1], x, w)
    ensures Contains(init, row0, h, x, w)
  {
    hide Stores;
    var g := h[..|h| - 1];
    forall j | 0 <= j < |g| ensures Stores(row0, h, x, j) == Stores(row0, g, x, j) { StoresPrefix(row0, h, x, j, |g|); }
    if k: nat :| StoredBy(row0, g, x, w, k) {
      assert StoredBy(row0, h, x, w, k);
    }
  }

  lemma StoresPrefix(row0: seq<nat>, h: seq<Pins>, x: int, j: int, n: nat)
    requires |row0| == 4 && 0 <= j < n <= |h|
    ensures Stores(row0, h, x, j) == Stores(row0, h[..n], x, j)
  {
    hide GoesTo;
    var g := h[..n];
    assert g[..j] == h[..j];
    if j > 0 { assert g[..j - 1] == h[..j - 1]; }
  }

  /** What the queue returns is what the pins ask for. */
  lemma ReturnedAnswers(result: int, init: seq<int>, row0: seq<nat>, g: seq<Pins>)
    requires |row0| == 4 && |init| == SIZE && Banked(g) && Returned(result, init, row0, g)
    ensures Answers(result, init, row0, g)
  {
    hide GoesTo, Contains, KindOf, Reads, WordAt, Target;
    var n := |g|;
    if n >= 4 {
      Kinds(g[n - 4]);
      if Reads(g[n - 4]) {
        var x := Target(row0, g[..n - 4], g[n - 4]);
        TargetAgrees(row0, g[..n - 4], g[n - 4], x);
        BankedPrefix(g, n - 3);
        WordAgrees(init, row0, g[..n - 3], x);
        assert Brings(init, row0, g, n - 4, 0, x, result);
      }
    }
    if n >= 5 {
      Kinds(g[n - 5]);
      if Reads(g[n - 5]) {
        var x := Target(row0, g[..n - 5], g[n - 5]);
        TargetAgrees(row0, g[..n - 5], g[n - 5], x);
        BankedPrefix(g, n - 4);
        WordAgrees(init, row0, g[..n - 4], x + 1);
        assert Brings(init, row0, g, n - 5, 1, x, result);
      }
    }
  }

  /** A word stored last at the address of a read, or at the one after it, is what the bus carries
      three clocks after the read, or four. */
  lemma ReadAfterWrite(result: int, init: seq<int>, row0: seq<nat>, g: seq<Pins>, o: nat, x: int, k: nat)
    requires |row0| == 4 && Answers(result, init, row0, g)
    requires o <= 1 && |g| >= 4 + o && Reads(g[|g| - 4 - o]) && GoesTo(row0, g[..|g| - 4 - o], g[|g| - 4 - o], x)
    requires k < |g| - 3 - o && StoredBy(row0, g[..|g| - 3 - o], x + o, g[k].data, k)
    ensures result == g[k].data
  {
    hide Stores, GoesTo;
    var n, h := |g| - 4 - o, g[..|g| - 3 - o];
    var x': int :| Brings(init, row0, g, n, o, x', result);
    AddressUnique(row0, g[..n], g[n], x, x');
    var k': nat :| StoredBy(row0, h, x + o, result, k');
    assert k == k';
  }
}
