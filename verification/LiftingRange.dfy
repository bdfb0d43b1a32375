/** What the lifting transform does to magnitudes and to the bands of earlier levels, and an
    image that the uncorrected inverse does not restore. */
module LiftingRange {
  import opened LiftingSpec

  // ---- magnitudes ----

  ghost predicate Within(x: seq<int>, bound: int) {
    0 <= bound &&
    forall k | 0 <= k < |x| :: -bound <= x[k] <= bound
  }

  const INT_LIMIT := 0x8000_0000

  ghost predicate IsInt(v: int) { -INT_LIMIT <= v < INT_LIMIT }

  ghost predicate StepsFit(e: seq<int>, o: seq<int>, h: seq<int>, l: seq<int>)
    requires |e| == |o| == |h| == |l| > 0
  {
    (forall k | 0 <= k < |o| :: IsInt(e[k]) && IsInt(o[k]) && IsInt(h[k]) && IsInt(l[k])) &&
    (forall k | 0 < k < |o| :: IsInt(o[k - 1] + o[k])) &&
    (forall k | 0 <= k < |o| - 1 :: IsInt(h[k] + h[k + 1]) && IsInt(h[k] + h[k + 1] + 2)) &&
    IsInt(h[|o| - 1] + 1)
  }

  /** Every value a row's forward or inverse steps compute fits the machine's int. */
  ghost predicate NoOverflow(x: seq<int>)
    requires RowOk(false, |x|)
  {
    var e, o := Evens(x), Odds(x);
    var h := High(false, e, o);
    StepsFit(e, o, h, Low(h, o))
  }

  lemma PartsWithin(x: seq<int>, bound: int)
    requires |x| % 2 == 0 && Within(x, bound)
    ensures Within(Evens(x), bound) && Within(Odds(x), bound)
  {}

  lemma HighWithin(e: seq<int>, o: seq<int>, bound: int)
    requires |e| == |o| >= 2 && Within(e, bound) && Within(o, bound)
    ensures Within(High(false, e, o), 2 * bound)
  {
    forall k | 0 <= k < |o| ensures -bound <= Predict(false, o, k) <= bound {}
  }

  lemma LowWithin(h: seq<int>, o: seq<int>, bound: int)
    requires |h| == |o| && Within(h, 2 * bound) && Within(o, bound)
    ensures Within(Low(h, o), 2 * bound)
  {
    forall k | 0 <= k < |h| ensures -bound <= Update(h, k) <= bound {}
  }

  lemma StepsWithin(e: seq<int>, o: seq<int>, h: seq<int>, l: seq<int>, bound: int)
    requires |e| == |o| == |h| == |l| > 0 && Within(e, bound) && Within(o, bound)
    requires Within(h, 2 * bound) && Within(l, 2 * bound) && 4 * bound + 2 < INT_LIMIT
    ensures StepsFit(e, o, h, l)
  {}

  /** One pass over a row at most doubles the bound, and overflows nothing while 4*bound + 2 does not. */
  lemma RowWithin(x: seq<int>, bound: int)
    requires RowOk(false, |x|) && Within(x, bound)
    ensures Within(Fwd(false, x), 2 * bound)
    ensures 4 * bound + 2 < INT_LIMIT ==> NoOverflow(x)
  {
    var e, o := Evens(x), Odds(x);
    var h := High(false, e, o);
    var l := Low(h, o);
    PartsWithin(x, bound);
    HighWithin(e, o, bound);
    LowWithin(h, o, bound);
    if 4 * bound + 2 < INT_LIMIT { StepsWithin(e, o, h, l, bound); }
    JoinWithin(h, l, 2 * bound);
  }

  lemma JoinWithin(h: seq<int>, l: seq<int>, bound: int)
    requires Within(h, bound) && Within(l, bound)
    ensures Within(h + l, bound)
  {}

  lemma BlockRowWithin(m: seq<int>, b: Block, bound: int, r: int)
    requires b.Fits(|m|) && Within(m, bound) && 0 <= r < b.w
    ensures Within(Row(m, b, r), bound)
  {
    forall j | 0 <= j < b.w ensures -bound <= Row(m, b, r)[j] <= bound {
      IndexOf(b, |m|, r, j);
    }
  }

  lemma PassWithin(src: seq<int>, dst: seq<int>, b: Block, bound: int)
    requires RowOk(false, b.w) && SameShape(src, b, dst, b)
    requires Within(src, bound) && Within(dst, 2 * bound)
    ensures Within(Pass(false, src, b, dst, b), 2 * bound)
    ensures 4 * bound + 2 < INT_LIMIT ==> forall r | 0 <= r < b.w :: NoOverflow(Row(src, b, r))
  {
    forall r | 0 <= r < b.w
      ensures Within(Fwd(false, Row(src, b, r)), 2 * bound)
      ensures 4 * bound + 2 < INT_LIMIT ==> NoOverflow(Row(src, b, r))
    {
      BlockRowWithin(src, b, bound, r);
      RowWithin(Row(src, b, r), bound);
    }
    var full := Pass(false, src, b, dst, b);
    forall k | 0 <= k < |full| ensures -(2 * bound) <= full[k] <= 2 * bound {
      if b.In(k) {
        IndexBack(b, k);
        assert full[k] == Fwd(false, Row(src, b, b.ColOf(k)))[b.RowOf(k)];
      }
    }
  }

  function Pow4(k: nat): nat { if k == 0 then 1 else 4 * Pow4(k - 1) }

  /** After k levels every coefficient is within 4^k times the bound of the image. */
  lemma {:induction false} ForwardWithin(m: seq<int>, b: Block, lvls: nat, bound: int)
    requires LevelsOk(false, b, lvls, |m|) && Within(m, bound)
    ensures Within(Forward(false, m, b, lvls), Pow4(lvls) * bound)
  {
    if lvls > 0 {
      ForwardWithin(m, b, lvls - 1, bound);
      var before, q, c := Forward(false, m, b, lvls - 1), Pow4(lvls - 1) * bound, Nth(b, lvls - 1);
      PassWithin(before, before, c, q);
      PassWithin(Pass(false, before, c, before, c), before, c, 2 * q);
      assert Pow4(lvls) * bound == 2 * (2 * q);
    }
  }

  /** The image a level starts from and the one its second pass starts from. */
  function Halfway(m: seq<int>, b: Block, lvl: nat): (r: seq<int>)
    requires LevelsOk(false, b, lvl + 1, |m|)
    ensures |r| == |m|
  {
    var before := Forward(false, m, b, lvl);
    Pass(false, before, Nth(b, lvl), before, Nth(b, lvl))
  }

  lemma LevelFitsInt(before: seq<int>, c: Block, q: int, r: int)
    requires RowOk(false, c.w) && c.Fits(|before|) && Within(before, q) && 8 * q + 2 < INT_LIMIT && 0 <= r < c.w
    ensures NoOverflow(Row(before, c, r))
    ensures NoOverflow(Row(Pass(false, before, c, before, c), c, r))
  {
    PassWithin(before, before, c, q);
    PassWithin(Pass(false, before, c, before, c), before, c, 2 * q);
  }

  lemma LevelBound(m: seq<int>, b: Block, bound: int, lvl: nat) returns (q: int)
    requires LevelsOk(false, b, lvl, |m|) && Within(m, bound) && bound < 0x100_0000 && lvl < 3
    ensures Within(Forward(false, m, b, lvl), q) && 8 * q + 2 < INT_LIMIT
  {
    ForwardWithin(m, b, lvl, bound);
    q := Pow4(lvl) * bound;
    assert Pow4(0) == 1 && Pow4(1) == 4 && Pow4(2) == 16;
  }

  /** No step of the three-level transform leaves the 32-bit range if |m[k]| < 2^24. */
  lemma ThreeLevelsFitInt(m: seq<int>, b: Block, bound: int, lvl: nat, r: int)
    requires LevelsOk(false, b, 3, |m|) && Within(m, bound) && bound < 0x100_0000
    requires lvl < 3 && 0 <= r < Nth(b, lvl).w
    ensures NoOverflow(Row(Forward(false, m, b, lvl), Nth(b, lvl), r))
    ensures NoOverflow(Row(Halfway(m, b, lvl), Nth(b, lvl), r))
  {
    var q := LevelBound(m, b, bound, lvl);
    var before, c := Forward(false, m, b, lvl), Nth(b, lvl);
    LevelFitsInt(before, c, q, r);
  }

  // ---- bands ----

  lemma CornerCell(b: Block, i: int, j: int)
    requires b.w % 2 == 0
    ensures b.Corner().Index(i, j) == b.Index(b.w / 2 + i, b.w / 2 + j)
  {
    var n := b.w / 2;
    assert b.w * b.rb == 2 * (n * b.rb);
    assert (n + i) * b.rb == n * b.rb + i * b.rb;
  }

  lemma CornerInside(b: Block, len: nat, k: int)
    requires b.Fits(len) && b.w % 2 == 0 && b.Corner().In(k)
    ensures b.In(k) && b.w / 2 <= b.RowOf(k) && b.w / 2 <= b.ColOf(k)
  {
    var c, n := b.Corner(), b.w / 2;
    IndexBack(c, k);
    var i, j := c.RowOf(k), c.ColOf(k);
    CornerCell(b, i, j);
    IndexOf(b, len, n + i, n + j);
  }

  lemma LevelOutside(stale: bool, m: seq<int>, b: Block, k: int)
    requires RowOk(stale, b.w) && b.Fits(|m|) && 0 <= k < |m| && !b.In(k)
    ensures Level(stale, m, b)[k] == m[k]
  {}

  lemma ForwardOutside(stale: bool, m: seq<int>, b: Block, lvl: nat, k: int)
    requires LevelsOk(stale, b, lvl + 1, |m|) && 0 <= k < |m| && !Nth(b, lvl).In(k)
    ensures Forward(stale, m, b, lvl + 1)[k] == Forward(stale, m, b, lvl)[k]
  {
    LevelOutside(stale, Forward(stale, m, b, lvl), Nth(b, lvl), k);
  }

  lemma {:induction false} Nested(stale: bool, b: Block, len: nat, from: nat, lvl: nat, k: int)
    requires LevelsOk(stale, b, lvl + 1, len) && from <= lvl && !Nth(b, from).In(k)
    ensures !Nth(b, lvl).In(k)
  {
    if from < lvl {
      Nested(stale, b, len, from, lvl - 1, k);
      if Nth(b, lvl).In(k) { CornerInside(Nth(b, lvl - 1), len, k); }
    }
  }

  /** A cell outside the block of level `from` keeps the value that the first `from` levels gave it. */
  lemma {:induction false} BandsKept(stale: bool, m: seq<int>, b: Block, from: nat, lvls: nat, k: int)
    requires LevelsOk(stale, b, lvls, |m|) && from < lvls && 0 <= k < |m|
    requires !Nth(b, from).In(k)
    ensures Forward(stale, m, b, lvls)[k] == Forward(stale, m, b, from)[k]
  {
    Nested(stale, b, |m|, from, lvls - 1, k);
    ForwardOutside(stale, m, b, lvls - 1, k);
    if from < lvls - 1 { BandsKept(stale, m, b, from, lvls - 1, k); }
  }

  // ---- an image the uncorrected transform does not restore ----

  lemma LastHigh(stale: bool, x: seq<int>)
    requires RowOk(stale, |x|)
    ensures Fwd(stale, x)[|x| / 2 - 1]
         == x[|x| - 2] - (x[if stale then |x| - 5 else |x| - 3] + x[|x| - 1]) / 2
  {
    FwdParts(stale, x, Evens(x), Odds(x));
  }

  /** All zero but for a 2 in row w-2, column w-5. */
  function Spike(w: nat): (m: seq<int>)
    requires w >= 6
    ensures |m| == w * w
  {
    seq(w * w, k => if k == (w - 2) * w + (w - 5) then 2 else 0)
  }

  lemma SpikeRow(w: nat, r: int)
    requires w >= 6 && 0 <= r < w
    ensures Block(0, w, w).Fits(w * w)
    ensures Row(Spike(w), Block(0, w, w), r) == seq(w, j => if r == w - 2 && j == w - 5 then 2 else 0)
  {
    var b := Block(0, w, w);
    assert (w - 1) * w + w == w * w;
    forall j | 0 <= j < w
      ensures Row(Spike(w), b, r)[j] == if r == w - 2 && j == w - 5 then 2 else 0
    {
      IndexOf(b, w * w, r, j);
      IndexOf(b, w * w, w - 2, w - 5);
    }
  }

  /** The last high-pass sample of every row of the spike, after the first pass. */
  lemma SpikeHalf(stale: bool, w: nat, j: int)
    requires RowOk(stale, w) && w >= 6 && 0 <= j < w
    ensures Block(0, w, w).Fits(w * w)
    ensures var b := Block(0, w, w);
      Row(Pass(stale, Spike(w), b, Spike(w), b), b, w / 2 - 1)[j] == if stale && j == w - 2 then -1 else 0
  {
    SpikeRow(w, j);
    var b, m := Block(0, w, w), Spike(w);
    PassAt(stale, m, b, m, b, w / 2 - 1, j);
    LastHigh(stale, Row(m, b, j));
  }

  lemma LevelAt(stale: bool, m: seq<int>, b: Block, i: int)
    requires RowOk(stale, b.w) && b.Fits(|m|) && i == b.w / 2 - 1
    ensures 0 <= b.Index(i, i) < |m|
    ensures var x := Row(Pass(stale, m, b, m, b), b, i);
      Level(stale, m, b)[b.Index(i, i)]
      == x[b.w - 2] - (x[if stale then b.w - 5 else b.w - 3] + x[b.w - 1]) / 2
  {
    var t := Pass(stale, m, b, m, b);
    PassAt(stale, t, b, m, b, i, i);
    LastHigh(stale, Row(t, b, i));
  }

  lemma SpikeLevel(stale: bool, w: nat)
    requires RowOk(stale, w) && w >= 6
    ensures Block(0, w, w).Fits(w * w)
    ensures var k := Block(0, w, w).Index(w / 2 - 1, w / 2 - 1);
      0 <= k < w * w && Level(stale, Spike(w), Block(0, w, w))[k] == if stale then -1 else 0
  {
    hide Pass, Level, Spike, Row;
    SpikeRow(w, 0);
    var b, m := Block(0, w, w), Spike(w);
    LevelAt(stale, m, b, w / 2 - 1);
    SpikeHalf(stale, w, w - 1);
    SpikeHalf(stale, w, w - 2);
    SpikeHalf(stale, w, w - 3);
    SpikeHalf(stale, w, w - 5);
  }

  lemma CornerStart(b: Block, len: nat, i: int, j: int)
    requires b.Fits(len) && b.w % 2 == 0 && 0 <= i < b.w / 2 && 0 <= j < b.w
    ensures !b.Corner().In(b.Index(i, j))
  {
    IndexOf(b, len, i, j);
    if b.Corner().In(b.Index(i, j)) { CornerInside(b, len, b.Index(i, j)); }
  }

  /** As written, the transform and its inverse change this image, at every width they accept. */
  lemma AsWrittenNotIdentity(w: nat)
    requires w >= 6 && LevelsOk(true, Block(0, w, w), 3, w * w) && LevelsOk(false, Block(0, w, w), 3, w * w)
    ensures Inverse(true, Forward(false, Spike(w), Block(0, w, w), 3), Block(0, w, w), 3) != Spike(w)
  {
    var b, m := Block(0, w, w), Spike(w);
    assert Nth(b, 0) == b && Nth(b, 1) == b.Corner();
    var k := b.Index(w / 2 - 1, w / 2 - 1);
    CornerStart(b, w * w, w / 2 - 1, w / 2 - 1);
    SpikeLevel(true, w);
    SpikeLevel(false, w);
    BandsKept(true, m, b, 1, 3, k);
    BandsKept(false, m, b, 1, 3, k);
    assert Forward(true, m, b, 0) == m == Forward(false, m, b, 0);
    if Inverse(true, Forward(false, m, b, 3), b, 3) == m { SameCoefficients(m, b, 3); }
  }
}
