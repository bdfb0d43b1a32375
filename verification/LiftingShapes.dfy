/** What the forward transform of sw/board/lifting.c makes of plain images: the formulas of a row
    sample by sample, ramps, and the flat image under all three levels. */
module LiftingShapes {
  import opened LiftingSpec
  import opened LiftingRange
  import opened LiftingAsWritten
  import opened Lifting

  /** Coefficient k of each half of a row, from the samples. */
  lemma FwdFormulas(x: seq<int>, k: nat)
    requires RowOk(false, |x|) && k < |x| / 2
    ensures var n, y := |x| / 2, Fwd(false, x);
      y[k] == (if k == 0 then x[0] - x[1] else x[2 * k] - (x[2 * k - 1] + x[2 * k + 1]) / 2) &&
      y[n + k] == x[2 * k + 1] + (if k == n - 1 then (y[k] + 1) / 8 else (y[k] + y[k + 1] + 2) / 4)
  {
    var hi, lo := FwdHalves(x);
    assert HalfAt(|x| / 2, x, hi, lo, k);
  }

  /** A row that rises by s a sample has no detail but at its left edge; the rest is its odd samples. */
  lemma RampRow(x: seq<int>, a: int, s: int, k: nat)
    requires RowOk(false, |x|) && k < |x| / 2 && forall j | 0 <= j < |x| :: x[j] == a + s * j
    ensures Fwd(false, x)[k] == if k == 0 then -s else 0
    ensures k > 0 ==> Fwd(false, x)[|x| / 2 + k] == x[2 * k + 1]
    ensures s == 0 ==> Fwd(false, x)[|x| / 2 + k] == a
  {
    hide Fwd;
    RampDetail(x, a, s, k);
    if k + 1 < |x| / 2 { RampDetail(x, a, s, k + 1); }
    FwdFormulas(x, k);
  }

  lemma RampDetail(x: seq<int>, a: int, s: int, k: nat)
    requires RowOk(false, |x|) && k < |x| / 2 && forall j | 0 <= j < |x| :: x[j] == a + s * j
    ensures Fwd(false, x)[k] == if k == 0 then -s else 0
  {
    hide Fwd;
    FwdFormulas(x, k);
    if k > 0 {
      assert x[2 * k - 1] == a + s * (2 * k - 1) && x[2 * k] == a + s * (2 * k) && x[2 * k + 1] == a + s * (2 * k + 1);
      assert s * (2 * k - 1) + s * (2 * k + 1) == 2 * (s * (2 * k));
    } else {
      assert x[0] == a + s * 0 && x[1] == a + s * 1;
    }
  }

  /** Nothing but v in the block. */
  ghost predicate Flat(m: seq<int>, b: Block, v: int)
    requires b.Fits(|m|)
  {
    forall i, j | 0 <= i < b.w && 0 <= j < b.w :: CellIs(m, b, i, j, v)
  }

  ghost predicate CellIs(m: seq<int>, b: Block, i: int, j: int, v: int) {
    0 <= b.Index(i, j) < |m| && m[b.Index(i, j)] == v
  }

  /** The coefficients of a flat row. */
  lemma FlatRow(x: seq<int>, v: int, k: int)
    requires RowOk(false, |x|) && 0 <= k < |x| && forall j | 0 <= j < |x| :: x[j] == v
    ensures Fwd(false, x)[k] == if k < |x| / 2 then 0 else v
  {
    hide Fwd;
    assert forall j | 0 <= j < |x| :: x[j] == v + 0 * j;
    RampRow(x, v, 0, if k < |x| / 2 then k else k - |x| / 2);
  }

  lemma FlatBlockRow(m: seq<int>, b: Block, v: int, r: int)
    requires b.Fits(|m|) && Flat(m, b, v) && 0 <= r < b.w
    ensures forall j | 0 <= j < b.w :: Row(m, b, r)[j] == v
  {
    forall j | 0 <= j < b.w ensures Row(m, b, r)[j] == v { assert CellIs(m, b, r, j, v); }
  }

  /** One level of a flat block: the value in the low corner and zeros around it. */
  lemma FlatCell(m: seq<int>, b: Block, v: int, i: int, j: int)
    requires RowOk(false, b.w) && b.Fits(|m|) && Flat(m, b, v) && 0 <= i < b.w && 0 <= j < b.w
    ensures 0 <= b.Index(i, j) < |m|
    ensures Level(false, m, b)[b.Index(i, j)] == if i < b.w / 2 || j < b.w / 2 then 0 else v
  {
    hide Fwd, Row, Pass, Level, Flat;
    LevelCell(false, m, b, i, j);
    var y := FirstRow(false, m, b, j);
    var u := if j < b.w / 2 then 0 else v;
    forall r | 0 <= r < b.w ensures y[r] == u {
      FirstRowAt(false, m, b, j, r);
      FlatBlockRow(m, b, v, r);
      FlatRow(Row(m, b, r), v, j);
    }
    FlatRow(y, u, i);
  }

  lemma FlatLevel(m: seq<int>, b: Block, v: int)
    requires RowOk(false, b.w) && b.Fits(|m|) && Flat(m, b, v) && b.Corner().Fits(|m|)
    ensures Flat(Level(false, m, b), b.Corner(), v)
    ensures forall k | 0 <= k < |m| && b.In(k) && !b.Corner().In(k) :: Level(false, m, b)[k] == 0
    ensures forall k | 0 <= k < |m| && !b.In(k) :: Level(false, m, b)[k] == m[k]
  {
    hide Level, Flat;
    var c, r, n := b.Corner(), Level(false, m, b), b.w / 2;
    forall i, j | 0 <= i < c.w && 0 <= j < c.w ensures CellIs(r, c, i, j, v) {
      FlatCell(m, b, v, n + i, n + j);
      CornerCell(b, i, j);
    }
    FlatHolds(r, c, v);
    forall k | 0 <= k < |m| && b.In(k) && !c.In(k) ensures r[k] == 0 {
      IndexBack(b, k);
      FlatCell(m, b, v, b.RowOf(k), b.ColOf(k));
      if b.RowOf(k) >= n && b.ColOf(k) >= n {
        CornerCell(b, b.RowOf(k) - n, b.ColOf(k) - n);
        IndexOf(c, |m|, b.RowOf(k) - n, b.ColOf(k) - n);
      }
    }
    forall k | 0 <= k < |m| && !b.In(k) ensures r[k] == m[k] { LevelOutside(false, m, b, k); }
  }

  lemma FlatHolds(m: seq<int>, b: Block, v: int)
    requires b.Fits(|m|) && forall i, j | 0 <= i < b.w && 0 <= j < b.w :: CellIs(m, b, i, j, v)
    ensures Flat(m, b, v)
  {}

  /** The three levels of a flat image leave its value in the corner of an eighth of the width, and
      zeros in the rest of the image. */
  lemma FlatImage(m: seq<int>, w: nat, v: int)
    requires w % 8 == 0 && w >= 16 && w * w <= |m| && Flat0(m, w, v)
    ensures ThreeFit(false, w, |m|)
    ensures var small := Third(w).Corner();
      small.w == w / 8 &&
      forall k | 0 <= k < |m| && Block(0, w, w).In(k) :: Coded(m, w)[k] == if small.In(k) then v else 0
  {
    hide Level, Flat, Block.Fits, Block.In;
    var b0, b1, b2 := Block(0, w, w), Second(w), Third(w);
    ThreeForward(true, m, w);
    ThreeCorners(w);
    CornersNest(w, |m|);
    FlatStart(m, w, v);
    var m1 := Level(false, m, b0);
    var m2 := Level(false, m1, b1);
    FlatLevel(m, b0, v);
    FlatLevel(m1, b1, v);
    FlatLevel(m2, b2, v);
    assert Coded(m, w) == Level(false, m2, b2);
    forall k | 0 <= k < |m| && b0.In(k) ensures Coded(m, w)[k] == if b2.Corner().In(k) then v else 0 {
      Within(b1, |m|, k);
      Within(b2, |m|, k);
      if b2.Corner().In(k) { FlatAt(Coded(m, w), b2.Corner(), v, k); }
    }
  }

  ghost predicate Flat0(m: seq<int>, w: nat, v: int)
    requires w * w <= |m|
  {
    forall k | 0 <= k < w * w :: m[k] == v
  }

  lemma FlatStart(m: seq<int>, w: nat, v: int)
    requires w > 0 && w * w <= |m| && Flat0(m, w, v)
    ensures Block(0, w, w).Fits(|m|) && Flat(m, Block(0, w, w), v)
  {
    var b := Block(0, w, w);
    assert (w - 1) * w + w == w * w;
    forall i, j | 0 <= i < w && 0 <= j < w ensures CellIs(m, b, i, j, v) { IndexOf(b, w * w, i, j); }
  }

  lemma FlatAt(m: seq<int>, b: Block, v: int, k: int)
    requires b.Fits(|m|) && Flat(m, b, v) && 0 <= k < |m| && b.In(k)
    ensures m[k] == v
  {
    IndexBack(b, k);
    assert CellIs(m, b, b.RowOf(k), b.ColOf(k), v);
  }

  /** A corner's corner lies in the corner. */
  lemma Within(b: Block, len: nat, k: int)
    requires b.Fits(len) && b.w % 2 == 0 && b.w > 0 && b.rb > 0
    ensures b.Corner().rb == b.rb
    ensures b.Corner().In(k) ==> b.In(k)
  {
    if b.Corner().In(k) { CornerInside(b, len, k); }
  }

  lemma CornersNest(w: nat, len: nat)
    requires w % 8 == 0 && w >= 16 && w * w <= len
    ensures Block(0, w, w).Corner() == Second(w) && Second(w).Corner() == Third(w) && Third(w).Corner().w == w / 8
    ensures Block(0, w, w).Fits(len) && Second(w).Fits(len) && Third(w).Fits(len) && Third(w).Corner().Fits(len)
  {
    hide Block.Fits;
    SquareFits(w, len);
    Eighths(w);
    assert w / 2 / 2 == w / 4 && w / 4 / 2 == w / 8;
    CornerFits(Block(0, w, w), len);
    CornerFits(Second(w), len);
    CornerFits(Third(w), len);
  }
}
