/** The lifting transform of sw/board/lifting.c as mathematics: one row, one transposing
    pass over a strided sub-image, one level (two passes), and any number of nested levels.

    Every transform takes a flag `stale`. With `stale == false` the last high-pass sample is
    predicted from both of its neighbours; this is what `singlelift` computes and what `ilift`
    is meant to undo. With `stale == true` the left neighbour is replaced by the odd sample
    before it, which is what `ilift` undoes as it is written: its tail never moves `d` into `b`.
    A shift right by s is division by 2^s rounded towards minus infinity. */
module LiftingSpec {
  import Bits

  // ---- one row ----

  ghost predicate RowOk(stale: bool, w: int) {
    w % 2 == 0 && (if stale then 6 else 4) <= w
  }

  function Evens(x: seq<int>): (e: seq<int>)
    ensures |e| == |x| / 2
  {
    seq(|x| / 2, k requires 0 <= k < |x| / 2 => x[2 * k])
  }

  function Odds(x: seq<int>): (o: seq<int>)
    ensures |o| == |x| / 2
  {
    seq(|x| / 2, k requires 0 <= k < |x| / 2 => x[2 * k + 1])
  }

  function Zip(e: seq<int>, o: seq<int>): (x: seq<int>)
    requires |e| == |o|
    ensures |x| == 2 * |e|
  {
    seq(2 * |e|, i requires 0 <= i < 2 * |e| => if i % 2 == 0 then e[i / 2] else o[i / 2])
  }

  lemma ZipAt(e: seq<int>, o: seq<int>, k: int)
    requires |e| == |o| && 0 <= k < |e|
    ensures Zip(e, o)[2 * k] == e[k] && Zip(e, o)[2 * k + 1] == o[k]
  {
    assert (2 * k) / 2 == k && (2 * k + 1) / 2 == k;
  }

  lemma SplitZip(e: seq<int>, o: seq<int>)
    requires |e| == |o|
    ensures Evens(Zip(e, o)) == e && Odds(Zip(e, o)) == o
  {
    var x := Zip(e, o);
    forall k {:trigger Evens(x)[k]} {:trigger Odds(x)[k]} | 0 <= k < |e|
      ensures Evens(x)[k] == e[k] && Odds(x)[k] == o[k]
    {
      ZipAt(e, o, k);
    }
  }

  lemma ZipSplit(x: seq<int>)
    requires |x| % 2 == 0
    ensures Zip(Evens(x), Odds(x)) == x
  {}

  /** What the odd samples predict for even sample k. */
  function Predict(stale: bool, o: seq<int>, k: int): int
    requires (if stale then 3 else 2) <= |o| && 0 <= k < |o|
  {
    if k == 0 then o[0]
    else if stale && k == |o| - 1 then (o[k - 2] + o[k]) / 2
    else (o[k - 1] + o[k]) / 2
  }

  /** What the high-pass samples add to odd sample k. */
  function Update(h: seq<int>, k: int): int
    requires 0 <= k < |h|
  {
    if k == |h| - 1 then (h[k] + 1) / 8 else (h[k] + h[k + 1] + 2) / 4
  }

  function Predictions(stale: bool, o: seq<int>): (p: seq<int>)
    requires (if stale then 3 else 2) <= |o|
    ensures |p| == |o|
  {
    seq(|o|, k requires 0 <= k < |o| => Predict(stale, o, k))
  }

  function Updates(h: seq<int>): (u: seq<int>)
    ensures |u| == |h|
  {
    seq(|h|, k requires 0 <= k < |h| => Update(h, k))
  }

  function Plus(a: seq<int>, b: seq<int>): (c: seq<int>)
    requires |a| == |b|
    ensures |c| == |a|
  {
    seq(|a|, k requires 0 <= k < |a| => a[k] + b[k])
  }

  function Minus(a: seq<int>, b: seq<int>): (c: seq<int>)
    requires |a| == |b|
    ensures |c| == |a|
  {
    seq(|a|, k requires 0 <= k < |a| => a[k] - b[k])
  }

  lemma PlusMinus(a: seq<int>, b: seq<int>)
    requires |a| == |b|
    ensures Plus(Minus(a, b), b) == a && Minus(Plus(a, b), b) == a
  {}

  function High(stale: bool, e: seq<int>, o: seq<int>): (h: seq<int>)
    requires |e| == |o| >= (if stale then 3 else 2)
    ensures |h| == |o|
  {
    Minus(e, Predictions(stale, o))
  }

  function Low(h: seq<int>, o: seq<int>): (l: seq<int>)
    requires |h| == |o|
    ensures |l| == |o|
  {
    Plus(o, Updates(h))
  }

  /** The coefficients of a row: high-pass half first, low-pass half second. */
  function Fwd(stale: bool, x: seq<int>): (y: seq<int>)
    requires RowOk(stale, |x|)
    ensures |y| == |x|
  {
    var h := High(stale, Evens(x), Odds(x));
    h + Low(h, Odds(x))
  }

  function InvOdds(h: seq<int>, l: seq<int>): (o: seq<int>)
    requires |h| == |l|
    ensures |o| == |h|
  {
    Minus(l, Updates(h))
  }

  function InvEvens(stale: bool, h: seq<int>, o: seq<int>): (e: seq<int>)
    requires |h| == |o| >= (if stale then 3 else 2)
    ensures |e| == |h|
  {
    Plus(h, Predictions(stale, o))
  }

  function Inv(stale: bool, y: seq<int>): (x: seq<int>)
    requires RowOk(stale, |y|)
    ensures |x| == |y|
  {
    var h, l := y[..|y| / 2], y[|y| / 2..];
    var o := InvOdds(h, l);
    Zip(InvEvens(stale, h, o), o)
  }

  lemma LiftUnlift(stale: bool, e: seq<int>, o: seq<int>)
    requires |e| == |o| >= (if stale then 3 else 2)
    ensures var h := High(stale, e, o);
      InvOdds(h, Low(h, o)) == o && InvEvens(stale, h, o) == e
  {
    PlusMinus(o, Updates(High(stale, e, o)));
    PlusMinus(e, Predictions(stale, o));
  }

  lemma UnliftLift(stale: bool, h: seq<int>, l: seq<int>)
    requires |h| == |l| >= (if stale then 3 else 2)
    ensures var o := InvOdds(h, l);
      High(stale, InvEvens(stale, h, o), o) == h && Low(h, o) == l
  {
    PlusMinus(h, Predictions(stale, InvOdds(h, l)));
    PlusMinus(l, Updates(h));
  }

  lemma FwdParts(stale: bool, x: seq<int>, e: seq<int>, o: seq<int>)
    requires RowOk(stale, |x|) && Evens(x) == e && Odds(x) == o
    ensures Fwd(stale, x) == High(stale, e, o) + Low(High(stale, e, o), o)
  {}

  lemma InvParts(stale: bool, y: seq<int>, h: seq<int>, l: seq<int>)
    requires RowOk(stale, |y|) && y == h + l && |h| == |l|
    ensures Inv(stale, y) == Zip(InvEvens(stale, h, InvOdds(h, l)), InvOdds(h, l))
  {
    assert y[..|y| / 2] == h && y[|y| / 2..] == l;
  }

  lemma InvFwd(stale: bool, x: seq<int>)
    requires RowOk(stale, |x|)
    ensures Inv(stale, Fwd(stale, x)) == x
  {
    var e, o := Evens(x), Odds(x);
    var h := High(stale, e, o);
    InvParts(stale, Fwd(stale, x), h, Low(h, o));
    LiftUnlift(stale, e, o);
    ZipSplit(x);
  }

  lemma FwdInv(stale: bool, y: seq<int>)
    requires RowOk(stale, |y|)
    ensures Fwd(stale, Inv(stale, y)) == y
  {
    var h, l := y[..|y| / 2], y[|y| / 2..];
    var o := InvOdds(h, l);
    var e := InvEvens(stale, h, o);
    InvParts(stale, y, h, l);
    SplitZip(e, o);
    FwdParts(stale, Zip(e, o), e, o);
    UnliftLift(stale, h, l);
  }

  /** What the stale tap adds to sample w-2 of a row. */
  function TapError(x: seq<int>): int
    requires RowOk(true, |x|)
  {
    (x[|x| - 5] + x[|x| - 1]) / 2 - (x[|x| - 3] + x[|x| - 1]) / 2
  }

  /** `ilift` as written, applied to what `singlelift` made of a row, returns the row with
      exactly one sample changed, by exactly TapError. */
  lemma StaleInvOfFwd(x: seq<int>)
    requires RowOk(true, |x|)
    ensures Inv(true, Fwd(false, x)) == x[|x| - 2 := x[|x| - 2] + TapError(x)]
  {
    var e, o := Evens(x), Odds(x);
    var h := High(false, e, o);
    var e' := InvEvens(true, h, o);
    assert Inv(true, Fwd(false, x)) == Zip(e', o) by {
      InvParts(true, Fwd(false, x), h, Low(h, o));
      LiftUnlift(false, e, o);
    }
    assert e' == e[|e| - 1 := x[|x| - 2] + TapError(x)] by {
      StaleEvens(e, o);
      TapErrorIs(x);
    }
    ZipUpdate(x, |e| - 1, x[|x| - 2] + TapError(x));
  }

  lemma StaleEvens(e: seq<int>, o: seq<int>)
    requires |e| == |o| >= 3
    ensures var n := |o|;
      InvEvens(true, High(false, e, o), o)
      == e[n - 1 := e[n - 1] + (Predict(true, o, n - 1) - Predict(false, o, n - 1))]
  {
    var n, p, q := |o|, Predictions(false, o), Predictions(true, o);
    assert forall k | 0 <= k < n - 1 :: p[k] == q[k];
  }

  lemma TapErrorIs(x: seq<int>)
    requires RowOk(true, |x|)
    ensures var o, n := Odds(x), |x| / 2;
      TapError(x) == Predict(true, o, n - 1) - Predict(false, o, n - 1) && Evens(x)[n - 1] == x[|x| - 2]
  {}

  lemma ZipUpdate(x: seq<int>, k: int, v: int)
    requires |x| % 2 == 0 && 0 <= k < |x| / 2
    ensures Zip(Evens(x)[k := v], Odds(x)) == x[2 * k := v]
  {}

  // ---- a strided square sub-image inside a flat buffer ----

  /** The w x w block whose cell (i, j) is buffer element off + i*rb + j. */
  datatype Block = Block(off: nat, rb: nat, w: nat) {
    ghost predicate Fits(len: nat) {
      0 < w <= rb && off + (w - 1) * rb + w <= len
    }

    function Index(i: int, j: int): int { off + i * rb + j }

    function RowOf(k: int): int requires rb > 0 { (k - off) / rb }

    function ColOf(k: int): int requires rb > 0 { (k - off) % rb }

    predicate In(k: int) requires rb > 0 {
      off <= k && RowOf(k) < w && ColOf(k) < w
    }

    /** The lower right quarter, where the low-pass samples of both passes end up. */
    function Corner(): Block {
      Block(off + w * rb / 2 + w / 2, rb, w / 2)
    }
  }

  lemma MulMono(i: int, n: int, rb: nat)
    requires i <= n
    ensures i * rb <= n * rb
  {}

  lemma IndexOf(b: Block, len: nat, i: int, j: int)
    requires b.Fits(len) && 0 <= i < b.w && 0 <= j < b.w
    ensures 0 <= b.Index(i, j) < len
    ensures b.In(b.Index(i, j)) && b.RowOf(b.Index(i, j)) == i && b.ColOf(b.Index(i, j)) == j
  {
    MulMono(i, b.w - 1, b.rb);
    MulMono(0, i, b.rb);
    var k := b.Index(i, j) - b.off;
    Bits.DivModUnique(k, b.rb, i, j);
  }

  lemma IndexBack(b: Block, k: int)
    requires b.rb > 0 && b.In(k)
    ensures 0 <= b.RowOf(k) < b.w && 0 <= b.ColOf(k) < b.w
    ensures k == b.Index(b.RowOf(k), b.ColOf(k))
  {
  }

  function Row(m: seq<int>, b: Block, r: int): (x: seq<int>)
    requires b.Fits(|m|) && 0 <= r < b.w
    ensures |x| == b.w
  {
    seq(b.w, j requires 0 <= j < b.w => IndexOf(b, |m|, r, j); m[b.Index(r, j)])
  }

  function Col(m: seq<int>, b: Block, c: int): (x: seq<int>)
    requires b.Fits(|m|) && 0 <= c < b.w
    ensures |x| == b.w
  {
    seq(b.w, i requires 0 <= i < b.w => IndexOf(b, |m|, i, c); m[b.Index(i, c)])
  }

  ghost predicate SameShape(src: seq<int>, sb: Block, dst: seq<int>, db: Block) {
    sb.Fits(|src|) && db.Fits(|dst|) && sb.rb == db.rb && sb.w == db.w
  }

  /** One forward pass: row r of the source block becomes column r of the target block. */
  function Pass(stale: bool, src: seq<int>, sb: Block, dst: seq<int>, db: Block): (r: seq<int>)
    requires RowOk(stale, sb.w) && SameShape(src, sb, dst, db)
    ensures |r| == |dst|
  {
    seq(|dst|, k requires 0 <= k < |dst| =>
      if db.In(k) then IndexBack(db, k); Fwd(stale, Row(src, sb, db.ColOf(k)))[db.RowOf(k)]
      else dst[k])
  }

  /** One inverse pass: column r of the source block becomes row r of the target block. */
  function IPass(stale: bool, src: seq<int>, sb: Block, dst: seq<int>, db: Block): (r: seq<int>)
    requires RowOk(stale, sb.w) && SameShape(src, sb, dst, db)
    ensures |r| == |dst|
  {
    seq(|dst|, k requires 0 <= k < |dst| =>
      if db.In(k) then IndexBack(db, k); Inv(stale, Col(src, sb, db.RowOf(k)))[db.ColOf(k)]
      else dst[k])
  }

  lemma PassAt(stale: bool, src: seq<int>, sb: Block, dst: seq<int>, db: Block, i: int, j: int)
    requires RowOk(stale, sb.w) && SameShape(src, sb, dst, db)
    requires 0 <= i < db.w && 0 <= j < db.w
    ensures 0 <= db.Index(i, j) < |dst|
    ensures Pass(stale, src, sb, dst, db)[db.Index(i, j)] == Fwd(stale, Row(src, sb, j))[i]
  {
    IndexOf(db, |dst|, i, j);
  }

  lemma IPassAt(stale: bool, src: seq<int>, sb: Block, dst: seq<int>, db: Block, i: int, j: int)
    requires RowOk(stale, sb.w) && SameShape(src, sb, dst, db)
    requires 0 <= i < db.w && 0 <= j < db.w
    ensures 0 <= db.Index(i, j) < |dst|
    ensures IPass(stale, src, sb, dst, db)[db.Index(i, j)] == Inv(stale, Col(src, sb, i))[j]
  {
    IndexOf(db, |dst|, i, j);
  }

  lemma ColOfPass(stale: bool, src: seq<int>, sb: Block, dst: seq<int>, db: Block, r: int)
    requires RowOk(stale, sb.w) && SameShape(src, sb, dst, db) && 0 <= r < db.w
    ensures Col(Pass(stale, src, sb, dst, db), db, r) == Fwd(stale, Row(src, sb, r))
  {
    forall i | 0 <= i < db.w
      ensures Col(Pass(stale, src, sb, dst, db), db, r)[i] == Fwd(stale, Row(src, sb, r))[i]
    {
      PassAt(stale, src, sb, dst, db, i, r);
    }
  }

  lemma RowOfIPass(stale: bool, src: seq<int>, sb: Block, dst: seq<int>, db: Block, r: int)
    requires RowOk(stale, sb.w) && SameShape(src, sb, dst, db) && 0 <= r < db.w
    ensures Row(IPass(stale, src, sb, dst, db), db, r) == Inv(stale, Col(src, sb, r))
  {
    forall j | 0 <= j < db.w
      ensures Row(IPass(stale, src, sb, dst, db), db, r)[j] == Inv(stale, Col(src, sb, r))[j]
    {
      IPassAt(stale, src, sb, dst, db, r, j);
    }
  }

  /** An inverse pass restores the rows that a forward pass transposed, cell by cell. */
  lemma IPassPass(stale: bool, src: seq<int>, sb: Block, mid: seq<int>, mb: Block,
                  dst: seq<int>, db: Block, i: int, j: int)
    requires RowOk(stale, sb.w) && SameShape(src, sb, mid, mb) && SameShape(mid, mb, dst, db)
    requires 0 <= i < sb.w && 0 <= j < sb.w
    ensures 0 <= db.Index(i, j) < |dst| && 0 <= sb.Index(i, j) < |src|
    ensures IPass(stale, Pass(stale, src, sb, mid, mb), mb, dst, db)[db.Index(i, j)] == src[sb.Index(i, j)]
  {
    IndexOf(sb, |src|, i, j);
    IPassAt(stale, Pass(stale, src, sb, mid, mb), mb, dst, db, i, j);
    ColOfPass(stale, src, sb, mid, mb, i);
    InvFwd(stale, Row(src, sb, i));
  }

  lemma PassIPass(stale: bool, src: seq<int>, sb: Block, mid: seq<int>, mb: Block,
                  dst: seq<int>, db: Block, i: int, j: int)
    requires RowOk(stale, sb.w) && SameShape(src, sb, mid, mb) && SameShape(mid, mb, dst, db)
    requires 0 <= i < sb.w && 0 <= j < sb.w
    ensures 0 <= db.Index(i, j) < |dst| && 0 <= sb.Index(i, j) < |src|
    ensures Pass(stale, IPass(stale, src, sb, mid, mb), mb, dst, db)[db.Index(i, j)] == src[sb.Index(i, j)]
  {
    IndexOf(sb, |src|, i, j);
    PassAt(stale, IPass(stale, src, sb, mid, mb), mb, dst, db, i, j);
    RowOfIPass(stale, src, sb, mid, mb, j);
    FwdInv(stale, Col(src, sb, j));
  }

  /** `ilift` as written after `singlelift`: every cell comes back except column w-2, which
      is off by the row's TapError. */
  lemma StaleIPassError(src: seq<int>, sb: Block, mid: seq<int>, mb: Block,
                        dst: seq<int>, db: Block, i: int, j: int)
    requires RowOk(true, sb.w) && SameShape(src, sb, mid, mb) && SameShape(mid, mb, dst, db)
    requires 0 <= i < sb.w && 0 <= j < sb.w
    ensures 0 <= db.Index(i, j) < |dst| && 0 <= sb.Index(i, j) < |src|
    ensures IPass(true, Pass(false, src, sb, mid, mb), mb, dst, db)[db.Index(i, j)]
         == src[sb.Index(i, j)] + if j == sb.w - 2 then TapError(Row(src, sb, i)) else 0
  {
    IndexOf(sb, |src|, i, j);
    IPassAt(true, Pass(false, src, sb, mid, mb), mb, dst, db, i, j);
    ColOfPass(false, src, sb, mid, mb, i);
    StaleInvOfFwd(Row(src, sb, i));
  }

  // ---- one level: two passes through a second buffer ----

  /** Two buffers agree on a block. */
  ghost predicate AgreeOn(b: Block, p: seq<int>, q: seq<int>)
    requires b.Fits(|p|) && b.Fits(|q|)
  {
    forall i, j | 0 <= i < b.w && 0 <= j < b.w ::
      (IndexOf(b, |p|, i, j); IndexOf(b, |q|, i, j); p[b.Index(i, j)] == q[b.Index(i, j)])
  }

  lemma AgreeRowCol(b: Block, p: seq<int>, q: seq<int>, r: int)
    requires b.Fits(|p|) && b.Fits(|q|) && AgreeOn(b, p, q) && 0 <= r < b.w
    ensures Row(p, b, r) == Row(q, b, r) && Col(p, b, r) == Col(q, b, r)
  {}

  /** A pass depends on its source only through the block. */
  lemma PassAgree(stale: bool, p: seq<int>, q: seq<int>, b: Block, dst: seq<int>, db: Block)
    requires RowOk(stale, b.w) && SameShape(p, b, dst, db) && SameShape(q, b, dst, db)
    requires AgreeOn(b, p, q)
    ensures Pass(stale, p, b, dst, db) == Pass(stale, q, b, dst, db)
    ensures IPass(stale, p, b, dst, db) == IPass(stale, q, b, dst, db)
  {
    forall r | 0 <= r < b.w ensures Row(p, b, r) == Row(q, b, r) && Col(p, b, r) == Col(q, b, r) {
      AgreeRowCol(b, p, q, r);
    }
    forall k | 0 <= k < |dst|
      ensures Pass(stale, p, b, dst, db)[k] == Pass(stale, q, b, dst, db)[k]
      ensures IPass(stale, p, b, dst, db)[k] == IPass(stale, q, b, dst, db)[k]
    {
      if db.In(k) { IndexBack(db, k); }
    }
  }

  /** Two forward passes: out to a second buffer and back. */
  function Level(stale: bool, m: seq<int>, b: Block): (r: seq<int>)
    requires RowOk(stale, b.w) && b.Fits(|m|)
    ensures |r| == |m|
  {
    Pass(stale, Pass(stale, m, b, m, b), b, m, b)
  }

  function ILevel(stale: bool, m: seq<int>, b: Block): (r: seq<int>)
    requires RowOk(stale, b.w) && b.Fits(|m|)
    ensures |r| == |m|
  {
    IPass(stale, IPass(stale, m, b, m, b), b, m, b)
  }

  /** What the second buffer held before does not matter. */
  lemma LevelViaAny(stale: bool, m: seq<int>, b: Block, t: seq<int>)
    requires RowOk(stale, b.w) && b.Fits(|m|) && b.Fits(|t|)
    ensures Pass(stale, Pass(stale, m, b, t, b), b, m, b) == Level(stale, m, b)
    ensures IPass(stale, IPass(stale, m, b, t, b), b, m, b) == ILevel(stale, m, b)
  {
    forall i, j | 0 <= i < b.w && 0 <= j < b.w
      ensures b.Index(i, j) < |m| && b.Index(i, j) < |t|
      ensures Pass(stale, m, b, t, b)[b.Index(i, j)] == Pass(stale, m, b, m, b)[b.Index(i, j)]
      ensures IPass(stale, m, b, t, b)[b.Index(i, j)] == IPass(stale, m, b, m, b)[b.Index(i, j)]
    {
      PassAt(stale, m, b, t, b, i, j);
      PassAt(stale, m, b, m, b, i, j);
      IPassAt(stale, m, b, t, b, i, j);
      IPassAt(stale, m, b, m, b, i, j);
    }
    PassAgree(stale, Pass(stale, m, b, t, b), Pass(stale, m, b, m, b), b, m, b);
    PassAgree(stale, IPass(stale, m, b, t, b), IPass(stale, m, b, m, b), b, m, b);
  }

  lemma AgreeEverywhere(b: Block, p: seq<int>, q: seq<int>)
    requires b.Fits(|p|) && |p| == |q| && AgreeOn(b, p, q)
    requires forall k | 0 <= k < |p| && !b.In(k) :: p[k] == q[k]
    ensures p == q
  {
    forall k | 0 <= k < |p| ensures p[k] == q[k] {
      if b.In(k) { IndexBack(b, k); }
    }
  }

  lemma ILevelLevel(stale: bool, m: seq<int>, b: Block)
    requires RowOk(stale, b.w) && b.Fits(|m|)
    ensures ILevel(stale, Level(stale, m, b), b) == m
  {
    var t := Pass(stale, m, b, m, b);
    var m1 := Pass(stale, t, b, m, b);
    var u := IPass(stale, m1, b, m1, b);
    forall i, j | 0 <= i < b.w && 0 <= j < b.w
      ensures b.Index(i, j) < |m| && u[b.Index(i, j)] == t[b.Index(i, j)]
    {
      IPassPass(stale, t, b, m, b, m1, b, i, j);
    }
    PassAgree(stale, u, t, b, m1, b);
    var v := IPass(stale, t, b, m1, b);
    forall i, j | 0 <= i < b.w && 0 <= j < b.w
      ensures b.Index(i, j) < |m| && v[b.Index(i, j)] == m[b.Index(i, j)]
    {
      IPassPass(stale, m, b, m, b, m1, b, i, j);
    }
    AgreeEverywhere(b, v, m);
  }

  lemma LevelILevel(stale: bool, m: seq<int>, b: Block)
    requires RowOk(stale, b.w) && b.Fits(|m|)
    ensures Level(stale, ILevel(stale, m, b), b) == m
  {
    var t := IPass(stale, m, b, m, b);
    var m1 := IPass(stale, t, b, m, b);
    var u := Pass(stale, m1, b, m1, b);
    forall i, j | 0 <= i < b.w && 0 <= j < b.w
      ensures b.Index(i, j) < |m| && u[b.Index(i, j)] == t[b.Index(i, j)]
    {
      PassIPass(stale, t, b, m, b, m1, b, i, j);
    }
    PassAgree(stale, u, t, b, m1, b);
    var v := Pass(stale, t, b, m1, b);
    forall i, j | 0 <= i < b.w && 0 <= j < b.w
      ensures b.Index(i, j) < |m| && v[b.Index(i, j)] == m[b.Index(i, j)]
    {
      PassIPass(stale, m, b, m, b, m1, b, i, j);
    }
    AgreeEverywhere(b, v, m);
  }

  // ---- nested levels ----

  /** The block processed at level `lvl`. */
  function Nth(b: Block, lvl: nat): Block {
    if lvl == 0 then b else Nth(b, lvl - 1).Corner()
  }

  ghost predicate LevelsOk(stale: bool, b: Block, lvls: nat, len: nat) {
    forall k | 0 <= k < lvls :: RowOk(stale, Nth(b, k).w) && Nth(b, k).Fits(len)
  }

  function Forward(stale: bool, m: seq<int>, b: Block, lvls: nat): (r: seq<int>)
    requires LevelsOk(stale, b, lvls, |m|)
    ensures |r| == |m|
  {
    if lvls == 0 then m else Level(stale, Forward(stale, m, b, lvls - 1), Nth(b, lvls - 1))
  }

  function Inverse(stale: bool, m: seq<int>, b: Block, lvls: nat): (r: seq<int>)
    requires LevelsOk(stale, b, lvls, |m|)
    ensures |r| == |m|
    decreases lvls
  {
    if lvls == 0 then m else Inverse(stale, ILevel(stale, m, Nth(b, lvls - 1)), b, lvls - 1)
  }

  lemma {:induction false} InverseForward(stale: bool, m: seq<int>, b: Block, lvls: nat)
    requires LevelsOk(stale, b, lvls, |m|)
    ensures Inverse(stale, Forward(stale, m, b, lvls), b, lvls) == m
  {
    if lvls > 0 {
      ILevelLevel(stale, Forward(stale, m, b, lvls - 1), Nth(b, lvls - 1));
      InverseForward(stale, m, b, lvls - 1);
    }
  }

  lemma {:induction false} ForwardInverse(stale: bool, m: seq<int>, b: Block, lvls: nat)
    requires LevelsOk(stale, b, lvls, |m|)
    ensures Forward(stale, Inverse(stale, m, b, lvls), b, lvls) == m
    decreases lvls
  {
    if lvls > 0 {
      ForwardInverse(stale, ILevel(stale, m, Nth(b, lvls - 1)), b, lvls - 1);
      LevelILevel(stale, m, Nth(b, lvls - 1));
    }
  }

  /** The stale inverse can only restore what the stale forward transform would have coded alike. */
  lemma SameCoefficients(m: seq<int>, b: Block, lvls: nat)
    requires LevelsOk(true, b, lvls, |m|) && LevelsOk(false, b, lvls, |m|)
    requires Inverse(true, Forward(false, m, b, lvls), b, lvls) == m
    ensures Forward(true, m, b, lvls) == Forward(false, m, b, lvls)
  {
    ForwardInverse(true, Forward(false, m, b, lvls), b, lvls);
  }
}
