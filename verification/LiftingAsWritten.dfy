/** Which images `lifting` restores as it is written, with the stale neighbour in the inverse. */
module LiftingAsWritten {
  import opened LiftingSpec
  import opened LiftingRange

  // ---- one row ----

  /** The stale neighbour leaves the coefficients of a row alone exactly if it predicts the same. */
  lemma RowUnchangedIff(x: seq<int>)
    requires RowOk(true, |x|)
    ensures Fwd(true, x) == Fwd(false, x) <==> TapError(x) == 0
  {
    hide Fwd, Inv, TapError;
    StaleInvOfFwd(x);
    InvFwd(true, x);
    FwdInv(true, Fwd(false, x));
    assert x[|x| - 2 := x[|x| - 2] + TapError(x)][|x| - 2] == x[|x| - 2] + TapError(x);
    assert TapError(x) == 0 ==> x[|x| - 2 := x[|x| - 2]] == x;
  }

  /** A row is what the written inverse makes of a column exactly if the column is what the stale
      forward transform makes of the row. */
  lemma RestoredIff(x: seq<int>, y: seq<int>)
    requires RowOk(true, |x|) && |y| == |x|
    ensures Inv(true, y) == x <==> Fwd(true, x) == y
  {
    InvFwd(true, x);
    FwdInv(true, y);
  }

  // ---- one pass ----

  /** The written inverse restores what one forward pass transposed exactly if no row has an error. */
  lemma OnePassRestoredIff(src: seq<int>, b: Block, mid: seq<int>)
    requires RowOk(true, b.w) && SameShape(src, b, mid, b)
    ensures IPass(true, Pass(false, src, b, mid, b), b, src, b) == src
       <==> forall r | 0 <= r < b.w :: TapError(Row(src, b, r)) == 0
  {
    var r := IPass(true, Pass(false, src, b, mid, b), b, src, b);
    if r == src {
      forall i | 0 <= i < b.w ensures TapError(Row(src, b, i)) == 0 {
        StaleIPassError(src, b, mid, b, src, b, i, b.w - 2);
      }
    }
    if forall i | 0 <= i < b.w :: TapError(Row(src, b, i)) == 0 {
      forall k | 0 <= k < |src| ensures r[k] == src[k] {
        if b.In(k) {
          IndexBack(b, k);
          StaleIPassError(src, b, mid, b, src, b, b.RowOf(k), b.ColOf(k));
        }
      }
    }
  }

  // ---- one level ----

  /** The errors of the two passes of a level cancel: no row has one in the first pass but row w-2,
      and what that row's stale prediction changes is what the second pass puts into its column. */
  ghost predicate TapsCancel(m: seq<int>, b: Block)
    requires RowOk(true, b.w) && b.Fits(|m|)
  {
    (forall r | 0 <= r < b.w && r != b.w - 2 :: TapError(Row(m, b, r)) == 0) &&
    var t, x := Pass(false, m, b, m, b), Row(m, b, b.w - 2);
    forall c | 0 <= c < b.w :: TapError(Row(t, b, c)) == Fwd(true, x)[c] - Fwd(false, x)[c]
  }

  /** What the first of the two written inverse passes leaves in column r. */
  lemma HalfRestored(m: seq<int>, b: Block, r: int, c: int)
    requires RowOk(true, b.w) && b.Fits(|m|) && 0 <= r < b.w && 0 <= c < b.w
    ensures var t := Pass(false, m, b, m, b);
      var u := IPass(true, Level(false, m, b), b, Level(false, m, b), b);
      Col(u, b, r)[c] == Fwd(false, Row(m, b, r))[c] + if r == b.w - 2 then TapError(Row(t, b, c)) else 0
  {
    var t := Pass(false, m, b, m, b);
    IndexOf(b, |m|, c, r);
    StaleIPassError(t, b, m, b, Level(false, m, b), b, c, r);
    PassAt(false, m, b, m, b, c, r);
  }

  /** Row r of the image comes back exactly if its share of TapsCancel holds. */
  lemma RowRestoredIff(m: seq<int>, b: Block, r: int)
    requires RowOk(true, b.w) && b.Fits(|m|) && 0 <= r < b.w
    ensures var t, x := Pass(false, m, b, m, b), Row(m, b, r);
      var u := IPass(true, Level(false, m, b), b, Level(false, m, b), b);
      Inv(true, Col(u, b, r)) == x <==>
        if r == b.w - 2 then forall c | 0 <= c < b.w :: TapError(Row(t, b, c)) == Fwd(true, x)[c] - Fwd(false, x)[c]
        else TapError(x) == 0
  {
    hide Fwd, Inv, TapError, Pass, IPass, Level, Row, Col;
    var t, x := Pass(false, m, b, m, b), Row(m, b, r);
    var u := IPass(true, Level(false, m, b), b, Level(false, m, b), b);
    var y := Col(u, b, r);
    RestoredIff(x, y);
    RowUnchangedIff(x);
    forall c | 0 <= c < b.w
      ensures y[c] == Fwd(false, x)[c] + if r == b.w - 2 then TapError(Row(t, b, c)) else 0
    {
      HalfRestored(m, b, r, c);
    }
    if r != b.w - 2 { assert y == Fwd(false, x); }
  }

  /** The buffer comes back exactly if every row of the block does. */
  lemma RowsDecide(m: seq<int>, b: Block, u: seq<int>, was: seq<int>)
    requires RowOk(true, b.w) && b.Fits(|m|) && |u| == |m| == |was|
    requires forall k | 0 <= k < |m| && !b.In(k) :: was[k] == m[k]
    ensures IPass(true, u, b, was, b) == m <==> forall r | 0 <= r < b.w :: Inv(true, Col(u, b, r)) == Row(m, b, r)
  {
    var v := IPass(true, u, b, was, b);
    forall r, j | 0 <= r < b.w && 0 <= j < b.w
      ensures 0 <= b.Index(r, j) < |m| && v[b.Index(r, j)] == Inv(true, Col(u, b, r))[j]
    {
      IPassAt(true, u, b, was, b, r, j);
    }
    if v == m {
      forall r | 0 <= r < b.w ensures Inv(true, Col(u, b, r)) == Row(m, b, r) {
        RowOfIPass(true, u, b, was, b, r);
      }
    }
    if forall r | 0 <= r < b.w :: Inv(true, Col(u, b, r)) == Row(m, b, r) {
      forall k | 0 <= k < |m| ensures v[k] == m[k] {
        if b.In(k) {
          IndexBack(b, k);
          assert Row(m, b, b.RowOf(k))[b.ColOf(k)] == m[k];
        }
      }
    }
  }

  /** One level as written restores an image exactly if its errors cancel. */
  lemma LevelRestoredIff(m: seq<int>, b: Block)
    requires RowOk(true, b.w) && b.Fits(|m|)
    ensures ILevel(true, Level(false, m, b), b) == m <==> TapsCancel(m, b)
  {
    hide Fwd, Inv, TapError, Row, Col, Pass, IPass;
    var coded := Level(false, m, b);
    forall k | 0 <= k < |m| && !b.In(k) ensures coded[k] == m[k] { LevelOutside(false, m, b, k); }
    RowsDecide(m, b, IPass(true, coded, b, coded, b), coded);
    forall r | 0 <= r < b.w { RowRestoredIff(m, b, r); }
  }

  // ---- nested levels ----

  /** If the stale forward pass differs from the true one in row y at its last even sample only, and
      the high-pass halves come out the same, then so do the whole rows. */
  lemma HighDecides(y: seq<int>, z: seq<int>)
    requires RowOk(true, |y|) && |z| == |y|
    requires forall j | 0 <= j < |y| && j != |y| - 2 :: y[j] == z[j]
    requires forall j | 0 <= j < |y| / 2 :: Fwd(true, y)[j] == Fwd(false, z)[j]
    ensures Fwd(true, y) == Fwd(false, z)
  {
    var h, k := High(true, Evens(y), Odds(y)), High(false, Evens(z), Odds(z));
    FwdParts(true, y, Evens(y), Odds(y));
    FwdParts(false, z, Evens(z), Odds(z));
    assert Odds(y) == Odds(z);
    forall j | 0 <= j < |y| / 2 ensures h[j] == k[j] {
      assert Fwd(true, y)[j] == h[j] && Fwd(false, z)[j] == k[j];
    }
    assert h == k;
  }

  /** The two forward levels agree on cells outside the corner that the next level works on. */
  ghost predicate AgreeOutside(m: seq<int>, b: Block)
    requires RowOk(true, b.w) && b.Fits(|m|)
  {
    forall i, j | 0 <= i < b.w && 0 <= j < b.w && (i < b.w / 2 || j < b.w / 2) ::
      SecondRow(true, m, b, j)[i] == SecondRow(false, m, b, j)[i]
  }

  /** Row r after the first pass, and its coefficients after the second. */
  function FirstRow(stale: bool, m: seq<int>, b: Block, r: int): (y: seq<int>)
    requires RowOk(stale, b.w) && b.Fits(|m|) && 0 <= r < b.w
    ensures |y| == b.w
  {
    Row(Pass(stale, m, b, m, b), b, r)
  }

  function SecondRow(stale: bool, m: seq<int>, b: Block, r: int): (y: seq<int>)
    requires RowOk(stale, b.w) && b.Fits(|m|) && 0 <= r < b.w
    ensures |y| == b.w
  {
    Fwd(stale, FirstRow(stale, m, b, r))
  }

  lemma FirstRowAt(stale: bool, m: seq<int>, b: Block, r: int, j: int)
    requires RowOk(stale, b.w) && b.Fits(|m|) && 0 <= r < b.w && 0 <= j < b.w
    ensures FirstRow(stale, m, b, r)[j] == Fwd(stale, Row(m, b, j))[r]
  {
    PassAt(stale, m, b, m, b, r, j);
  }

  lemma LevelCell(stale: bool, m: seq<int>, b: Block, i: int, j: int)
    requires RowOk(stale, b.w) && b.Fits(|m|) && 0 <= i < b.w && 0 <= j < b.w
    ensures 0 <= b.Index(i, j) < |m| && Level(stale, m, b)[b.Index(i, j)] == SecondRow(stale, m, b, j)[i]
  {
    PassAt(stale, Pass(stale, m, b, m, b), b, m, b, i, j);
  }

  /** The last high-pass coefficient of a row tells the two forward transforms apart. */
  lemma TapInHigh(x: seq<int>)
    requires RowOk(true, |x|)
    ensures Fwd(true, x)[|x| / 2 - 1] == Fwd(false, x)[|x| / 2 - 1] - TapError(x)
  {
    LastHigh(true, x);
    LastHigh(false, x);
  }

  /** Agreement outside the corner leaves errors in the first pass to row w-2 alone. */
  lemma NoTapElsewhere(m: seq<int>, b: Block, r: int)
    requires RowOk(true, b.w) && b.Fits(|m|) && AgreeOutside(m, b) && 0 <= r < b.w && r != b.w - 2
    ensures TapError(Row(m, b, r)) == 0
  {
    hide Fwd, Inv, TapError, Row, Pass, FirstRow;
    var n := b.w / 2 - 1;
    var y, z := FirstRow(true, m, b, n), FirstRow(false, m, b, n);
    assert SecondRow(true, m, b, n) == SecondRow(false, m, b, n) by {
      forall i | 0 <= i < b.w ensures SecondRow(true, m, b, n)[i] == SecondRow(false, m, b, n)[i] {}
    }
    StaleInvOfFwd(z);
    InvFwd(true, y);
    assert y[r] == z[r];
    FirstRowAt(true, m, b, n, r);
    FirstRowAt(false, m, b, n, r);
    TapInHigh(Row(m, b, r));
  }

  /** So the rows of the second pass differ in one even sample at most, and agreeing outside the
      corner they agree inside it. */
  lemma RowsAgree(m: seq<int>, b: Block, r: int)
    requires RowOk(true, b.w) && b.Fits(|m|) && AgreeOutside(m, b) && 0 <= r < b.w
    ensures SecondRow(true, m, b, r) == SecondRow(false, m, b, r)
  {
    hide Fwd, TapError, Row, Pass, FirstRow;
    if r < b.w / 2 {
      forall i | 0 <= i < b.w ensures SecondRow(true, m, b, r)[i] == SecondRow(false, m, b, r)[i] {}
    } else {
      var y, z := FirstRow(true, m, b, r), FirstRow(false, m, b, r);
      forall j | 0 <= j < b.w && j != b.w - 2 ensures y[j] == z[j] {
        NoTapElsewhere(m, b, j);
        RowUnchangedIff(Row(m, b, j));
        FirstRowAt(true, m, b, r, j);
        FirstRowAt(false, m, b, r, j);
      }
      forall i | 0 <= i < b.w / 2 ensures Fwd(true, y)[i] == Fwd(false, z)[i] {
        assert SecondRow(true, m, b, r)[i] == SecondRow(false, m, b, r)[i];
      }
      HighDecides(y, z);
    }
  }

  /** Two forward levels that agree outside the corner are the same. */
  lemma CornerFollows(m: seq<int>, b: Block)
    requires RowOk(true, b.w) && b.Fits(|m|)
    requires forall k | 0 <= k < |m| && !b.Corner().In(k) :: Level(true, m, b)[k] == Level(false, m, b)[k]
    ensures Level(true, m, b) == Level(false, m, b)
  {
    hide Fwd, Row, Pass, FirstRow, Level;
    forall i, j | 0 <= i < b.w && 0 <= j < b.w && (i < b.w / 2 || j < b.w / 2)
      ensures SecondRow(true, m, b, j)[i] == SecondRow(false, m, b, j)[i]
    {
      LevelCell(true, m, b, i, j);
      LevelCell(false, m, b, i, j);
      OutsideCorner(b, |m|, i, j);
    }
    var p, q := Level(true, m, b), Level(false, m, b);
    forall i, j | 0 <= i < b.w && 0 <= j < b.w ensures 0 <= b.Index(i, j) < |m| && p[b.Index(i, j)] == q[b.Index(i, j)] {
      LevelCell(true, m, b, i, j);
      LevelCell(false, m, b, i, j);
      RowsAgree(m, b, j);
    }
    forall k | 0 <= k < |m| && !b.In(k) ensures p[k] == q[k] {
      LevelOutside(true, m, b, k);
      LevelOutside(false, m, b, k);
    }
    AgreeEverywhere(b, p, q);
  }

  lemma OutsideCorner(b: Block, len: nat, i: int, j: int)
    requires b.Fits(len) && b.w % 2 == 0 && 0 <= i < b.w && 0 <= j < b.w && (i < b.w / 2 || j < b.w / 2)
    ensures !b.Corner().In(b.Index(i, j))
  {
    IndexOf(b, len, i, j);
    if b.Corner().In(b.Index(i, j)) { CornerInside(b, len, b.Index(i, j)); }
  }

  ghost predicate BothOk(b: Block, lvls: nat, len: nat) {
    LevelsOk(true, b, lvls, len) && LevelsOk(false, b, lvls, len)
  }

  /** If all the levels together come out the same, then so do the first k. */
  lemma {:induction false} PrefixAgrees(m: seq<int>, b: Block, lvls: nat, k: nat)
    requires BothOk(b, lvls, |m|) && k <= lvls && Forward(true, m, b, lvls) == Forward(false, m, b, lvls)
    ensures Forward(true, m, b, k) == Forward(false, m, b, k)
  {
    hide Level;
    if 0 < k < lvls {
      PrefixAgrees(m, b, lvls, k - 1);
      var before, c := Forward(false, m, b, k - 1), Nth(b, k - 1);
      forall i | 0 <= i < |m| && !c.Corner().In(i) ensures Level(true, before, c)[i] == Level(false, before, c)[i] {
        BandsKept(true, m, b, k, lvls, i);
        BandsKept(false, m, b, k, lvls, i);
      }
      CornerFollows(before, c);
    }
  }

  /** Level k of the image is restored. */
  ghost predicate LevelCancels(m: seq<int>, b: Block, k: nat)
    requires BothOk(b, k + 1, |m|)
  {
    TapsCancel(Forward(false, m, b, k), Nth(b, k))
  }

  lemma {:induction false} AllRestored(m: seq<int>, b: Block, lvls: nat)
    requires BothOk(b, lvls, |m|)
    requires forall k: nat | k < lvls :: LevelCancels(m, b, k)
    ensures Inverse(true, Forward(false, m, b, lvls), b, lvls) == m
  {
    hide Level, ILevel, TapsCancel;
    if lvls > 0 {
      assert LevelCancels(m, b, lvls - 1);
      LevelRestoredIff(Forward(false, m, b, lvls - 1), Nth(b, lvls - 1));
      AllRestored(m, b, lvls - 1);
    }
  }

  lemma RestoredLevel(m: seq<int>, b: Block, lvls: nat, k: nat)
    requires BothOk(b, lvls, |m|) && k < lvls && Forward(true, m, b, lvls) == Forward(false, m, b, lvls)
    ensures LevelCancels(m, b, k)
  {
    hide Level, ILevel, TapsCancel;
    PrefixAgrees(m, b, lvls, k);
    PrefixAgrees(m, b, lvls, k + 1);
    ILevelLevel(true, Forward(true, m, b, k), Nth(b, k));
    LevelRestoredIff(Forward(false, m, b, k), Nth(b, k));
  }

  /** The transform as written restores an image exactly if at every level the errors of the two
      passes cancel. */
  lemma AsWrittenIdentityIff(m: seq<int>, b: Block, lvls: nat)
    requires BothOk(b, lvls, |m|)
    ensures Inverse(true, Forward(false, m, b, lvls), b, lvls) == m <==> forall k: nat | k < lvls :: LevelCancels(m, b, k)
  {
    hide Level, ILevel, LevelCancels, Inverse, Forward, Nth;
    if forall k: nat | k < lvls :: LevelCancels(m, b, k) { AllRestored(m, b, lvls); }
    if Inverse(true, Forward(false, m, b, lvls), b, lvls) == m {
      SameCoefficients(m, b, lvls);
      forall k: nat | k < lvls ensures LevelCancels(m, b, k) { RestoredLevel(m, b, lvls, k); }
    }
  }

  // ---- errors that cancel ----

  /** A 6 x 6 image with -1 at (3, 4), -2 at (4, 1) and 3 at (4, 4). */
  function Cancelling(): (m: seq<int>)
    ensures |m| == 36
  {
    seq(36, k => if k == 22 then -1 else if k == 25 then -2 else if k == 28 then 3 else 0)
  }

  function Six(): Block { Block(0, 6, 6) }

  lemma CancellingRow(r: int)
    requires 0 <= r < 6
    ensures Row(Cancelling(), Six(), r) ==
      if r == 3 then [0, 0, 0, 0, -1, 0] else if r == 4 then [0, -2, 0, 0, 3, 0] else [0, 0, 0, 0, 0, 0]
  {
    forall j | 0 <= j < 6
      ensures Row(Cancelling(), Six(), r)[j] == if r == 3 && j == 4 then -1 else if r == 4 && j == 1 then -2
                                                else if r == 4 && j == 4 then 3 else 0
    {
      IndexOf(Six(), 36, r, j);
    }
  }

  lemma RowParts(x: seq<int>, stale: bool)
    requires |x| == 6
    ensures var o, p := Odds(x), if stale then (x[1] + x[5]) / 2 else (x[3] + x[5]) / 2;
      var a, b, c := x[0] - x[1], x[2] - (x[1] + x[3]) / 2, x[4] - p;
      Fwd(stale, x) == [a, b, c, x[1] + (a + b + 2) / 4, x[3] + (b + c + 2) / 4, x[5] + (c + 1) / 8]
  {
    hide Fwd;
    var e, o := Evens(x), Odds(x);
    var h := High(stale, e, o);
    FwdParts(stale, x, e, o);
    assert h == [x[0] - x[1], x[2] - (x[1] + x[3]) / 2,
                 x[4] - if stale then (x[1] + x[5]) / 2 else (x[3] + x[5]) / 2];
  }

  /** Errors can cancel: this image is restored although a row of it has one. */
  lemma ErrorsCancel()
    ensures Six().Fits(36) && TapError(Row(Cancelling(), Six(), 4)) != 0
    ensures ILevel(true, Level(false, Cancelling(), Six()), Six()) == Cancelling()
  {
    var m, b := Cancelling(), Six();
    forall r | 0 <= r < 6 ensures TapError(Row(m, b, r)) == if r == 4 then -1 else 0 { CancellingRow(r); }
    forall c | 0 <= c < 6
      ensures TapError(FirstRow(false, m, b, c)) == Fwd(true, Row(m, b, 4))[c] - Fwd(false, Row(m, b, 4))[c]
    {
      CancellingColumn(c);
    }
    LevelRestoredIff(m, b);
  }

  lemma CancellingCodes()
    ensures Fwd(false, [0, 0, 0, 0, 0, 0]) == [0, 0, 0, 0, 0, 0]
    ensures Fwd(false, [0, 0, 0, 0, -1, 0]) == [0, 0, -1, 0, 0, 0]
    ensures Fwd(false, [0, -2, 0, 0, 3, 0]) == [2, 1, 3, -1, 1, 0]
    ensures Fwd(true, [0, -2, 0, 0, 3, 0]) == [2, 1, 4, -1, 1, 0]
  {
    hide Fwd;
    RowParts([0, 0, 0, 0, 0, 0], false);
    RowParts([0, 0, 0, 0, -1, 0], false);
    RowParts([0, -2, 0, 0, 3, 0], false);
    RowParts([0, -2, 0, 0, 3, 0], true);
  }

  lemma CancellingColumn(c: int)
    requires 0 <= c < 6
    ensures var m, b := Cancelling(), Six();
      TapError(FirstRow(false, m, b, c)) == Fwd(true, Row(m, b, 4))[c] - Fwd(false, Row(m, b, 4))[c]
  {
    hide Fwd, Row, Pass, FirstRow, Cancelling;
    var m, b := Cancelling(), Six();
    CancellingCodes();
    var y := FirstRow(false, m, b, c);
    CodedCell(c, 1);
    CodedCell(c, 3);
    CodedCell(c, 5);
    CancellingRow(4);
    assert y[1] == 0 && y[5] == 0 && y[3] == if c == 2 then -1 else 0;
  }

  lemma CodedCell(c: int, r: int)
    requires 0 <= c < 6 && (r == 1 || r == 3 || r == 5)
    ensures FirstRow(false, Cancelling(), Six(), c)[r] == if r == 3 && c == 2 then -1 else 0
  {
    hide Fwd, Row, Pass, FirstRow, Cancelling;
    CancellingCodes();
    CancellingRow(r);
    FirstRowAt(false, Cancelling(), Six(), c, r);
  }
}
