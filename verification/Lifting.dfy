/** The routines of sw/board/lifting.c on buffers, proved against LiftingSpec.
    An address into a C buffer is an array together with an index. */
module Lifting {
  import opened LiftingSpec

  /** Buffer `now` holds the finished value in every cell of `done` and the old one elsewhere. */
  ghost predicate Progress(now: seq<int>, was: seq<int>, full: seq<int>, done: set<int>) {
    |now| == |was| == |full| &&
    forall k | 0 <= k < |now| :: now[k] == if k in done then full[k] else was[k]
  }

  lemma Finished(now: seq<int>, was: seq<int>, full: seq<int>, done: set<int>, b: Block)
    requires Progress(now, was, full, done) && b.Fits(|was|)
    requires forall k | 0 <= k < |was| && !b.In(k) :: full[k] == was[k]
    requires forall i, j | 0 <= i < b.w && 0 <= j < b.w :: b.Index(i, j) in done
    ensures now == full
  {
    forall k | 0 <= k < |now| ensures now[k] == full[k] {
      if b.In(k) { IndexBack(b, k); }
    }
  }

  /** Store two finished values, in cells not written before. */
  method Put(a: array<int>, k: int, v: int, k': int, v': int,
             ghost was: seq<int>, ghost full: seq<int>, ghost done: set<int>)
    returns (ghost done': set<int>)
    requires Progress(a[..], was, full, done)
    requires 0 <= k < a.Length && v == full[k] && 0 <= k' < a.Length && v' == full[k']
    requires k !in done && k' !in done && k != k'
    modifies a
    ensures Progress(a[..], was, full, done') && done' == done + {k, k'}
  {
    a[k] := v;
    a[k'] := v';
    done' := done + {k, k'};
  }

  /** The addresses of column j of a block, top to bottom. */
  ghost function Column(b: Block, j: int): (at: seq<int>)
    ensures |at| == b.w
  {
    seq(b.w, i => b.Index(i, j))
  }

  ghost predicate NextCell(at: seq<int>, i: nat, rb: int) requires i + 1 < |at| {
    at[i + 1] == at[i] + rb
  }

  /** Stepping an address by one row, and the offset of the lower half. */
  lemma Strides(b: Block, j: int)
    requires b.w % 2 == 0 && b.w > 0
    ensures forall i: nat | i < b.w - 1 :: NextCell(Column(b, j), i, b.rb)
    ensures Column(b, j)[0] == b.off + j
    ensures Column(b, j)[b.w / 2] == b.off + j + b.w * b.rb / 2
  {
    forall i: nat | i < b.w - 1 ensures NextCell(Column(b, j), i, b.rb) {
      assert b.Index(i + 1, j) == b.Index(i, j) + b.rb;
    }
    assert b.w * b.rb == 2 * (b.w / 2 * b.rb);
  }

  /** Row `row` of the source and column `row` of the finished target, by address. */
  lemma RowData(src: seq<int>, sb: Block, row: int)
    requires sb.Fits(|src|) && 0 <= row < sb.w
    ensures 0 <= sb.Index(row, 0) && sb.Index(row, 0) + sb.w <= |src|
    ensures var x := Row(src, sb, row); forall j | 0 <= j < sb.w :: src[sb.Index(row, 0) + j] == x[j]
  {
    hide Row, Block.Index;
    forall j | 0 <= j < sb.w
      ensures 0 <= sb.Index(row, 0) + j < |src| && src[sb.Index(row, 0) + j] == Row(src, sb, row)[j]
    {
      RowCell(src, sb, row, j);
    }
    RowCell(src, sb, row, sb.w - 1);
  }

  lemma RowCell(src: seq<int>, sb: Block, row: int, j: int)
    requires sb.Fits(|src|) && 0 <= row < sb.w && 0 <= j < sb.w
    ensures 0 <= sb.Index(row, 0) <= sb.Index(row, 0) + j < |src|
    ensures src[sb.Index(row, 0) + j] == Row(src, sb, row)[j]
  {
    IndexOf(sb, |src|, row, 0);
    IndexOf(sb, |src|, row, j);
  }

  lemma TargetColumn(src: seq<int>, sb: Block, was: seq<int>, db: Block, row: int)
    requires RowOk(false, sb.w) && SameShape(src, sb, was, db) && 0 <= row < sb.w
    ensures var y, at := Fwd(false, Row(src, sb, row)), Column(db, row);
      forall i | 0 <= i < sb.w ::
        0 <= at[i] < |was| && Pass(false, src, sb, was, db)[at[i]] == y[i]
  {
    var at := Column(db, row);
    forall i | 0 <= i < sb.w
      ensures 0 <= at[i] < |was|
      ensures Pass(false, src, sb, was, db)[at[i]] == Fwd(false, Row(src, sb, row))[i]
    {
      PassAt(false, src, sb, was, db, i, row);
    }
  }

  /** The two halves of Fwd(false, x), by the formulas of the lifting steps. */
  ghost predicate HalfAt(n: nat, x: seq<int>, hi: seq<int>, lo: seq<int>, k: nat)
    requires |x| == 2 * n && |hi| == |lo| == n >= 2 && k < n
  {
    hi[k] == (if k == 0 then x[0] - x[1] else x[2 * k] - (x[2 * k - 1] + x[2 * k + 1]) / 2) &&
    lo[k] == x[2 * k + 1] + (if k == n - 1 then (hi[k] + 1) / 8 else (hi[k] + hi[k + 1] + 2) / 4)
  }

  ghost predicate Halves(n: nat, x: seq<int>, hi: seq<int>, lo: seq<int>) {
    |x| == 2 * n && |hi| == |lo| == n >= 2 && forall k: nat | k < n :: HalfAt(n, x, hi, lo, k)
  }

  lemma HalfIs(n: nat, x: seq<int>, h: seq<int>, k: nat)
    requires |x| == 2 * n && n >= 2 && k < n && h == High(false, Evens(x), Odds(x))
    ensures HalfAt(n, x, h, Low(h, Odds(x)), k)
  {}

  lemma FwdHalves(x: seq<int>) returns (hi: seq<int>, lo: seq<int>)
    requires RowOk(false, |x|)
    ensures Halves(|x| / 2, x, hi, lo) && hi + lo == Fwd(false, x)
  {
    hi := High(false, Evens(x), Odds(x));
    lo := Low(hi, Odds(x));
    forall k: nat | k < |x| / 2 ensures HalfAt(|x| / 2, x, hi, lo, k) {
      HalfIs(|x| / 2, x, hi, k);
    }
  }

  /** The addresses are distinct, and just the first `col` of each half are done. */
  ghost predicate Written(at: seq<int>, n: nat, col: nat, done: set<int>) {
    |at| == 2 * n && col <= n && (forall i, j | 0 <= i < j < 2 * n :: at[i] != at[j]) &&
    forall i | 0 <= i < 2 * n :: at[i] in done <==> i < col || n <= i < n + col
  }

  /** `done` has grown by the addresses alone. */
  ghost predicate GrownBy(done: set<int>, done': set<int>, at: seq<int>) {
    done <= done' && forall k | k in done' :: k in done || k in at
  }

  /** The addresses lie in the buffer, and the finished values there are the two halves. */
  ghost predicate Aims(at: seq<int>, full: seq<int>, hi: seq<int>, lo: seq<int>, n: nat) {
    |at| == 2 * n && |hi| == |lo| == n &&
    forall i | 0 <= i < 2 * n :: 0 <= at[i] < |full| && full[at[i]] == if i < n then hi[i] else lo[i - n]
  }

  /** The next pair of addresses: still open, and what storing there comes to. */
  lemma NextPair(at: seq<int>, full: seq<int>, hi: seq<int>, lo: seq<int>, n: nat, col: nat,
                 before: set<int>, done: set<int>)
    requires Written(at, n, col, done) && col < n && GrownBy(before, done, at) && Aims(at, full, hi, lo, n)
    ensures at[col] !in done && at[n + col] !in done && at[col] != at[n + col]
    ensures Written(at, n, col + 1, done + {at[col], at[n + col]})
    ensures GrownBy(before, done + {at[col], at[n + col]}, at)
    ensures 0 <= at[col] < |full| && 0 <= at[n + col] < |full| && full[at[col]] == hi[col] && full[at[n + col]] == lo[col]
  {}

  /** One row's work: its samples x, their two halves of coefficients, the addresses these go to,
      and the buffer before and after the pass. */
  datatype Plan = Plan(x: seq<int>, hi: seq<int>, lo: seq<int>, at: seq<int>, was: seq<int>, full: seq<int>)

  /** Pairs 0 to col - 1 of the row are stored, on top of what was done before it. */
  ghost predicate Stored(p: Plan, n: nat, col: nat, now: seq<int>, before: set<int>, done: set<int>) {
    Halves(n, p.x, p.hi, p.lo) && Aims(p.at, p.full, p.hi, p.lo, n) && Progress(now, p.was, p.full, done) &&
    GrownBy(before, done, p.at) && Written(p.at, n, col, done)
  }

  lemma StoredHalf(p: Plan, n: nat, col: nat, now: seq<int>, before: set<int>, done: set<int>, k: nat)
    requires Stored(p, n, col, now, before, done) && k < n
    ensures |p.x| == 2 * n && |p.at| == 2 * n && |p.hi| == |p.lo| == n >= 2 && HalfAt(n, p.x, p.hi, p.lo, k)
  {}

  /** Store pair `col`. */
  method StorePair(obuf: array<int>, op: int, v: int, opb: int, v': int,
                   ghost p: Plan, ghost n: nat, ghost col: nat, ghost before: set<int>, ghost done: set<int>)
    returns (ghost done': set<int>)
    requires Stored(p, n, col, obuf[..], before, done) && col < n
    requires |p.at| == 2 * n && op == p.at[col] && opb == p.at[n + col]
    requires |p.hi| == |p.lo| == n && v == p.hi[col] && v' == p.lo[col]
    modifies obuf
    ensures Stored(p, n, col + 1, obuf[..], before, done')
  {
    hide Halves, Written, GrownBy, Aims;
    NextPair(p.at, p.full, p.hi, p.lo, n, col, before, done);
    done' := Put(obuf, op, v, opb, v', p.was, p.full, done);
  }

  /** Filling the pipeline: the first four samples give the first pair of coefficients. */
  method Precharge(ibuf: array<int>, ip: nat, obuf: array<int>, op: int, opb: int,
                   ghost p: Plan, ghost n: nat, ghost before: set<int>)
    returns (cp: int, d: int, ghost done: set<int>)
    requires ibuf != obuf && Stored(p, n, 0, obuf[..], before, before) && n >= 2
    requires |p.x| == |p.at| == 2 * n && |p.hi| == n && op == p.at[0] && opb == p.at[n]
    requires ip + 4 <= ibuf.Length && forall j | 0 <= j < 4 :: ibuf[ip + j] == p.x[j]
    modifies obuf
    ensures cp == p.hi[1] && d == p.x[3] && Stored(p, n, 1, obuf[..], before, done)
  {
    hide Stored;
    StoredHalf(p, n, 0, obuf[..], before, before, 0);
    StoredHalf(p, n, 0, obuf[..], before, before, 1);
    var ap, b := ibuf[ip], ibuf[ip + 1];
    cp := ibuf[ip + 2];
    d := ibuf[ip + 3];
    ap := ap - b;
    cp := cp - (b + d) / 2;
    done := StorePair(obuf, op, ap, opb, b + (ap + cp + 2) / 4, p, n, 0, before, before);
  }

  /** One turn of the pipeline: two new samples complete pair `col`. */
  method Advance(ibuf: array<int>, ip: nat, obuf: array<int>, op: int, opb: int, cp0: int, d0: int,
                 ghost p: Plan, ghost n: nat, ghost col: nat, ghost before: set<int>, ghost done: set<int>)
    returns (cp: int, d: int, ghost done': set<int>)
    requires ibuf != obuf && Stored(p, n, col, obuf[..], before, done) && 1 <= col < n - 1 && ip + 1 < ibuf.Length
    requires |p.x| == |p.at| == 2 * n && |p.hi| == n && op == p.at[col] && opb == p.at[n + col]
    requires cp0 == p.hi[col] && d0 == p.x[2 * col + 1]
    requires ibuf[ip] == p.x[2 * col + 2] && ibuf[ip + 1] == p.x[2 * col + 3]
    modifies obuf
    ensures cp == p.hi[col + 1] && d == p.x[2 * col + 3] && Stored(p, n, col + 1, obuf[..], before, done')
  {
    hide Stored;
    StoredHalf(p, n, col, obuf[..], before, done, col);
    StoredHalf(p, n, col, obuf[..], before, done, col + 1);
    var ap, b := cp0, d0;
    cp := ibuf[ip];
    d := ibuf[ip + 1];
    cp := cp - (b + d) / 2;
    done' := StorePair(obuf, op, ap, opb, b + (ap + cp + 2) / 4, p, n, col, before, done);
  }

  /** The body of the row loop of `singlelift`: the rolling pipeline along one row, whose samples
      start at ibuf[ip0] and whose coefficients go to the addresses of the plan. */
  method LiftRow(rb: nat, n: nat, ibuf: array<int>, ip0: nat, obuf: array<int>, op0: nat, opb0: nat,
                 ghost p: Plan, ghost before: set<int>)
    returns (ghost done: set<int>)
    requires ibuf != obuf && Stored(p, n, 0, obuf[..], before, before) && n >= 2 && |p.x| == |p.at| == 2 * n
    requires ip0 + 2 * n <= ibuf.Length && forall j | 0 <= j < 2 * n :: ibuf[ip0 + j] == p.x[j]
    requires p.at[0] == op0 && p.at[n] == opb0 && forall i: nat | i < 2 * n - 1 :: NextCell(p.at, i, rb)
    modifies obuf
    ensures Stored(p, n, n, obuf[..], before, done)
  {
    hide Stored;
    StoredHalf(p, n, 0, obuf[..], before, before, n - 1);
    var ip, op: int, opb: int := ip0, op0, opb0;
    var cp, d;
    cp, d, done := Precharge(ibuf, ip, obuf, op, opb, p, n, before);
    ip := ip + 4;
    var col := 1;
    while col < n - 1
      invariant 1 <= col <= n - 1
      invariant op == p.at[col - 1] && opb == p.at[n + col - 1]
      invariant ip == ip0 + 2 * col + 2
      invariant cp == p.hi[col] && d == p.x[2 * col + 1]
      invariant Stored(p, n, col, obuf[..], before, done)
    {
      op := op + rb;
      opb := opb + rb;
      assert NextCell(p.at, col - 1, rb) && NextCell(p.at, n + col - 1, rb);
      cp, d, done := Advance(ibuf, ip, obuf, op, opb, cp, d, p, n, col, before, done);
      ip := ip + 2;
      col := col + 1;
    }
    op := op + rb;
    opb := opb + rb;
    assert NextCell(p.at, n - 2, rb) && NextCell(p.at, 2 * n - 2, rb);
    done := StorePair(obuf, op, cp, opb, d + (cp + 1) / 8, p, n, n - 1, before, done);
  }

  lemma GrownNone(done: set<int>, at: seq<int>)
    ensures GrownBy(done, done, at)
  {}

  lemma LiftData(src: seq<int>, sb: Block, was: seq<int>, db: Block, row: int)
    returns (x: seq<int>, hi: seq<int>, lo: seq<int>, at: seq<int>)
    requires RowOk(false, sb.w) && SameShape(src, sb, was, db) && 0 <= row < sb.w
    ensures Halves(sb.w / 2, x, hi, lo) && |at| == |x| == sb.w && at == Column(db, row)
    ensures 0 <= sb.Index(row, 0) && sb.Index(row, 0) + sb.w <= |src|
    ensures forall j | 0 <= j < sb.w :: src[sb.Index(row, 0) + j] == x[j]
    ensures at[0] == db.off + row && at[sb.w / 2] == db.off + row + sb.w * sb.rb / 2
    ensures forall i: nat | i < sb.w - 1 :: NextCell(at, i, sb.rb)
    ensures Aims(at, Pass(false, src, sb, was, db), hi, lo, sb.w / 2)
  {
    RowData(src, sb, row);
    TargetColumn(src, sb, was, db, row);
    Strides(db, row);
    x, at := Row(src, sb, row), Column(db, row);
    hi, lo := FwdHalves(x);
    assert forall i | 0 <= i < sb.w :: (hi + lo)[i] == if i < sb.w / 2 then hi[i] else lo[i - sb.w / 2];
  }

  /** Just the first `row` columns of the block are done. */
  ghost predicate ColumnsDone(b: Block, row: nat, done: set<int>) {
    forall i, j | 0 <= i < b.w && 0 <= j < b.w :: b.Index(i, j) in done <==> j < row
  }

  lemma ColumnOpen(b: Block, len: nat, row: nat, done: set<int>)
    requires b.Fits(len) && b.w % 2 == 0 && row < b.w && ColumnsDone(b, row, done)
    ensures Written(Column(b, row), b.w / 2, 0, done)
  {
    var at := Column(b, row);
    forall i, j | 0 <= i < j < b.w ensures at[i] != at[j] {
      IndexOf(b, len, i, row);
      IndexOf(b, len, j, row);
    }
    forall i | 0 <= i < b.w ensures at[i] !in done { assert b.Index(i, row) !in done; }
  }

  lemma ColumnClosed(b: Block, len: nat, row: nat, done: set<int>, done': set<int>)
    requires b.Fits(len) && b.w % 2 == 0 && row < b.w && ColumnsDone(b, row, done)
    requires GrownBy(done, done', Column(b, row)) && Written(Column(b, row), b.w / 2, b.w / 2, done')
    ensures ColumnsDone(b, row + 1, done')
  {
    var at := Column(b, row);
    forall i, j | 0 <= i < b.w && 0 <= j < b.w ensures b.Index(i, j) in done' <==> j < row + 1 {
      if j == row {
        assert at[i] in done';
      } else if b.Index(i, j) in at {
        var k :| 0 <= k < b.w && at[k] == b.Index(i, j);
        IndexOf(b, len, i, j);
        IndexOf(b, len, k, row);
      }
    }
  }

  method LiftRowOf(rb: nat, w: nat, ibuf: array<int>, ioff: nat, obuf: array<int>, ooff: nat, row: nat,
                   ghost was: seq<int>, ghost done: set<int>)
    returns (ghost done': set<int>)
    requires RowOk(false, w) && ibuf != obuf && row < w && |was| == obuf.Length
    requires Block(ioff, rb, w).Fits(ibuf.Length) && Block(ooff, rb, w).Fits(obuf.Length)
    requires Progress(obuf[..], was, Pass(false, ibuf[..], Block(ioff, rb, w), was, Block(ooff, rb, w)), done)
    requires ColumnsDone(Block(ooff, rb, w), row, done)
    modifies obuf
    ensures Progress(obuf[..], was, Pass(false, ibuf[..], Block(ioff, rb, w), was, Block(ooff, rb, w)), done')
    ensures ColumnsDone(Block(ooff, rb, w), row + 1, done')
  {
    hide ColumnsDone, Written, GrownBy, Halves, Aims;
    ghost var sb, db := Block(ioff, rb, w), Block(ooff, rb, w);
    ghost var x, hi, lo, at := LiftData(ibuf[..], sb, was, db, row);
    ghost var p := Plan(x, hi, lo, at, was, Pass(false, ibuf[..], sb, was, db));
    ColumnOpen(db, obuf.Length, row, done);
    GrownNone(done, at);
    done' := LiftRow(rb, w / 2, ibuf, ioff + row * rb, obuf, ooff + row, ooff + row + w * rb / 2, p, done);
    ColumnClosed(db, obuf.Length, row, done, done');
  }

  method SingleLift(rb: nat, w: nat, ibuf: array<int>, ioff: nat, obuf: array<int>, ooff: nat)
    requires RowOk(false, w) && ibuf != obuf
    requires Block(ioff, rb, w).Fits(ibuf.Length) && Block(ooff, rb, w).Fits(obuf.Length)
    modifies obuf
    ensures obuf[..] == Pass(false, ibuf[..], Block(ioff, rb, w), old(obuf[..]), Block(ooff, rb, w))
  {
    ghost var db := Block(ooff, rb, w);
    ghost var was := obuf[..];
    ghost var full := Pass(false, ibuf[..], Block(ioff, rb, w), was, db);
    ghost var done: set<int> := {};
    var row := 0;
    while row < w
      invariant 0 <= row <= w
      invariant ibuf[..] == old(ibuf[..]) && Progress(obuf[..], was, full, done)
      invariant ColumnsDone(db, row, done)
    {
      done := LiftRowOf(rb, w, ibuf, ioff, obuf, ooff, row, was, done);
      row := row + 1;
    }
    Finished(obuf[..], was, full, done, db);
  }

  /** Column `row` of the source by address, and row `row` of the finished target. */
  lemma ColData(src: seq<int>, sb: Block, row: int)
    requires sb.Fits(|src|) && 0 <= row < sb.w
    ensures forall i | 0 <= i < sb.w ::
      0 <= Column(sb, row)[i] < |src| && src[Column(sb, row)[i]] == Col(src, sb, row)[i]
  {
    forall i | 0 <= i < sb.w ensures 0 <= Column(sb, row)[i] < |src| {
      IndexOf(sb, |src|, i, row);
    }
  }

  /** The addresses of the even cells of a row that starts at op. */
  ghost function EvenCells(op: int, n: nat): seq<int> { seq(n, k => op + 2 * k) }

  lemma TargetCell(stale: bool, src: seq<int>, sb: Block, was: seq<int>, db: Block, row: int, j: int)
    requires RowOk(stale, sb.w) && SameShape(src, sb, was, db) && 0 <= row < sb.w && 0 <= j < sb.w
    ensures 0 <= db.Index(row, 0) && db.Index(row, 0) + j < |was|
    ensures IPass(stale, src, sb, was, db)[db.Index(row, 0) + j] == Inv(stale, Col(src, sb, row))[j]
  {
    IPassAt(stale, src, sb, was, db, row, 0);
    IPassAt(stale, src, sb, was, db, row, j);
    assert db.Index(row, j) == db.Index(row, 0) + j;
  }

  lemma TargetPair(stale: bool, src: seq<int>, sb: Block, was: seq<int>, db: Block, row: int,
                   ev: seq<int>, od: seq<int>, k: int)
    requires RowOk(stale, sb.w) && SameShape(src, sb, was, db) && 0 <= row < sb.w
    requires |ev| == |od| == db.w / 2 && Inv(stale, Col(src, sb, row)) == Zip(ev, od)
    requires 0 <= k < db.w / 2
    ensures 0 <= db.Index(row, 0) && db.Index(row, 0) + 2 * k + 1 < |was|
    ensures IPass(stale, src, sb, was, db)[db.Index(row, 0) + 2 * k] == ev[k]
    ensures IPass(stale, src, sb, was, db)[db.Index(row, 0) + (2 * k + 1)] == od[k]
  {
    TargetCell(stale, src, sb, was, db, row, 2 * k);
    TargetCell(stale, src, sb, was, db, row, 2 * k + 1);
    ZipAt(ev, od, k);
  }

  /** Row `row` of the finished target of an inverse pass. */
  lemma TargetRow(stale: bool, src: seq<int>, sb: Block, was: seq<int>, db: Block, row: int,
                  ev: seq<int>, od: seq<int>)
    requires RowOk(stale, sb.w) && SameShape(src, sb, was, db) && 0 <= row < sb.w
    requires |ev| == |od| == db.w / 2 && Inv(stale, Col(src, sb, row)) == Zip(ev, od)
    ensures 0 <= db.Index(row, 0) && db.Index(row, 0) + db.w <= |was|
    ensures var full, to := IPass(stale, src, sb, was, db), EvenCells(db.Index(row, 0), db.w / 2);
      forall k {:trigger to[k]} | 0 <= k < db.w / 2 :: full[to[k]] == ev[k] && full[to[k] + 1] == od[k]
  {
    TargetCell(stale, src, sb, was, db, row, sb.w - 1);
    var full, to := IPass(stale, src, sb, was, db), EvenCells(db.Index(row, 0), db.w / 2);
    forall k {:trigger to[k]} | 0 <= k < db.w / 2
      ensures full[to[k]] == ev[k] && full[to[k] + 1] == od[k]
    {
      TargetPair(stale, src, sb, was, db, row, ev, od, k);
    }
  }

  /** The even and odd samples of Inv(stale, y), by the formulas of the unlifting steps. */
  ghost predicate PairAt(stale: bool, n: nat, y: seq<int>, ev: seq<int>, od: seq<int>, k: nat)
    requires |y| == 2 * n && |ev| == |od| == n >= (if stale then 3 else 2) && k < n
  {
    od[k] == (if k == n - 1 then y[2 * n - 1] - (y[k] + 1) / 8
              else y[n + k] - (y[k] + y[k + 1] + 2) / 4) &&
    ev[k] == (if k == 0 then y[0] + od[0]
              else if stale && k == n - 1 then y[k] + (od[k - 2] + od[k]) / 2
              else y[k] + (od[k - 1] + od[k]) / 2)
  }

  ghost predicate Pairs(stale: bool, n: nat, y: seq<int>, ev: seq<int>, od: seq<int>) {
    |y| == 2 * n && |ev| == |od| == n >= (if stale then 3 else 2) &&
    forall k: nat | k < n :: PairAt(stale, n, y, ev, od, k)
  }

  lemma FirstPair(stale: bool, n: nat, y: seq<int>, ev: seq<int>, od: seq<int>)
    requires Pairs(stale, n, y, ev, od)
    ensures |y| == 2 * n && |ev| == |od| == n >= (if stale then 3 else 2)
    ensures od[0] == y[n] - (y[0] + y[1] + 2) / 4 && ev[0] == y[0] + od[0]
  {
    assert PairAt(stale, n, y, ev, od, 0);
  }

  lemma MiddlePair(stale: bool, n: nat, y: seq<int>, ev: seq<int>, od: seq<int>, k: nat)
    requires Pairs(stale, n, y, ev, od) && 0 < k < n - 1
    ensures od[k] == y[n + k] - (y[k] + y[k + 1] + 2) / 4 && ev[k] == y[k] + (od[k - 1] + od[k]) / 2
  {
    assert PairAt(stale, n, y, ev, od, k);
  }

  lemma LastPair(stale: bool, n: nat, y: seq<int>, ev: seq<int>, od: seq<int>)
    requires Pairs(stale, n, y, ev, od)
    ensures od[n - 1] == y[2 * n - 1] - (y[n - 1] + 1) / 8
    ensures ev[n - 1] == y[n - 1] + ((if stale then od[n - 3] else od[n - 2]) + od[n - 1]) / 2
  {
    assert PairAt(stale, n, y, ev, od, n - 1);
  }

  lemma PairIs(stale: bool, n: nat, y: seq<int>, h: seq<int>, l: seq<int>, k: nat)
    requires |h| == |l| == n >= (if stale then 3 else 2) && y == h + l && k < n
    ensures PairAt(stale, n, y, InvEvens(stale, h, InvOdds(h, l)), InvOdds(h, l), k)
  {
    assert forall i | 0 <= i < n :: y[i] == h[i] && y[n + i] == l[i];
  }

  lemma InvPairs(stale: bool, y: seq<int>) returns (ev: seq<int>, od: seq<int>)
    requires RowOk(stale, |y|)
    ensures Pairs(stale, |y| / 2, y, ev, od) && Inv(stale, y) == Zip(ev, od)
  {
    var n := |y| / 2;
    var h, l := y[..n], y[n..];
    od := InvOdds(h, l);
    ev := InvEvens(stale, h, od);
    forall k: nat | k < n ensures PairAt(stale, n, y, ev, od, k) {
      PairIs(stale, n, y, h, l, k);
    }
  }

  /** The first `col` pairs of a target row are in place and nothing outside the row has changed. */
  ghost predicate RowDone(now: seq<int>, was: seq<int>, ev: seq<int>, od: seq<int>, to: seq<int>,
                          op0: nat, n: nat, col: nat)
  {
    |now| == |was| && op0 + 2 * n <= |now| && |ev| == |od| == |to| == n && col <= n &&
    (forall k | 0 <= k < n :: to[k] == op0 + 2 * k) &&
    (forall k {:trigger to[k]} | 0 <= k < col :: now[to[k]] == ev[k] && now[to[k] + 1] == od[k]) &&
    forall a | 0 <= a < |now| && !(op0 <= a < op0 + 2 * n) :: now[a] == was[a]
  }

  lemma RowNone(now: seq<int>, ev: seq<int>, od: seq<int>, to: seq<int>, op0: nat, n: nat)
    requires op0 + 2 * n <= |now| && |ev| == |od| == |to| == n && forall k | 0 <= k < n :: to[k] == op0 + 2 * k
    ensures RowDone(now, now, ev, od, to, op0, n, 0)
  {}

  /** Store the next pair of a row. */
  method PutPair(obuf: array<int>, op: nat, c: int, d: int, ghost was: seq<int>, ghost ev: seq<int>,
                 ghost od: seq<int>, ghost to: seq<int>, ghost op0: nat, ghost n: nat, ghost col: nat)
    requires col < n && RowDone(obuf[..], was, ev, od, to, op0, n, col)
    requires op == op0 + 2 * col && c == ev[col] && d == od[col]
    modifies obuf
    ensures RowDone(obuf[..], was, ev, od, to, op0, n, col + 1)
  {
    obuf[op], obuf[op + 1] := c, d;
  }

  /** The inner loop's body: one more pair, from the next coefficient of each half. */
  method UnliftNext(ghost stale: bool, ghost n: nat, ibuf: array<int>, ip: nat, ipb: nat, obuf: array<int>, op: nat,
                    e0: int, d0: int, ghost was: seq<int>, ghost y: seq<int>, ghost ev: seq<int>, ghost od: seq<int>,
                    ghost to: seq<int>, ghost op0: nat, ghost col: nat)
    returns (b: int, d: int, e: int)
    requires ibuf != obuf && Pairs(stale, n, y, ev, od) && 0 < col < n - 1 && e0 == y[col] && d0 == od[col - 1]
    requires ip < ibuf.Length && ibuf[ip] == y[col + 1] && ipb < ibuf.Length && ibuf[ipb] == y[n + col]
    requires op == op0 + 2 * col && RowDone(obuf[..], was, ev, od, to, op0, n, col)
    modifies obuf
    ensures b == od[col - 1] && d == od[col] && e == y[col + 1]
    ensures RowDone(obuf[..], was, ev, od, to, op0, n, col + 1)
  {
    hide RowDone, Pairs, PairAt;
    MiddlePair(stale, n, y, ev, od, col);
    var c := e0;
    b := d0;
    e := ibuf[ip];
    d := ibuf[ipb] - (c + e + 2) / 4;
    c := c + (b + d) / 2;
    PutPair(obuf, op, c, d, was, ev, od, to, op0, n, col);
  }

  /** The body of the row loop of `ilift`, for coefficients y at the addresses `at`. Without
      `carry` the tail is as written; with it, `b = d` is restored ahead of the last odd sample. */
  method UnliftRow(carry: bool, rb: nat, n: nat, ibuf: array<int>, ip0: nat, ipb0: nat,
                   obuf: array<int>, op0: nat,
                   ghost y: seq<int>, ghost ev: seq<int>, ghost od: seq<int>,
                   ghost at: seq<int>, ghost to: seq<int>)
    requires ibuf != obuf && Pairs(!carry, n, y, ev, od) && |at| == 2 * n && |to| == n
    requires at[0] == ip0 && at[n] == ipb0 && forall i: nat | i < 2 * n - 1 :: NextCell(at, i, rb)
    requires forall i | 0 <= i < 2 * n :: 0 <= at[i] < ibuf.Length && ibuf[at[i]] == y[i]
    requires op0 + 2 * n <= obuf.Length && forall k | 0 <= k < n :: to[k] == op0 + 2 * k
    modifies obuf
    ensures RowDone(obuf[..], old(obuf[..]), ev, od, to, op0, n, n)
  {
    hide RowDone, Pairs, PairAt;
    FirstPair(!carry, n, y, ev, od);
    ghost var was := obuf[..];
    RowNone(was, ev, od, to, op0, n);
    var ip, ipb, op := ip0, ipb0, op0;
    var b: int := *;
    var c := ibuf[ip];
    ip := ip + rb;
    assert NextCell(at, 0, rb);
    var e := ibuf[ip];
    var d := ibuf[ipb] - (c + e + 2) / 4;
    PutPair(obuf, op, c + d, d, was, ev, od, to, op0, n, 0);
    var col := 1;
    while col < n - 1
      invariant 1 <= col <= n - 1
      invariant op == op0 + 2 * (col - 1) && ip == at[col] && ipb == at[n + col - 1]
      invariant e == y[col] && d == od[col - 1]
      invariant col >= 2 ==> b == od[col - 2]
      invariant RowDone(obuf[..], was, ev, od, to, op0, n, col)
    {
      op := op + 2;
      ip := ip + rb;
      ipb := ipb + rb;
      assert NextCell(at, col, rb) && NextCell(at, n + col - 1, rb);
      b, d, e := UnliftNext(!carry, n, ibuf, ip, ipb, obuf, op, e, d, was, y, ev, od, to, op0, col);
      col := col + 1;
    }
    ipb := ipb + rb;
    assert NextCell(at, 2 * n - 2, rb);
    LastPair(!carry, n, y, ev, od);
    if carry {
      b := d;
    }
    d := ibuf[ipb] - (e + 1) / 8;
    c := e + (b + d) / 2;
    PutPair(obuf, op + 2, c, d, was, ev, od, to, op0, n, n - 1);
  }

  lemma UnliftData(stale: bool, src: seq<int>, sb: Block, was: seq<int>, db: Block, row: int)
    returns (y: seq<int>, ev: seq<int>, od: seq<int>, at: seq<int>, to: seq<int>)
    requires RowOk(stale, sb.w) && SameShape(src, sb, was, db) && 0 <= row < sb.w
    ensures Pairs(stale, sb.w / 2, y, ev, od) && |at| == |y| == sb.w && |to| == sb.w / 2
    ensures at[0] == sb.off + row && at[sb.w / 2] == sb.off + row + sb.w * sb.rb / 2
    ensures forall i: nat | i < sb.w - 1 :: NextCell(at, i, sb.rb)
    ensures forall i | 0 <= i < sb.w :: 0 <= at[i] < |src| && src[at[i]] == y[i]
    ensures 0 <= db.Index(row, 0) && db.Index(row, 0) + db.w <= |was|
    ensures forall k | 0 <= k < db.w / 2 :: to[k] == db.Index(row, 0) + 2 * k
    ensures forall k {:trigger to[k]} | 0 <= k < db.w / 2 ::
      var full := IPass(stale, src, sb, was, db); full[to[k]] == ev[k] && full[to[k] + 1] == od[k]
  {
    ColData(src, sb, row);
    Strides(sb, row);
    y, at, to := Col(src, sb, row), Column(sb, row), EvenCells(db.Index(row, 0), sb.w / 2);
    ev, od := InvPairs(stale, y);
    TargetRow(stale, src, sb, was, db, row, ev, od);
  }

  method UnliftRowOf(carry: bool, rb: nat, w: nat, ibuf: array<int>, ioff: nat, obuf: array<int>, ooff: nat,
                     row: nat, ghost was: seq<int>, ghost done: set<int>)
    returns (ghost done': set<int>)
    requires RowOk(!carry, w) && ibuf != obuf && row < w && |was| == obuf.Length
    requires Block(ioff, rb, w).Fits(ibuf.Length) && Block(ooff, rb, w).Fits(obuf.Length)
    requires Progress(obuf[..], was, IPass(!carry, ibuf[..], Block(ioff, rb, w), was, Block(ooff, rb, w)), done)
    modifies obuf
    ensures Progress(obuf[..], was, IPass(!carry, ibuf[..], Block(ioff, rb, w), was, Block(ooff, rb, w)), done')
    ensures done <= done' && forall j | 0 <= j < w :: Block(ooff, rb, w).Index(row, j) in done'
  {
    ghost var sb, db := Block(ioff, rb, w), Block(ooff, rb, w);
    ghost var y, ev, od, at, to := UnliftData(!carry, ibuf[..], sb, was, db, row);
    UnliftRow(carry, rb, w / 2, ibuf, ioff + row, ioff + row + w * rb / 2, obuf, ooff + row * rb,
              y, ev, od, at, to);
    done' := FinishRow(obuf[..], old(obuf[..]), was, IPass(!carry, ibuf[..], sb, was, db),
                       ev, od, to, db, row, done);
  }

  lemma FinishRow(now: seq<int>, before: seq<int>, was: seq<int>, full: seq<int>, ev: seq<int>, od: seq<int>,
                  to: seq<int>, db: Block, row: nat, done: set<int>)
    returns (done': set<int>)
    requires row < db.w && db.w % 2 == 0 && db.Fits(|now|) && 0 <= db.Index(row, 0) && |full| == |now|
    requires RowDone(now, before, ev, od, to, db.Index(row, 0), db.w / 2, db.w / 2)
    requires forall k {:trigger to[k]} | 0 <= k < db.w / 2 :: full[to[k]] == ev[k] && full[to[k] + 1] == od[k]
    requires Progress(before, was, full, done)
    ensures Progress(now, was, full, done') && done <= done'
    ensures forall j | 0 <= j < db.w :: db.Index(row, j) in done'
  {
    var op := db.Index(row, 0);
    done' := done + set j | 0 <= j < db.w :: db.Index(row, j);
    forall j | 0 <= j < db.w ensures op <= db.Index(row, j) < op + db.w {}
    forall a | op <= a < op + db.w ensures now[a] == full[a] && a in done' {
      assert a == if (a - op) % 2 == 0 then to[(a - op) / 2] else to[(a - op) / 2] + 1;
      assert a == db.Index(row, a - op);
    }
  }

  method ILift(carry: bool, rb: nat, w: nat, ibuf: array<int>, ioff: nat, obuf: array<int>, ooff: nat)
    requires RowOk(!carry, w) && ibuf != obuf
    requires Block(ioff, rb, w).Fits(ibuf.Length) && Block(ooff, rb, w).Fits(obuf.Length)
    modifies obuf
    ensures obuf[..] == IPass(!carry, ibuf[..], Block(ioff, rb, w), old(obuf[..]), Block(ooff, rb, w))
  {
    ghost var db := Block(ooff, rb, w);
    ghost var was := obuf[..];
    ghost var full := IPass(!carry, ibuf[..], Block(ioff, rb, w), was, db);
    ghost var done: set<int> := {};
    var row := 0;
    while row < w
      invariant 0 <= row <= w
      invariant ibuf[..] == old(ibuf[..]) && Progress(obuf[..], was, full, done)
      invariant forall i, j | 0 <= i < row && 0 <= j < w :: db.Index(i, j) in done
    {
      done := UnliftRowOf(carry, rb, w, ibuf, ioff, obuf, ooff, row, was, done);
      row := row + 1;
    }
    Finished(obuf[..], was, full, done, db);
  }

  /** Two passes out to `tmpbuf` and back, as both loops of `lifting` do them. */
  method LiftLevel(rb: nat, w: nat, ibuf: array<int>, tmpbuf: array<int>, off: nat)
    requires RowOk(false, w) && ibuf != tmpbuf
    requires Block(off, rb, w).Fits(ibuf.Length) && Block(off, rb, w).Fits(tmpbuf.Length)
    modifies ibuf, tmpbuf
    ensures ibuf[..] == Level(false, old(ibuf[..]), Block(off, rb, w))
  {
    LevelViaAny(false, ibuf[..], Block(off, rb, w), tmpbuf[..]);
    SingleLift(rb, w, ibuf, off, tmpbuf, off);
    SingleLift(rb, w, tmpbuf, off, ibuf, off);
  }

  method UnliftLevel(carry: bool, rb: nat, w: nat, ibuf: array<int>, tmpbuf: array<int>, off: nat)
    requires RowOk(!carry, w) && ibuf != tmpbuf
    requires Block(off, rb, w).Fits(ibuf.Length) && Block(off, rb, w).Fits(tmpbuf.Length)
    modifies ibuf, tmpbuf
    ensures ibuf[..] == ILevel(!carry, old(ibuf[..]), Block(off, rb, w))
  {
    LevelViaAny(!carry, ibuf[..], Block(off, rb, w), tmpbuf[..]);
    ILift(carry, rb, w, ibuf, off, tmpbuf, off);
    ILift(carry, rb, w, tmpbuf, off, ibuf, off);
  }

  const LVLS := 3

  /** The widths `lifting` works on. As written, `ilift` reads `b` before setting it when its
      width is 4, so the uncorrected routine needs one more doubling. */
  ghost predicate WidthOk(carry: bool, w: nat) {
    w % 8 == 0 && (if carry then 16 else 24) <= w
  }

  lemma CornerFits(b: Block, len: nat)
    requires b.Fits(len) && b.w % 2 == 0 && b.w > 0
    ensures b.Corner().Fits(len)
    ensures b.Corner().off == b.off + b.w / 2 * b.rb + b.w / 2
  {
    var n := b.w / 2;
    assert b.w * b.rb == 2 * (n * b.rb);
    assert (b.w - 1) * b.rb == n * b.rb + (n - 1) * b.rb;
  }

  lemma ThreeLevels(stale: bool, b: Block, len: nat)
    requires RowOk(stale, b.w) && RowOk(stale, b.Corner().w) && RowOk(stale, b.Corner().Corner().w)
    requires b.Fits(len) && b.Corner().Fits(len) && b.Corner().Corner().Fits(len)
    ensures LevelsOk(stale, b, LVLS, len)
  {
    assert Nth(b, 0) == b;
    assert Nth(b, 1) == Nth(b, 0).Corner();
    assert Nth(b, 2) == Nth(b, 1).Corner();
  }

  lemma SquareFits(w: nat, len: nat)
    requires w > 0 && w * w <= len
    ensures Block(0, w, w).Fits(len)
  {
    assert (w - 1) * w + w == w * w;
  }

  lemma Eighths(w: nat)
    requires w % 8 == 0
    ensures w % 2 == 0 && w / 2 % 2 == 0 && w / 2 / 2 % 2 == 0
    ensures w >= 16 ==> w / 2 >= 8 && w / 2 / 2 >= 4
    ensures w >= 24 ==> w / 2 >= 12 && w / 2 / 2 >= 6
  {
    var m := w / 8;
    assert w / 2 == 4 * m && w / 2 / 2 == 2 * m;
  }

  lemma WidthLevels(carry: bool, w: nat, len: nat)
    requires WidthOk(carry, w) && w * w <= len
    ensures LevelsOk(!carry, Block(0, w, w), LVLS, len) && LevelsOk(false, Block(0, w, w), LVLS, len)
    ensures forall k | 0 <= k < LVLS :: Nth(Block(0, w, w), k).rb == w && Nth(Block(0, w, w), k).w % 2 == 0
  {
    var b0 := Block(0, w, w);
    SquareFits(w, len);
    Eighths(w);
    CornerFits(b0, len);
    CornerFits(b0.Corner(), len);
    ThreeLevels(!carry, b0, len);
    ThreeLevels(false, b0, len);
    NthRb(b0, 0);
    NthRb(b0, 1);
    NthRb(b0, 2);
  }

  lemma NthRb(b: Block, k: nat)
    ensures Nth(b, k).rb == b.rb
  {}

  lemma LevelReady(b: Block, lvl: nat, len: nat)
    requires LevelsOk(false, b, LVLS, len) && lvl < LVLS
    ensures RowOk(false, Nth(b, lvl).w) && Nth(b, lvl).Fits(len)
    ensures LevelsOk(false, b, lvl, len) && LevelsOk(false, b, lvl + 1, len)
    ensures Nth(b, 0) == b && Nth(b, lvl + 1) == Nth(b, lvl).Corner()
  {}

  lemma ForwardNext(m: seq<int>, b: Block, lvl: nat)
    requires LevelsOk(false, b, lvl + 1, |m|) && LevelsOk(false, b, lvl, |m|)
    ensures Forward(false, m, b, 0) == m
    ensures RowOk(false, Nth(b, lvl).w) && Nth(b, lvl).Fits(|m|)
    ensures Forward(false, m, b, lvl + 1) == Level(false, Forward(false, m, b, lvl), Nth(b, lvl))
  {
    hide Level;
  }

  // ---- three levels, written out ----

  /** The low corner of a w by w image, and the low corner of that. */
  function Second(w: nat): Block { Block(w * w / 2 + w / 2, w, w / 2) }

  function Third(w: nat): Block { Block(w * w / 2 + w / 2 + w / 2 * w / 2 + w / 4, w, w / 4) }

  ghost predicate ThreeFit(stale: bool, w: nat, len: nat) {
    RowOk(stale, w) && RowOk(stale, w / 2) && RowOk(stale, w / 4) &&
    Block(0, w, w).Fits(len) && Second(w).Fits(len) && Third(w).Fits(len)
  }

  ghost function Coded(m: seq<int>, w: nat): (r: seq<int>)
    requires ThreeFit(false, w, |m|)
    ensures |r| == |m|
  {
    Level(false, Level(false, Level(false, m, Block(0, w, w)), Second(w)), Third(w))
  }

  ghost function Decoded(stale: bool, m: seq<int>, w: nat): (r: seq<int>)
    requires ThreeFit(stale, w, |m|)
    ensures |r| == |m|
  {
    ILevel(stale, ILevel(stale, ILevel(stale, m, Third(w)), Second(w)), Block(0, w, w))
  }

  lemma ThreeCorners(w: nat)
    requires w % 8 == 0
    ensures Nth(Block(0, w, w), 0) == Block(0, w, w) && Nth(Block(0, w, w), 1) == Second(w)
    ensures Nth(Block(0, w, w), 2) == Third(w) && Nth(Block(0, w, w), 3).w == w / 8
  {
    assert Nth(Block(0, w, w), 1) == Nth(Block(0, w, w), 0).Corner();
    assert Nth(Block(0, w, w), 2) == Nth(Block(0, w, w), 1).Corner();
    assert Nth(Block(0, w, w), 3) == Nth(Block(0, w, w), 2).Corner();
    assert w / 2 / 2 == w / 4 && w / 4 / 2 == w / 8;
  }

  /** The levels over nested corners are three: those of the whole image, of its corner and of the
      corner's corner. */
  lemma ThreeForward(carry: bool, m: seq<int>, w: nat)
    requires WidthOk(carry, w) && w * w <= |m|
    ensures ThreeFit(!carry, w, |m|) && ThreeFit(false, w, |m|)
    ensures LevelsOk(!carry, Block(0, w, w), LVLS, |m|) && LevelsOk(false, Block(0, w, w), LVLS, |m|)
    ensures Forward(false, m, Block(0, w, w), LVLS) == Coded(m, w)
    ensures Inverse(!carry, m, Block(0, w, w), LVLS) == Decoded(!carry, m, w)
  {
    hide Level, ILevel, Nth, Block.Fits;
    WidthLevels(carry, w, |m|);
    ThreeCorners(w);
    var b := Block(0, w, w);
    ForwardThrice(m, b);
    InverseThrice(!carry, m, b);
  }

  lemma ForwardThrice(m: seq<int>, b: Block)
    requires LevelsOk(false, b, 3, |m|)
    ensures forall k | 0 <= k < 3 :: RowOk(false, Nth(b, k).w) && Nth(b, k).Fits(|m|)
    ensures Forward(false, m, b, 3) == Level(false, Level(false, Level(false, m, Nth(b, 0)), Nth(b, 1)), Nth(b, 2))
  {
    hide Level, Nth, Block.Fits;
    assert Forward(false, m, b, 1) == Level(false, Forward(false, m, b, 0), Nth(b, 0));
    assert Forward(false, m, b, 2) == Level(false, Forward(false, m, b, 1), Nth(b, 1));
  }

  lemma InverseThrice(stale: bool, m: seq<int>, b: Block)
    requires LevelsOk(stale, b, 3, |m|)
    ensures forall k | 0 <= k < 3 :: RowOk(stale, Nth(b, k).w) && Nth(b, k).Fits(|m|)
    ensures Inverse(stale, m, b, 3) ==
      ILevel(stale, ILevel(stale, ILevel(stale, m, Nth(b, 2)), Nth(b, 1)), Nth(b, 0))
  {
    hide ILevel, Nth, Block.Fits;
    var m2 := ILevel(stale, m, Nth(b, 2));
    assert Inverse(stale, m, b, 3) == Inverse(stale, m2, b, 2);
    var m1 := ILevel(stale, m2, Nth(b, 1));
    assert Inverse(stale, m2, b, 2) == Inverse(stale, m1, b, 1);
    assert Inverse(stale, m1, b, 1) == Inverse(stale, ILevel(stale, m1, Nth(b, 0)), b, 0);
  }

  /** The first loop of `lifting`; `ov` collects the offsets of the nested sub-images. */
  method LiftAll(rb: nat, ibuf: array<int>, tmpbuf: array<int>) returns (w: nat, ov: array<int>)
    requires ibuf != tmpbuf && WidthOk(true, rb)
    requires rb * rb <= ibuf.Length && rb * rb <= tmpbuf.Length
    modifies ibuf, tmpbuf
    ensures LevelsOk(false, Block(0, rb, rb), LVLS, ibuf.Length)
    ensures ibuf[..] == Forward(false, old(ibuf[..]), Block(0, rb, rb), LVLS)
    ensures fresh(ov) && ov.Length == LVLS && w == Nth(Block(0, rb, rb), LVLS).w
    ensures forall k | 0 <= k < LVLS :: ov[k] == Nth(Block(0, rb, rb), k + 1).off
    ensures w == rb / 8 && ov.Length == 3 && ov[0] == Second(rb).off && ov[1] == Third(rb).off
    ensures ThreeFit(false, rb, ibuf.Length) && ibuf[..] == Coded(old(ibuf[..]), rb)
  {
    hide Forward, Inverse, Nth, Level, LevelsOk, RowOk, ThreeFit, Coded, Decoded;
    ThreeCorners(rb);
    ThreeForward(true, ibuf[..], rb);
    WidthLevels(true, rb, ibuf.Length);
    WidthLevels(true, rb, tmpbuf.Length);
    ghost var b0, m0 := Block(0, rb, rb), ibuf[..];
    LevelReady(b0, 0, ibuf.Length);
    ForwardNext(m0, b0, 0);
    w := rb;
    var ip: nat := 0;
    ov := new int[3];
    var lvl := 0;
    while lvl < LVLS
      invariant 0 <= lvl <= LVLS && LevelsOk(false, b0, lvl, ibuf.Length)
      invariant Nth(b0, lvl) == Block(ip, rb, w)
      invariant ibuf[..] == Forward(false, m0, b0, lvl)
      invariant forall k | 0 <= k < lvl :: ov[k] == Nth(b0, k + 1).off
    {
      LevelReady(b0, lvl, ibuf.Length);
      LevelReady(b0, lvl, tmpbuf.Length);
      ForwardNext(m0, b0, lvl);
      LiftLevel(rb, w, ibuf, tmpbuf, ip);
      var offset := w * rb / 2 + w / 2;
      ip := ip + offset;
      ov[lvl] := offset + (if lvl != 0 then ov[lvl - 1] else 0);
      w := w / 2;
      lvl := lvl + 1;
    }
  }

  /** The second loop of `lifting`: the same levels, innermost first. */
  method UnliftAll(carry: bool, rb: nat, w0: nat, ibuf: array<int>, tmpbuf: array<int>, ov: array<int>)
    requires ibuf != tmpbuf && ov != ibuf && ov != tmpbuf && WidthOk(carry, rb)
    requires rb * rb <= ibuf.Length && rb * rb <= tmpbuf.Length
    requires ov.Length == LVLS && w0 == Nth(Block(0, rb, rb), LVLS).w
    requires forall k | 0 <= k < LVLS :: ov[k] == Nth(Block(0, rb, rb), k + 1).off
    modifies ibuf, tmpbuf
    ensures LevelsOk(!carry, Block(0, rb, rb), LVLS, ibuf.Length)
    ensures ibuf[..] == Inverse(!carry, old(ibuf[..]), Block(0, rb, rb), LVLS)
    ensures ThreeFit(!carry, rb, ibuf.Length) && ibuf[..] == Decoded(!carry, old(ibuf[..]), rb)
  {
    hide ThreeFit, Coded, Decoded;
    ThreeForward(carry, ibuf[..], rb);
    WidthLevels(carry, rb, ibuf.Length);
    WidthLevels(carry, rb, tmpbuf.Length);
    ghost var b0, coded := Block(0, rb, rb), ibuf[..];
    var w := w0;
    var lvl := LVLS - 1;
    while lvl >= 0
      invariant -1 <= lvl < LVLS && w == Nth(b0, lvl + 1).w
      invariant Inverse(!carry, ibuf[..], b0, lvl + 1) == Inverse(!carry, coded, b0, LVLS)
    {
      w := w * 2;
      var offset := if lvl != 0 then ov[lvl - 1] else 0;
      assert Nth(b0, lvl) == Block(offset, rb, w);
      UnliftLevel(carry, rb, w, ibuf, tmpbuf, offset);
      lvl := lvl - 1;
    }
  }

  /** The whole transform: three nested levels forward, then, when *fwd is zero, back again.
      `tmpbuf` may hold anything. */
  method Lifting(carry: bool, w: nat, ibuf: array<int>, tmpbuf: array<int>, fwd: int)
    requires WidthOk(carry, w) && ibuf != tmpbuf
    requires w * w <= ibuf.Length && w * w <= tmpbuf.Length
    modifies ibuf, tmpbuf
    ensures LevelsOk(false, Block(0, w, w), LVLS, ibuf.Length)
    ensures LevelsOk(!carry, Block(0, w, w), LVLS, ibuf.Length)
    ensures ibuf[..] == var coded := Forward(false, old(ibuf[..]), Block(0, w, w), LVLS);
      if fwd == 0 then Inverse(!carry, coded, Block(0, w, w), LVLS) else coded
    ensures ThreeFit(false, w, ibuf.Length) && ThreeFit(!carry, w, ibuf.Length)
    ensures ibuf[..] == if fwd == 0 then Decoded(!carry, Coded(old(ibuf[..]), w), w) else Coded(old(ibuf[..]), w)
    ensures fwd == 0 && carry ==> ibuf[..] == old(ibuf[..])
  {
    hide ThreeFit, Coded, Decoded;
    WidthLevels(carry, w, ibuf.Length);
    ghost var m0 := ibuf[..];
    ThreeForward(carry, m0, w);
    var w', ov := LiftAll(w, ibuf, tmpbuf);
    if fwd == 0 {
      UnliftAll(carry, w, w', ibuf, tmpbuf, ov);
      InverseForward(false, m0, Block(0, w, w), LVLS);
    }
  }
}
