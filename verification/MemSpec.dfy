/** The bus memory of sim/verilated/memsim.cpp as a function of the calls so far: the words it holds,
    the replies it owes, and the slots they wait in. */
module MemSpec {
  import opened Bits
  import opened ByteLanes
  import opened Wrappers

  /** One call of `apply`. */
  datatype Request = Request(cyc: bool, stb: bool, we: bool, addr: nat, data: bv32, sel: Select)

  predicate Asks(r: Request) { r.cyc && r.stb }

  /** The word at address a after the calls h. */
  function WordAt(init: seq<bv32>, h: seq<Request>, a: nat): bv32
    requires a < |init|
  {
    if h == [] then init[a]
    else
      var r, before := h[|h| - 1], WordAt(init, h[..|h| - 1], a);
      if Asks(r) && r.we && r.addr % |init| == a then Lanes(r.sel, before, r.data) else before
  }

  function Stored(init: seq<bv32>, h: seq<Request>, r: Request, a: nat): bv32
    requires a < |init|
  {
    if Asks(r) && r.we && r.addr % |init| == a then Lanes(r.sel, WordAt(init, h, a), r.data) else WordAt(init, h, a)
  }

  lemma WordNext(init: seq<bv32>, h: seq<Request>, r: Request, a: nat)
    requires a < |init|
    ensures WordAt(init, h + [r], a) == Stored(init, h, r, a)
  {
    assert (h + [r])[..|h|] == h;
  }

  /** What call i asks for: the word it addresses, its own write included. */
  function Reply(init: seq<bv32>, h: seq<Request>, i: nat): Option<bv32>
    requires i < |h| && init != []
  {
    if Asks(h[i]) then Some(WordAt(init, h[..i + 1], h[i].addr % |init|)) else None
  }

  /** The replies to all the calls h, in order. */
  function Replies(init: seq<bv32>, h: seq<Request>): seq<bv32>
    requires init != []
  {
    if h == [] then []
    else
      Replies(init, h[..|h| - 1]) +
      match Reply(init, h, |h| - 1)
      case None => []
      case Some(w) => [w]
  }

  /** Replies already given stay as they are; the rest belong to the later calls. */
  lemma {:induction false} RepliesPrefix(init: seq<bv32>, h: seq<Request>, k: nat)
    requires init != [] && k <= |h|
    ensures Replies(init, h[..k]) <= Replies(init, h)
    ensures |Replies(init, h)| - |Replies(init, h[..k])| <= |h| - k
  {
    if k == |h| {
      assert h[..k] == h;
    } else {
      var g := h[..|h| - 1];
      RepliesPrefix(init, g, k);
      assert g[..k] == h[..k];
    }
  }

  lemma ReplyKept(init: seq<bv32>, h: seq<Request>, r: Request, i: nat)
    requires i < |h| && init != []
    ensures Reply(init, h + [r], i) == Reply(init, h, i)
  {
    assert (h + [r])[..i + 1] == h[..i + 1];
  }

  lemma RepliesNext(init: seq<bv32>, h: seq<Request>, k: nat)
    requires k < |h| && init != []
    ensures Replies(init, h[..k + 1]) == Replies(init, h[..k]) +
      match Reply(init, h, k) case None => [] case Some(w) => [w]
  {
    var g := h[..k + 1];
    assert g[..|g| - 1] == h[..k] && g[..k + 1] == h[..k + 1];
  }

  /** A delay of zero acts as a delay of one: the slot read is the one the previous call wrote. */
  function Latency(delay: nat): nat { if delay == 0 then 1 else delay }

  /** The calls of h whose replies are out. */
  function Served(h: seq<Request>, latency: nat): seq<Request> {
    h[..if |h| < latency then 0 else |h| - latency]
  }

  /** The buffer slot of call i. */
  function Slot(i: int, size: nat): (s: nat)
    requires size > 0
    ensures s < size
  {
    (i + 1) % size
  }

  /** The slot of call i holds its reply; calls before the first hold no acknowledge. */
  ghost predicate Holds(ack: seq<bool>, data: seq<bv32>, init: seq<bv32>, h: seq<Request>, i: int) {
    |ack| == |data| > 0 && i < |h| && init != [] &&
    var s := Slot(i, |ack|);
    if i < 0 then !ack[s]
    else match Reply(init, h, i)
      case None => !ack[s] && data[s] == 0
      case Some(w) => ack[s] && data[s] == w
  }

  ghost predicate Window(ack: seq<bool>, data: seq<bv32>, init: seq<bv32>, h: seq<Request>) {
    forall i | |h| - |ack| <= i < |h| :: Holds(ack, data, init, h, i)
  }

  /** Calls less than a buffer length apart use different slots. */
  lemma SlotsApart(i: int, j: int, size: nat)
    requires i < j < i + size
    ensures Slot(i, size) != Slot(j, size)
  {
    if Slot(i, size) == Slot(j, size) {
      var qi, qj := (i + 1) / size, (j + 1) / size;
      assert j - i == size * (qj - qi);
      MulApart(size, qj - qi);
      assert false;
    }
  }

  lemma WindowStart(ack: seq<bool>, data: seq<bv32>, init: seq<bv32>)
    requires |ack| == |data| > 0 && init != [] && forall s | 0 <= s < |ack| :: !ack[s]
    ensures Window(ack, data, init, [])
  {}

  lemma NothingYet(init: seq<bv32>, latency: nat)
    requires init != []
    ensures forall a: nat | a < |init| :: WordAt(init, [], a) == init[a]
    ensures Replies(init, Served([], latency)) == []
  {}

  /** One more call moves one more reply out. */
  lemma ServedNext(init: seq<bv32>, h: seq<Request>, r: Request, latency: nat)
    requires latency > 0 && init != []
    ensures Replies(init, Served(h + [r], latency)) == Replies(init, Served(h, latency)) +
      if |h| < latency then []
      else match Reply(init, h + [r], |h| - latency) case None => [] case Some(w) => [w]
  {
    var g := h + [r];
    if |h| >= latency {
      RepliesNext(init, g, |h| - latency);
      assert g[..|h| - latency] == h[..|h| - latency];
    } else {
      assert Served(g, latency) == [] == Served(h, latency);
    }
  }

  /** What the slot of an earlier call gives out. */
  lemma WindowAt(ack: seq<bool>, data: seq<bv32>, init: seq<bv32>, h: seq<Request>, r: Request, i: int)
    requires |ack| == |data| > 0 && init != [] && Window(ack, data, init, h) && |h| - |ack| <= i < |h|
    ensures if i < 0 then !ack[Slot(i, |ack|)]
      else match Reply(init, h + [r], i)
        case None => !ack[Slot(i, |ack|)] && data[Slot(i, |ack|)] == 0
        case Some(w) => ack[Slot(i, |ack|)] && data[Slot(i, |ack|)] == w
  {
    assert Holds(ack, data, init, h, i);
    if i >= 0 { ReplyKept(init, h, r, i); }
  }

  lemma WindowStep(ack: seq<bool>, data: seq<bv32>, ack': seq<bool>, data': seq<bv32>, init: seq<bv32>,
                   h: seq<Request>, r: Request)
    requires |ack| == |data| > 0 && init != [] && Window(ack, data, init, h)
    requires var s := Slot(|h|, |ack|);
      var reply := Reply(init, h + [r], |h|);
      ack' == ack[s := reply.Some?] && data' == data[s := if reply.Some? then reply.value else 0]
    ensures Window(ack', data', init, h + [r])
  {
    var g, size := h + [r], |ack|;
    forall i | |g| - size <= i < |g| ensures Holds(ack', data', init, g, i) {
      if i < |h| {
        assert Holds(ack, data, init, h, i);
        SlotsApart(i, |h|, size);
        if i >= 0 { ReplyKept(init, h, r, i); }
      }
    }
  }
}
