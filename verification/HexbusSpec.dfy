/** The response parser of sw/host/hexbus.cpp as a function of the characters received, and what it
    means for a stream of command words. */
module HexbusSpec {
  import opened HexText

  /** The parser's and the client's fields. */
  datatype Link = Link(cmd: char, isspace: bool, addrSet: bool, inc: bool, lastaddr: nat, nacks: nat,
                       interrupt: bool, busErr: bool)

  /** A word, a thrown BUSERR, or input that ran out while the source would wait for more. */
  datatype Outcome = Got(word: nat) | Fault(addr: nat) | Waiting

  // ---- the end of a word: the command letter says what it was ----

  datatype Action = Go(link: Link, left: nat) | Finish(link: Link, word: nat) | Throw(link: Link, addr: nat, latched: bool)

  function Advance(l: Link): Link { if l.inc then l.(lastaddr := (l.lastaddr + 4) % 0x1_0000_0000) else l }

  /** `left` is `abort_countdown`. */
  function Act(l: Link, word: nat, left: nat): Action {
    match l.cmd
    case 'R' => Finish(Advance(l), word)
    case 'K' => Go(Advance(l).(nacks := l.nacks + 1), left)
    case 'I' => Go(l.(interrupt := true), left)
    case 'E' => Throw(l.(busErr := true), l.lastaddr, true)
    case 'Z' => if left <= 1 then Throw(l, 0, false) else Go(l, left - 1)
    case 'A' => Go(l.(addrSet := true, inc := word % 2 == 0, lastaddr := word / 4 * 4), left)
    case 'T' => Go(l.(addrSet := false), left)
    case _ => Go(l, left)
  }

  /** A character that ends a word is either space or the next command letter. */
  function Latch(l: Link, c: char): Link {
    if IsSpace(c) then l.(isspace := true) else l.(cmd := c, isspace := false)
  }

  /** `readword` on the input still to come, with the result, the fields and the input left over. */
  function ReadWord(l: Link, word: nat, left: nat, input: seq<char>): (Outcome, Link, seq<char>)
    decreases |input|
  {
    if input == [] then (Waiting, l, [])
    else
      var c, rest := input[0], input[1..];
      if IsHex(c) then ReadWord(l.(isspace := false), (16 * word + DigitOf(c)) % 0x1_0000_0000, left, rest)
      else if l.isspace then ReadWord(Latch(l, c), 0, left, rest)
      else match Act(l, word, left)
        case Go(m, left') => ReadWord(Latch(m, c), 0, left', rest)
        case Finish(m, w) => (Got(w), Latch(m, c), rest)
        case Throw(m, a, latched) => (Fault(a), if latched then Latch(m, c) else m, rest)
  }

  // ---- words on the line ----

  /** A command letter, its digits, and the white space after them, which may be missing. */
  datatype Token = Token(cmd: char, digits: seq<char>, gap: seq<char>)

  predicate Proper(t: Token) {
    !IsHex(t.cmd) && !IsSpace(t.cmd) && AllHex(t.digits) && forall i | 0 <= i < |t.gap| :: IsSpace(t.gap[i])
  }

  /** The last word is known to be over. */
  predicate Stream(ts: seq<Token>) {
    (forall i | 0 <= i < |ts| :: Proper(ts[i])) && (ts != [] ==> ts[|ts| - 1].gap != [])
  }

  function Text(ts: seq<Token>): seq<char> {
    if ts == [] then [] else [ts[0].cmd] + Tail(ts)
  }

  /** The text without its first letter. */
  function Tail(ts: seq<Token>): seq<char>
    requires ts != []
    decreases |ts|, 0
  {
    ts[0].digits + ts[0].gap + if |ts| == 1 then [] else [ts[1].cmd] + Tail(ts[1..])
  }

  function SkipSpace(s: seq<char>): seq<char> {
    if s != [] && IsSpace(s[0]) then SkipSpace(s[1..]) else s
  }

  /** The parser is in front of the words ts: either before the letter of the first, perhaps with
      space to skip, or just past it. */
  predicate Before(l: Link, input: seq<char>, ts: seq<Token>) {
    Stream(ts) &&
    if l.isspace then SkipSpace(input) == Text(ts)
    else ts != [] && l.cmd == ts[0].cmd && input == Tail(ts)
  }

  // ---- the same by words ----

  function Value(t: Token): nat
    requires Proper(t)
  {
    Fold(0, t.digits)
  }

  /** The parser state once the first word of ts is known to be over. */
  function Past(l: Link, ts: seq<Token>): Link
    requires ts != [] && Stream(ts)
  {
    if ts[0].gap != [] then l.(isspace := true) else l.(cmd := ts[1].cmd, isspace := false)
  }

  /** `readword` word by word, just past the letter of the first. */
  function ReadTokens(l: Link, left: nat, ts: seq<Token>): (Outcome, Link, seq<Token>)
    requires Stream(ts) && ts != [] && l.cmd == ts[0].cmd && !l.isspace
    decreases |ts|
  {
    match Act(l, Value(ts[0]), left)
    case Go(m, left') =>
      if |ts| == 1 then (Waiting, m.(isspace := true), []) else ReadTokens(m.(cmd := ts[1].cmd), left', ts[1..])
    case Finish(m, w) => (Got(w), Past(m, ts), ts[1..])
    case Throw(m, a, latched) => (Fault(a), if latched then Past(m, ts) else m, ts[1..])
  }

  // ---- the parser refines the reading by words ----

  lemma {:induction false} EatDigits(l: Link, word: nat, left: nat, ds: seq<char>, rest: seq<char>)
    requires !l.isspace && AllHex(ds)
    ensures ReadWord(l, word, left, ds + rest) == ReadWord(l, Fold(word, ds), left, rest)
    decreases |ds|
  {
    if ds == [] {
      assert ds + rest == rest;
    } else {
      assert (ds + rest)[1..] == ds[1..] + rest;
      EatDigits(l, (16 * word + DigitOf(ds[0])) % 0x1_0000_0000, left, ds[1..], rest);
    }
  }

  lemma SpaceNotHex(c: char)
    requires IsSpace(c)
    ensures !IsHex(c)
  {}

  lemma {:induction false} EatSpace(l: Link, left: nat, input: seq<char>)
    requires l.isspace
    ensures ReadWord(l, 0, left, input) == ReadWord(l, 0, left, SkipSpace(input))
    decreases |input|
  {
    if input != [] && IsSpace(input[0]) {
      SpaceNotHex(input[0]);
      EatSpace(l, left, input[1..]);
    }
  }

  lemma TextStarts(ts: seq<Token>)
    requires Stream(ts)
    ensures Text(ts) == [] || !IsSpace(Text(ts)[0])
  {
    if ts != [] { assert Proper(ts[0]); }
  }

  /** White space in front of a word's letter is skipped. */
  lemma {:induction false} SkipGap(gap: seq<char>, ts: seq<Token>)
    requires (forall i | 0 <= i < |gap| :: IsSpace(gap[i])) && Stream(ts)
    ensures SkipSpace(gap + Text(ts)) == Text(ts)
    decreases |gap|
  {
    hide Text, Stream;
    if gap == [] {
      assert gap + Text(ts) == Text(ts);
      TextStarts(ts);
    } else {
      assert (gap + Text(ts))[1..] == gap[1..] + Text(ts);
      SkipGap(gap[1..], ts);
    }
  }

  lemma StreamTail(ts: seq<Token>)
    requires Stream(ts) && ts != []
    ensures Stream(ts[1..]) && Proper(ts[0])
    ensures Tail(ts) == ts[0].digits + (ts[0].gap + Text(ts[1..]))
    ensures |ts| > 1 ==> ts[1..][0] == ts[1]
  {
    StreamRest(ts);
    TailSplits(ts);
  }

  lemma StreamRest(ts: seq<Token>)
    requires Stream(ts) && ts != []
    ensures Stream(ts[1..]) && Proper(ts[0])
  {
    hide Proper;
    var r := ts[1..];
    if r != [] { assert r[|r| - 1] == ts[|ts| - 1]; }
    forall i | 0 <= i < |r| ensures Proper(r[i]) { assert r[i] == ts[i + 1]; }
  }

  lemma TailSplits(ts: seq<Token>)
    requires ts != []
    ensures Tail(ts) == ts[0].digits + (ts[0].gap + Text(ts[1..]))
  {
    var r := ts[1..];
    assert ts[0].digits + ts[0].gap + Text(r) == ts[0].digits + (ts[0].gap + Text(r));
  }

  lemma TextSplits(ts: seq<Token>)
    ensures Text(ts) == if ts == [] then [] else [ts[0].cmd] + (ts[0].digits + (ts[0].gap + Text(ts[1..])))
  {
    if ts != [] { TailSplits(ts); }
  }

  /** The end of the first word: its space, or the next word's letter. */
  lemma WordEnds(l: Link, ts: seq<Token>) returns (c: char, rest: seq<char>)
    requires Stream(ts) && ts != [] && l.cmd == ts[0].cmd && !l.isspace
    ensures ts[0].gap + Text(ts[1..]) == [c] + rest && !IsHex(c)
    ensures Latch(l, c) == Past(l, ts) && Before(Latch(l, c), rest, ts[1..])
  {
    hide Proper;
    StreamRest(ts);
    if ts[0].gap != [] {
      c, rest := SpaceEnds(l, ts);
    } else {
      c, rest := LetterEnds(l, ts);
    }
  }

  lemma SpaceEnds(l: Link, ts: seq<Token>) returns (c: char, rest: seq<char>)
    requires ts != [] && Stream(ts) && Stream(ts[1..]) && Proper(ts[0]) && ts[0].gap != []
    ensures ts[0].gap + Text(ts[1..]) == [c] + rest && !IsHex(c)
    ensures Latch(l, c) == Past(l, ts) && Before(Latch(l, c), rest, ts[1..])
  {
    hide Text, Tail, Fold, Stream;
    var gap := ts[0].gap;
    c, rest := gap[0], gap[1..] + Text(ts[1..]);
    assert gap + Text(ts[1..]) == [c] + rest;
    SpaceNotHex(c);
    SkipGap(gap[1..], ts[1..]);
  }

  lemma LetterEnds(l: Link, ts: seq<Token>) returns (c: char, rest: seq<char>)
    requires ts != [] && Stream(ts) && Stream(ts[1..]) && Proper(ts[0]) && ts[0].gap == []
    ensures ts[0].gap + Text(ts[1..]) == [c] + rest && !IsHex(c)
    ensures Latch(l, c) == Past(l, ts) && Before(Latch(l, c), rest, ts[1..])
  {
    hide Tail, Fold, AllHex;
    assert Proper(ts[1]);
    c, rest := ts[1].cmd, Tail(ts[1..]);
    assert ts[1..][0] == ts[1];
    assert Text(ts[1..]) == [c] + rest;
    var none: seq<char> := [];
    assert none + Text(ts[1..]) == Text(ts[1..]);
  }

  /** In front of words, the parser gets to the first one's digits. */
  lemma Arrive(l: Link, left: nat, input: seq<char>, ts: seq<Token>)
    requires Before(l, input, ts) && ts != []
    ensures ReadWord(l, 0, left, input) == ReadWord(l.(cmd := ts[0].cmd, isspace := false), 0, left, Tail(ts))
  {
    if l.isspace {
      EatSpace(l, left, input);
      assert Proper(ts[0]);
      assert Text(ts)[1..] == Tail(ts);
    }
  }

  lemma AtEnd(l: Link, word: nat, left: nat, c: char, rest: seq<char>)
    requires !l.isspace && !IsHex(c)
    ensures var act, r := Act(l, word, left), ReadWord(l, word, left, [c] + rest);
      (act.Go? ==> r == ReadWord(Latch(act.link, c), 0, act.left, rest)) &&
      (act.Finish? ==> r == (Got(act.word), Latch(act.link, c), rest)) &&
      (act.Throw? ==> r == (Fault(act.addr), if act.latched then Latch(act.link, c) else act.link, rest))
  {
    assert ([c] + rest)[1..] == rest;
  }

  lemma ActKeeps(l: Link, word: nat, left: nat)
    ensures Act(l, word, left).link.cmd == l.cmd && Act(l, word, left).link.isspace == l.isspace
  {}

  lemma Ending(l: Link, left: nat, input: seq<char>)
    requires l.isspace && SkipSpace(input) == []
    ensures ReadWord(l, 0, left, input) == (Waiting, l, [])
  {
    EatSpace(l, left, input);
  }

  /** Character by character and word by word come to the same, for any stream of words. */
  lemma {:induction false} ReadsTokens(l: Link, left: nat, ts: seq<Token>)
    requires Stream(ts) && ts != [] && l.cmd == ts[0].cmd && !l.isspace
    ensures var (o, m, rest) := ReadWord(l, 0, left, Tail(ts));
      var (o', m', ts') := ReadTokens(l, left, ts);
      o == o' && m == m' && (o.Got? ==> Before(m, rest, ts'))
    decreases |ts|
  {
    hide Act, ReadWord, Latch, Past, Fold, SkipSpace, AllHex, IsHex, IsSpace;
    StreamTail(ts);
    ActKeeps(l, Value(ts[0]), left);
    var c, rest := WordEnds(Act(l, Value(ts[0]), left).link, ts);
    EatDigits(l, 0, left, ts[0].digits, [c] + rest);
    AtEnd(l, Value(ts[0]), left, c, rest);
    match Act(l, Value(ts[0]), left)
    case Go(m, left') =>
      assert Before(Latch(m, c), rest, ts[1..]);
      if |ts| == 1 {
        assert Latch(m, c) == Past(m, ts) == m.(isspace := true) by { LastPast(m, ts); }
        Ending(Latch(m, c), left', rest);
      } else {
        Arrive(Latch(m, c), left', rest, ts[1..]);
        LatchKeeps(m, c);
        ReadsTokens(m.(cmd := ts[1].cmd), left', ts[1..]);
      }
    case Finish(m, w) =>
    case Throw(m, a, latched) =>
  }

  lemma LastPast(l: Link, ts: seq<Token>)
    requires Stream(ts) && |ts| == 1
    ensures Past(l, ts) == l.(isspace := true)
  {}

  lemma LatchKeeps(l: Link, c: char)
    requires !l.isspace
    ensures forall d: char :: Latch(l, c).(cmd := d, isspace := false) == l.(cmd := d)
  {}

  /** The same from anywhere in front of the words. */
  lemma ReadsStream(l: Link, left: nat, input: seq<char>, ts: seq<Token>)
    requires Before(l, input, ts) && ts != []
    ensures var (o, m, rest) := ReadWord(l, 0, left, input);
      var (o', m', ts') := ReadTokens(l.(cmd := ts[0].cmd, isspace := false), left, ts);
      o == o' && m == m' && (o.Got? ==> Before(m, rest, ts'))
  {
    Arrive(l, left, input, ts);
    ReadsTokens(l.(cmd := ts[0].cmd, isspace := false), left, ts);
  }
}
