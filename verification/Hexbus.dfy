/** The hexbus client of sw/host/hexbus.cpp: requests go out as text, replies come in as text. The
    line is a sequence of characters still to come; where it runs out, the source would wait. */
module Hexbus {
  import Bits
  import opened HexText
  import opened HexbusSpec
  import opened HexbusReads
  import opened Wrappers

  /** How `readv` ends: done, with an exception, waiting, or at the mismatch exit. */
  datatype Ending = Complete | Thrown(addr: nat) | Blocked | Mismatch

  /** The address with the no-increment flag in its lowest bit. */
  function Flagged(a: nat, inc: bool): nat { if inc || a % 2 == 1 then a else a + 1 }

  /** `encode_address`: nothing if the address is already set. */
  function EncodeAddress(l: Link, a: nat): seq<char>
  {
    if l.addrSet && a == l.lastaddr && l.inc == (a % 2 == 0) then [] else ['A'] + Padded(a, 8)
  }

  /** n read requests. */
  function Requests(n: nat): seq<char> { if n == 0 then [] else Requests(n - 1) + ['R', '\n'] }

  class Hexbus {
    var cmd: char
    var isspace: bool
    var addrSet: bool
    var inc: bool
    var lastaddr: nat
    var nacks: nat
    var interrupt: bool
    var busErr: bool
    var input: seq<char>
    var sent: seq<char>

    /** `m_isspace` is never set by the source's initialisation, so it is whatever was there. */
    constructor (line: seq<char>, stale: bool)
      ensures View() == Link(0 as char, stale, false, false, 0, 0, false, false) && input == line && sent == []
    {
      cmd, isspace, addrSet, inc, lastaddr, nacks := 0 as char, stale, false, false, 0, 0;
      interrupt, busErr, input, sent := false, false, line, [];
    }

    function View(): Link
      reads this
    {
      Link(cmd, isspace, addrSet, inc, lastaddr, nacks, interrupt, busErr)
    }

    method CountAddress()
      modifies this`lastaddr
      ensures View() == Advance(old(View()))
    {
      if inc {
        lastaddr := (lastaddr + 4) % 0x1_0000_0000;
      }
    }

    method OnOther(c: char)
      modifies this`cmd, this`isspace
      ensures View() == Latch(old(View()), c)
    {
      if !IsSpace(c) {
        cmd := c;
        isspace := false;
      } else {
        isspace := true;
      }
    }

    /** The branches of `readword` on the command letter. */
    method Dispatch(word: nat, left: nat) returns (act: Action, left': nat)
      modifies this`addrSet, this`inc, this`lastaddr, this`nacks, this`interrupt, this`busErr
      ensures act == Act(old(View()), word, left) && act.link == View() && (act.Go? ==> left' == act.left)
    {
      left' := left;
      match cmd
      case 'R' =>
        CountAddress();
        act := Finish(View(), word);
      case 'K' =>
        CountAddress();
        nacks := nacks + 1;
        act := Go(View(), left');
      case 'I' =>
        interrupt := true;
        act := Go(View(), left');
      case 'E' =>
        busErr := true;
        act := Throw(View(), lastaddr, true);
      case 'Z' =>
        if left <= 1 {
          act := Throw(View(), 0, false);
        } else {
          left' := left - 1;
          act := Go(View(), left');
        }
      case 'A' =>
        addrSet := true;
        inc := word % 2 == 0;
        lastaddr := word / 4 * 4;
        act := Go(View(), left');
      case 'T' =>
        addrSet := false;
        act := Go(View(), left');
      case _ =>
        act := Go(View(), left');
    }

    /** `readword`: characters are taken until a word is complete, a fault is thrown, or none is left. */
    method ReadWord() returns (o: Outcome)
      modifies this`cmd, this`isspace, this`addrSet, this`inc, this`lastaddr, this`nacks, this`interrupt, this`busErr
      modifies this`input
      ensures (o, View(), input) == HexbusSpec.ReadWord(old(View()), 0, 3, old(input))
    {
      hide Act, Latch;
      var word: nat, left: nat := 0, 3;
      while true
        invariant HexbusSpec.ReadWord(View(), word, left, input) == HexbusSpec.ReadWord(old(View()), 0, 3, old(input))
        decreases |input|
      {
        if input == [] {
          return Waiting;
        }
        var c := input[0];
        input := input[1..];
        if IsHex(c) {
          isspace := false;
          word := (16 * word + DigitOf(c)) % 0x1_0000_0000;
        } else {
          var act := Go(View(), left);
          if !isspace {
            act, left := Dispatch(word, left);
          }
          match act
          case Throw(_, addr, latched) =>
            if latched {
              OnOther(c);
            }
            return Fault(addr);
          case Finish(_, w) =>
            OnOther(c);
            return Got(w);
          case Go(_, _) =>
            OnOther(c);
            word := 0;
        }
      }
    }

    /** One request and its reply. */
    method Ask() returns (o: Outcome)
      modifies this
      ensures (o, View(), input) == HexbusSpec.ReadWord(old(View()), 0, 3, old(input))
      ensures sent == old(sent) + ['R', '\n']
    {
      hide HexbusSpec.ReadWord;
      sent := sent + ['R', '\n'];
      o := ReadWord();
    }

    /** `readv`: one request and one reply at a time, the address only in front of the first. */
    method ReadV(a: nat, inc': bool, len: int, buf: array<nat>) returns (r: Ending)
      requires len <= buf.Length
      modifies this, buf
      ensures len <= 0 ==> r == Complete && View() == old(View()) && sent == old(sent) && buf[..] == old(buf[..])
      ensures len > 0 ==>
        var b := ReadMany(Started(old(View()), a, inc'), old(input), len);
        |b.words| <= len && View() == b.link && input == b.input && r == EndingOf(b, a, inc', len) &&
        buf[..] == b.words + old(buf[..])[|b.words|..] &&
        sent == old(sent) + EncodeAddress(old(View()), Flagged(a, inc')) + Requests(Min(len, |b.words| + 1))
    {
      hide ReadMany, HexbusSpec.ReadWord, Padded, EncodeAddress, Flagged, EndingOf, Requests, Moved;
      if len <= 0 {
        return Complete;
      }
      ghost var l0, line, before := Started(View(), a, inc'), input, buf[..];
      sent := sent + EncodeAddress(View(), Flagged(a, inc'));
      ghost var opening := sent;
      lastaddr := a;
      addrSet := true;
      inc := inc';
      var nread := 0;
      ghost var words: seq<nat> := [];
      ManyNone(l0, line);
      assert Requests(0) == [] by { RequestsNone(); }
      while nread < len
        invariant 0 <= nread == |words| <= len && buf[..] == words + before[nread..]
        invariant ReadMany(l0, line, nread) == Batch(words, None, View(), input)
        invariant sent == opening + Requests(nread)
      {
        ManyNext(l0, line, nread);
        RequestsNext(opening, nread);
        var o := Ask();
        match o
        case Got(w) =>
          Store(buf, nread, w, words, before);
          words := words + [w];
          nread := nread + 1;
        case Fault(_) =>
          Ended(l0, line, nread, len, a, inc');
          r := Thrown(Moved(a, inc', nread));
          return;
        case Waiting =>
          Ended(l0, line, nread, len, a, inc');
          r := Blocked;
          return;
      }
      EndsAs(ReadMany(l0, line, len), a, inc', len);
      r := if lastaddr != Moved(a, inc', len) then Mismatch else Complete;
    }
  }

  /** The next word enters the buffer behind those that are there. */
  method Store(buf: array<nat>, n: nat, w: nat, ghost words: seq<nat>, ghost before: seq<nat>)
    requires n == |words| < buf.Length == |before| && buf[..] == words + before[n..]
    modifies buf
    ensures buf[..] == (words + [w]) + before[n + 1..]
  {
    buf[n] := w;
  }

  function Min(a: int, b: int): int { if a < b then a else b }

  /** The fields once `readv` has set its address. */
  function Started(l: Link, a: nat, inc: bool): Link { l.(lastaddr := a, addrSet := true, inc := inc) }

  /** The address n words on. */
  function Moved(a: nat, inc: bool, n: nat): nat { (a + if inc then 4 * n else 0) % 0x1_0000_0000 }

  function EndingOf(b: Batch, a: nat, inc: bool, n: nat): Ending {
    match b.stop
    case None => if b.link.lastaddr == Moved(a, inc, n) then Complete else Mismatch
    case Some(Waiting) => Blocked
    case Some(_) => Thrown(Moved(a, inc, |b.words|))
  }

  lemma RequestsNone()
    ensures Requests(0) == []
  {}

  lemma RequestsNext(opening: seq<char>, n: nat)
    ensures opening + Requests(n) + ['R', '\n'] == opening + Requests(n + 1)
  {
    assert opening + Requests(n) + ['R', '\n'] == opening + (Requests(n) + ['R', '\n']);
  }

  lemma EndsAs(b: Batch, a: nat, inc: bool, n: nat)
    ensures EndingOf(b, a, inc, n) ==
      if b.stop.None? then if b.link.lastaddr == Moved(a, inc, n) then Complete else Mismatch
      else if b.stop.value.Waiting? then Blocked else Thrown(Moved(a, inc, |b.words|))
  {}

  /** A read throws the address of the first word that it could not fetch. */
  lemma ThrowsAt(b: Batch, a: nat, inc: bool, n: nat)
    ensures EndingOf(b, a, inc, n).Thrown? <==> b.stop.Some? && !b.stop.value.Waiting?
    ensures EndingOf(b, a, inc, n).Thrown? ==>
      EndingOf(b, a, inc, n).addr == (if inc then a + 4 * |b.words| else a) % 0x1_0000_0000
  {}

  /** How a read ends at the first word that does not come. */
  lemma Ended(l: Link, line: seq<char>, n: nat, len: nat, a: nat, inc: bool)
    requires n < len && ReadMany(l, line, n).stop.None? && ReadMany(l, line, n + 1).stop.Some?
    ensures var b := ReadMany(l, line, len);
      b == ReadMany(l, line, n + 1) && |b.words| == n && Min(len, |b.words| + 1) == n + 1 &&
      EndingOf(b, a, inc, len) == if b.stop.value.Waiting? then Blocked else Thrown(Moved(a, inc, n))
  {
    hide ReadMany, HexbusSpec.ReadWord, Moved, EndingOf;
    ManyNext(l, line, n);
    ManyStops(l, line, n + 1, len);
    EndsAs(ReadMany(l, line, len), a, inc, len);
  }

  lemma ManyNone(l: Link, input: seq<char>)
    ensures ReadMany(l, input, 0) == Batch([], None, l, input)
  {}

  /** On a line that serves the read, `readv` fills the buffer with the words and never reaches its
      mismatch exit. */
  lemma ServedReadCompletes(l: Link, input: seq<char>, ts: seq<Token>, ws: seq<nat>, a: nat, inc: bool)
    requires Before(l, input, ts) && Serves(ts, ws, a, inc, 0) && a % 4 == 0 && a < 0x1_0000_0000
    ensures var b := ReadMany(Started(l, a, inc), input, |ws|);
      b.words == ws && EndingOf(b, a, inc, |ws|) == Complete && b.link.lastaddr == Moved(a, inc, |ws|)
  {
    hide ReadMany, Serves, Stream, SkipSpace, Text, Tail, EndingOf;
    ServedRead(Started(l, a, inc), input, ts, ws, a, inc);
    EndsAs(ReadMany(Started(l, a, inc), input, |ws|), a, inc, |ws|);
    SmallMod(a);
  }

  lemma SmallMod(a: nat)
    requires a < 0x1_0000_0000
    ensures a % 0x1_0000_0000 == a
  {}

  // ---- the text sent ----

  /** n read requests, as words. */
  function Asking(n: nat): seq<Token> { seq(n, _ => Token('R', [], ['\n'])) }

  /** What goes out for a read, as words. */
  function ReadCommand(a: nat, inc: bool, n: nat): seq<Token> {
    [Token('A', Padded(Flagged(a, inc), 8), [])] + Asking(n)
  }

  /** The first word of a read command sets the address and the increment flag that the client
      assumes. */
  lemma AddressArrives(l: Link, a: nat, inc: bool, n: nat, left: nat)
    requires a % 4 == 0 && a < 0x1_0000_0000 && l.cmd == 'A'
    ensures var t := ReadCommand(a, inc, n)[0];
      Proper(t) && Act(l, Value(t), left) == Go(l.(addrSet := true, inc := inc, lastaddr := a), left)
  {
    hide Padded, Fold;
    AddressInverts(Flagged(a, inc));
    FlagSplits(a, inc);
  }

  /** n read requests, as words and as characters. */
  lemma {:induction false} RequestText(n: nat)
    ensures Text(Asking(n)) == Requests(n)
  {
    hide Text, Tail, Requests;
    TextSplits(Asking(n));
    if n == 0 {
      RequestsNone();
    } else {
      RequestText(n - 1);
      assert Asking(n)[1..] == Asking(n - 1);
      RequestsFront(n - 1);
      OneRequest(Requests(n - 1));
    }
  }

  lemma OneRequest(rest: seq<char>)
    ensures ['R'] + ([] + (['\n'] + rest)) == ['R', '\n'] + rest
  {
    var none: seq<char> := [];
    assert none + (['\n'] + rest) == ['\n'] + rest;
  }

  lemma {:induction false} RequestsFront(n: nat)
    ensures Requests(n + 1) == ['R', '\n'] + Requests(n)
  {
    if n > 0 {
      RequestsFront(n - 1);
      assert ['R', '\n'] + Requests(n - 1) + ['R', '\n'] == ['R', '\n'] + Requests(n);
    }
  }

  /** The characters of a read command are those words, for any number of requests. */
  lemma CommandText(a: nat, inc: bool, n: nat)
    ensures Text(ReadCommand(a, inc, n)) == ['A'] + Padded(Flagged(a, inc), 8) + Requests(n)
  {
    hide Padded, Tail, Requests;
    var digits, t := Padded(Flagged(a, inc), 8), ReadCommand(a, inc, n);
    assert t == [Token('A', digits, [])] + Asking(n) && t[1..] == Asking(n);
    TailSplits(t);
    RequestText(n);
    var none: seq<char> := [];
    assert none + Requests(n) == Requests(n);
    assert ['A'] + (digits + Requests(n)) == ['A'] + digits + Requests(n);
  }

  lemma FlagSplits(a: nat, inc: bool)
    requires a % 4 == 0 && a < 0x1_0000_0000
    ensures var f := Flagged(a, inc); f < 0x1_0000_0000 && f / 4 * 4 == a && (f % 2 == 0) == inc
  {
    var q := a / 4;
    Bits.DivModUnique(a, 2, 2 * q, 0);
    Bits.DivModUnique(a + 1, 2, 2 * q, 1);
    Bits.DivModUnique(a + 1, 4, q, 1);
  }

  /** The address is left out exactly when the fields say that it is set and counting up. */
  lemma AddressOmittedIff(l: Link, a: nat, inc: bool)
    requires l.lastaddr % 4 == 0 && a % 4 == 0
    ensures EncodeAddress(l, Flagged(a, inc)) == [] <==> l.addrSet && l.inc && inc && l.lastaddr == a
  {
    hide Padded, Flagged;
    FlagParity(a, inc, l.lastaddr);
    assert |['A'] + Padded(Flagged(a, inc), 8)| == 9;
  }

  lemma FlagParity(a: nat, inc: bool, b: nat)
    requires a % 4 == 0 && b % 4 == 0
    ensures (Flagged(a, inc) % 2 == 0) == inc && (Flagged(a, inc) == b <==> inc && a == b)
  {
    Fours(a / 4, b / 4);
  }

  lemma Fours(q: nat, p: nat)
    ensures 4 * q % 2 == 0 && (4 * q + 1) % 2 == 1 && 4 * q + 1 != 4 * p
  {
    var k := 2 * q;
    assert 4 * q == k + k;
    Even(k);
  }

  lemma Even(k: nat)
    ensures (k + k) % 2 == 0 && (k + k + 1) % 2 == 1
  {}

  /** The words of a write: `W%x`, with nothing after the letter for zero. */
  function WriteCommand(ws: seq<nat>): seq<Token> {
    seq(|ws|, i requires 0 <= i < |ws| => Token('W', Shortest(ws[i]), ['\n']))
  }

  /** Every word written can be read back from its text. */
  lemma WritesInvert(ws: seq<nat>, i: nat)
    requires i < |ws| && ws[i] < 0x1_0000_0000
    ensures var t := WriteCommand(ws)[i];
      Proper(t) && Value(t) == ws[i] && Text([t]) == ['W'] + Shortest(ws[i]) + ['\n']
  {
    ShortestInverts(ws[i]);
    TailSplits([WriteCommand(ws)[i]]);
  }
}
