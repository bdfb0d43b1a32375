/** Reads over the hexbus: which response streams serve a read, and what it then delivers. */
module HexbusReads {
  import Bits
  import opened HexText
  import opened HexbusSpec
  import opened Wrappers

  function Next(a: nat, inc: bool): nat { if inc then (a + 4) % 0x1_0000_0000 else a }

  /** Letters that are neither replies nor notices the parser knows. */
  predicate Ignored(c: char) {
    c != 'R' && c != 'K' && c != 'I' && c != 'E' && c != 'Z' && c != 'A' && c != 'T'
  }

  /** The stream answers reads of the words ws from address a on: the replies in order, and between
      them interrupt notices, unknown letters, restatements of the current address, and for each
      word no more than two idles, z of which have come already. */
  predicate Serves(ts: seq<Token>, ws: seq<nat>, a: nat, inc: bool, z: nat)
    requires Stream(ts)
    decreases |ts|
  {
    ws == [] ||
    (ts != [] && Proper(ts[0]) && Stream(Rest(ts)) &&
     match ts[0].cmd
     case 'R' => Value(ts[0]) == ws[0] && Serves(Rest(ts), ws[1..], Next(a, inc), inc, 0)
     case 'I' => Serves(Rest(ts), ws, a, inc, z)
     case 'Z' => z < 2 && Serves(Rest(ts), ws, a, inc, z + 1)
     case 'A' => Value(ts[0]) == (if inc then a else a + 1) && Serves(Rest(ts), ws, a, inc, z)
     case c => Ignored(c) && Serves(Rest(ts), ws, a, inc, z))
  }

  function Rest(ts: seq<Token>): (r: seq<Token>)
    requires ts != []
    ensures |r| == |ts| - 1
  {
    ts[1..]
  }

  /** The client's fields while it reads at address a. */
  predicate Reading(l: Link, a: nat, inc: bool) { l.addrSet && l.inc == inc && l.lastaddr == a }

  /** What the words that may occur in such a stream do to a client that is reading. */
  lemma ActServing(l: Link, word: nat, left: nat, a: nat, inc: bool)
    requires Reading(l, a, inc) && a % 4 == 0
    ensures var act := Act(l, word, left);
      (l.cmd == 'R' ==> act.Finish? && act.word == word && Reading(act.link, Next(a, inc), inc)) &&
      (l.cmd == 'I' || Ignored(l.cmd) ==> act.Go? && act.left == left && Reading(act.link, a, inc)) &&
      (l.cmd == 'Z' && left > 1 ==> act.Go? && act.left == left - 1 && Reading(act.link, a, inc)) &&
      (l.cmd == 'A' && word == (if inc then a else a + 1) ==> act.Go? && act.left == left && Reading(act.link, a, inc)) &&
      (l.cmd == 'R' || l.cmd == 'I' || l.cmd == 'Z' || l.cmd == 'A' || Ignored(l.cmd) ==>
        act.link.nacks == l.nacks && act.link.busErr == l.busErr)
  {
    Bits.DivModUnique(a, 2, 2 * (a / 4), 0);
    Bits.DivModUnique(a + 1, 2, 2 * (a / 4), 1);
    Bits.DivModUnique(a + 1, 4, a / 4, 1);
  }

  /** What the end of one word does in a stream that serves a read. */
  lemma ServesStep(l: Link, ts: seq<Token>, ws: seq<nat>, a: nat, inc: bool, z: nat)
    requires Stream(ts) && ts != [] && l.cmd == ts[0].cmd && ws != [] && z <= 2 && a % 4 == 0
    requires Serves(ts, ws, a, inc, z) && Reading(l, a, inc)
    ensures var act := Act(l, Value(ts[0]), 3 - z);
      Stream(ts[1..]) && act.link.busErr == l.busErr && act.link.nacks == l.nacks &&
      if ts[0].cmd == 'R' then
        act.Finish? && act.word == ws[0] && Reading(act.link, Next(a, inc), inc) &&
        Serves(ts[1..], ws[1..], Next(a, inc), inc, 0)
      else
        act.Go? && |ts| > 1 && act.left <= 3 && 3 - act.left <= 2 && Reading(act.link, a, inc) &&
        Serves(ts[1..], ws, a, inc, 3 - act.left)
  {
    hide Fold, AllHex, Proper, Stream, Value, Act, Next, Ignored, Reading;
    assert Rest(ts) == ts[1..];
    ActServing(l, Value(ts[0]), 3 - z, a, inc);
  }

  lemma {:induction false} ServedWord(l: Link, ts: seq<Token>, ws: seq<nat>, a: nat, inc: bool, z: nat)
    requires Stream(ts) && ts != [] && !l.isspace && l.cmd == ts[0].cmd && ws != [] && z <= 2 && a % 4 == 0
    requires Serves(ts, ws, a, inc, z) && Reading(l, a, inc)
    ensures var (o, m, ts') := ReadTokens(l, 3 - z, ts);
      o == Got(ws[0]) && Reading(m, Next(a, inc), inc) && m.busErr == l.busErr && m.nacks == l.nacks &&
      Stream(ts') && Serves(ts', ws[1..], Next(a, inc), inc, 0)
    decreases |ts|
  {
    hide Serves, Act, Fold, AllHex, Next, Proper;
    ServesStep(l, ts, ws, a, inc, z);
    assert Proper(ts[0]);
    ActKeeps(l, Value(ts[0]), 3 - z);
    var act := Act(l, Value(ts[0]), 3 - z);
    if act.Go? {
      ServedWord(act.link.(cmd := ts[1].cmd), ts[1..], ws, a, inc, 3 - act.left);
    }
  }

  /** n calls of `readword`, up to the first that does not return a word. */
  datatype Batch = Batch(words: seq<nat>, stop: Option<Outcome>, link: Link, input: seq<char>)

  function ReadMany(l: Link, input: seq<char>, n: nat): Batch
    decreases n
  {
    if n == 0 then Batch([], None, l, input)
    else
      var (o, m, rest) := ReadWord(l, 0, 3, input);
      match o
      case Got(w) =>
        var b := ReadMany(m, rest, n - 1);
        b.(words := [w] + b.words)
      case _ => Batch([], Some(o), m, rest)
  }

  /** Over a stream that serves it, a read delivers the words in order and ends at the address after
      the last of them. */
  lemma {:induction false} ServedRead(l: Link, input: seq<char>, ts: seq<Token>, ws: seq<nat>, a: nat, inc: bool)
    requires Before(l, input, ts) && Serves(ts, ws, a, inc, 0) && Reading(l, a, inc)
    requires a % 4 == 0 && a < 0x1_0000_0000
    ensures var b := ReadMany(l, input, |ws|);
      b.words == ws && b.stop.None? && b.link.inc == inc && b.link.addrSet && b.link.busErr == l.busErr &&
      b.link.lastaddr == if inc then (a + 4 * |ws|) % 0x1_0000_0000 else a
    decreases |ws|
  {
    hide Serves, Before, ReadWord, ReadTokens, Stream;
    if ws != [] {
      var m, rest, ts' := ServedNext(l, input, ts, ws, a, inc);
      ServedRead(m, rest, ts', ws[1..], Next(a, inc), inc);
      assert [ws[0]] + ws[1..] == ws;
      NextMany(a, |ws| - 1);
    }
  }

  lemma NextMany(a: nat, n: nat)
    ensures ((a + 4) % 0x1_0000_0000 + 4 * n) % 0x1_0000_0000 == (a + 4 * (n + 1)) % 0x1_0000_0000
    ensures a % 4 == 0 ==> (a + 4) % 0x1_0000_0000 % 4 == 0
  {}

  lemma BeforeStream(l: Link, input: seq<char>, ts: seq<Token>)
    requires Before(l, input, ts)
    ensures Stream(ts)
  {}

  lemma ServesSome(ts: seq<Token>, ws: seq<nat>, a: nat, inc: bool)
    requires Stream(ts) && Serves(ts, ws, a, inc, 0) && ws != []
    ensures ts != []
  {}

  /** One word of a served read. */
  lemma ServedNext(l: Link, input: seq<char>, ts: seq<Token>, ws: seq<nat>, a: nat, inc: bool)
    returns (m: Link, rest: seq<char>, ts': seq<Token>)
    requires Before(l, input, ts) && Serves(ts, ws, a, inc, 0) && Reading(l, a, inc) && a % 4 == 0 && ws != []
    ensures ReadWord(l, 0, 3, input) == (Got(ws[0]), m, rest)
    ensures Before(m, rest, ts') && Serves(ts', ws[1..], Next(a, inc), inc, 0) && Reading(m, Next(a, inc), inc)
    ensures m.busErr == l.busErr
  {
    hide ReadWord, ReadTokens, Serves, Tail, Text, SkipSpace, Next, Stream;
    BeforeStream(l, input, ts);
    ServesSome(ts, ws, a, inc);
    ReadsStream(l, 3, input, ts);
    var l0 := l.(cmd := ts[0].cmd, isspace := false);
    ServedWord(l0, ts, ws, a, inc, 0);
    var (o, m0, rest0) := ReadWord(l, 0, 3, input);
    var (o', m', t') := ReadTokens(l0, 3, ts);
    m, rest, ts' := m0, rest0, t';
  }

  // ---- what decides a word ----

  function Idles(ts: seq<Token>): nat {
    if ts == [] then 0 else (if ts[0].cmd == 'Z' then 1 else 0) + Idles(ts[1..])
  }

  /** The first reply, error or third idle decides: before it nothing comes back from `readword`. */
  lemma {:induction false} FirstDecides(l: Link, left: nat, ts: seq<Token>, i: nat)
    requires Stream(ts) && i < |ts| && l.cmd == ts[0].cmd && !l.isspace
    requires (forall j | 0 <= j < i :: ts[j].cmd != 'R' && ts[j].cmd != 'E') && Idles(ts[..i]) < left
    ensures var o := ReadTokens(l, left, ts).0;
      Proper(ts[i]) && (ts[i].cmd == 'R' ==> o == Got(Value(ts[i]))) && (ts[i].cmd == 'E' ==> o.Fault?) &&
      (ts[i].cmd == 'Z' && Idles(ts[..i]) + 1 == left ==> o == Fault(0))
    decreases |ts|
  {
    hide Fold, AllHex, Act, Stream, Past;
    StreamRest(ts);
    Decides(l, Value(ts[0]), left);
    if i > 0 {
      MoreIdles(ts, i);
      var act := Act(l, Value(ts[0]), left);
      ActKeeps(l, Value(ts[0]), left);
      assert ts[..i][1..] == ts[1..][..i - 1] && ts[..i][0] == ts[0] && ts[1..][i - 1] == ts[i];
      assert act.Go? && act.left == left - (if ts[0].cmd == 'Z' then 1 else 0);
      FirstDecides(act.link.(cmd := ts[1].cmd), act.left, ts[1..], i - 1);
    }
  }

  /** A read gives up at the third idle, with address 0, if neither a reply nor an error came first. */
  lemma ThirdIdle(l: Link, input: seq<char>, ts: seq<Token>, i: nat)
    requires Before(l, input, ts) && i < |ts| && ts[i].cmd == 'Z' && Idles(ts[..i]) == 2
    requires forall j | 0 <= j < i :: ts[j].cmd != 'R' && ts[j].cmd != 'E'
    ensures var b := ReadMany(l, input, 1); b.words == [] && b.stop == Some(Fault(0))
  {
    hide ReadWord, ReadTokens, Tail, Text, SkipSpace, Stream;
    BeforeStream(l, input, ts);
    ReadsStream(l, 3, input, ts);
    FirstDecides(l.(cmd := ts[0].cmd, isspace := false), 3, ts, i);
  }

  // ---- what a word leaves behind ----

  /** The words of ts with command letter c. */
  function Letters(ts: seq<Token>, c: char): nat {
    if ts == [] then 0 else Bits.One(ts[0].cmd == c) + Letters(ts[1..], c)
  }

  /** The address n words on, if the client counts. */
  function Counted(l: Link, n: nat): nat { if l.inc then (l.lastaddr + 4 * n) % 0x1_0000_0000 else l.lastaddr }

  /** The fields from l to m over the words `used`: acknowledges are counted, a notice raises the
      interrupt, a reset forgets the address, and without a new address each reply and each
      acknowledge counts it up by one word. */
  ghost predicate Accounts(l: Link, m: Link, used: seq<Token>) {
    m.nacks == l.nacks + Letters(used, 'K') &&
    (m.interrupt <==> l.interrupt || Letters(used, 'I') > 0) &&
    (m.busErr <==> l.busErr || Letters(used, 'E') > 0) &&
    (Letters(used, 'A') == 0 ==>
      m.inc == l.inc && (m.addrSet <==> l.addrSet && Letters(used, 'T') == 0) &&
      (l.lastaddr < 0x1_0000_0000 ==> m.lastaddr == Counted(l, Letters(used, 'R') + Letters(used, 'K'))))
  }

  lemma ActAccounts(l: Link, t: Token, left: nat)
    requires Proper(t) && l.cmd == t.cmd
    ensures var act := Act(l, Value(t), left);
      Accounts(l, act.link, [t]) && (t.cmd == 'E' ==> act == Throw(act.link, act.link.lastaddr, true)) &&
      (t.cmd != 'E' && act.Throw? ==> t.cmd == 'Z') &&
      (t.cmd != 'A' && l.lastaddr < 0x1_0000_0000 ==> act.link.lastaddr < 0x1_0000_0000)
  {
    hide Fold, AllHex;
    OneLetter(t, 'A');
    OneLetter(t, 'E');
    OneLetter(t, 'I');
    OneLetter(t, 'K');
    OneLetter(t, 'R');
    OneLetter(t, 'T');
  }

  lemma OneLetter(t: Token, c: char)
    ensures Letters([t], c) == Bits.One(t.cmd == c)
  {}

  lemma MoreLetters(t: Token, ts: seq<Token>, c: char)
    ensures Letters([t] + ts, c) == Letters([t], c) + Letters(ts, c)
  {
    OneLetter(t, c);
    assert ([t] + ts)[1..] == ts;
  }

  lemma AccountsJoin(l: Link, k: Link, m: Link, t: Token, used: seq<Token>, cmd: char)
    requires Accounts(l, k, [t]) && Accounts(k.(cmd := cmd), m, used)
    requires t.cmd != 'A' && l.lastaddr < 0x1_0000_0000 ==> k.lastaddr < 0x1_0000_0000
    ensures Accounts(l, m, [t] + used)
  {
    hide Letters;
    MoreLetters(t, used, 'A');
    MoreLetters(t, used, 'E');
    MoreLetters(t, used, 'I');
    MoreLetters(t, used, 'K');
    MoreLetters(t, used, 'R');
    MoreLetters(t, used, 'T');
    OneLetter(t, 'A');
    WrapTwice(l.lastaddr, Letters([t], 'R') + Letters([t], 'K'), Letters(used, 'R') + Letters(used, 'K'));
  }

  lemma WrapTwice(a: nat, x: nat, y: nat)
    ensures ((a + 4 * x) % 0x1_0000_0000 + 4 * y) % 0x1_0000_0000 == (a + 4 * (x + y)) % 0x1_0000_0000
  {}

  lemma AccountsLatched(l: Link, k: Link, used: seq<Token>, cmd: char, isspace: bool)
    requires Accounts(l, k, used)
    ensures Accounts(l, k.(cmd := cmd, isspace := isspace), used)
  {
    hide Letters;
  }

  lemma PastIs(l: Link, ts: seq<Token>)
    requires ts != [] && Stream(ts)
    ensures Past(l, ts) == l.(cmd := Past(l, ts).cmd, isspace := Past(l, ts).isspace)
  {}

  /** Over any words, `readword` leaves the fields that the words it has used up account for; an error
      throws the address reached. */
  lemma {:induction false} ReadsAccount(l: Link, left: nat, ts: seq<Token>)
    requires Stream(ts) && ts != [] && l.cmd == ts[0].cmd && !l.isspace
    ensures var (o, m, ts') := ReadTokens(l, left, ts);
      |ts'| < |ts| && ts' == ts[|ts| - |ts'|..] &&
      var used := ts[..|ts| - |ts'|];
      Accounts(l, m, used) && (used[|used| - 1].cmd == 'E' ==> o == Fault(m.lastaddr))
    decreases |ts|
  {
    hide Act, Fold, AllHex, Accounts, Proper, Past, Stream;
    StreamRest(ts);
    ActKeeps(l, Value(ts[0]), left);
    ActAccounts(l, ts[0], left);
    var act := Act(l, Value(ts[0]), left);
    var k := act.link;
    assert ts[..1] == [ts[0]];
    PastIs(k, ts);
    AccountsLatched(l, k, [ts[0]], Past(k, ts).cmd, Past(k, ts).isspace);
    if act.Go? {
      if |ts| == 1 {
        AccountsLatched(l, k, [ts[0]], k.cmd, true);
      } else {
        var l' := k.(cmd := ts[1].cmd);
        ReadsAccount(l', act.left, ts[1..]);
        var (o, m, ts') := ReadTokens(l', act.left, ts[1..]);
        var rest := ts[1..][..|ts| - 1 - |ts'|];
        AccountsJoin(l, k, m, ts[0], rest, ts[1].cmd);
        assert ts[..|ts| - |ts'|] == [ts[0]] + rest;
      }
    }
  }

  lemma MoreIdles(ts: seq<Token>, i: nat)
    requires 0 < i <= |ts|
    ensures Idles(ts[..i]) == (if ts[0].cmd == 'Z' then 1 else 0) + Idles(ts[1..][..i - 1])
  {
    assert ts[..i][1..] == ts[1..][..i - 1];
  }

  lemma Decides(l: Link, word: nat, left: nat)
    ensures var act := Act(l, word, left);
      if l.cmd == 'R' then act.Finish? && act.word == word
      else if l.cmd == 'E' then act.Throw?
      else if l.cmd == 'Z' && left <= 1 then act.Throw? && act.addr == 0
      else act.Go? && act.left == left - (if l.cmd == 'Z' then 1 else 0)
  {}

  /** A client that has read nothing yet: whatever the uninitialised space flag holds, the first
      reply is found. */
  lemma FreshBefore(l: Link, ts: seq<Token>)
    requires Stream(ts) && ts != [] && l.cmd == 0 as char
    ensures var all := if l.isspace then ts else [Token(0 as char, [], [])] + ts;
      Before(l, Text(ts), all) &&
      forall ws, a, inc :: Serves(ts, ws, a, inc, 0) ==> Serves(all, ws, a, inc, 0)
  {
    var all := [Token(0 as char, [], [])] + ts;
    var none: seq<char> := [];
    SkipGap(none, ts);
    assert none + Text(ts) == Text(ts);
    assert Rest(all) == ts && all[1..] == ts;
    forall i | 0 <= i < |all| ensures Proper(all[i]) { if i > 0 { assert all[i] == ts[i - 1]; } }
    TailSplits(all);
  }

  /** One more word. */
  lemma {:induction false} ManyNext(l: Link, input: seq<char>, n: nat)
    requires ReadMany(l, input, n).stop.None?
    ensures var b, c := ReadMany(l, input, n), ReadMany(l, input, n + 1);
      var (o, m, rest) := ReadWord(b.link, 0, 3, b.input);
      c == if o.Got? then Batch(b.words + [o.word], None, m, rest) else Batch(b.words, Some(o), m, rest)
    ensures |ReadMany(l, input, n).words| == n
    decreases n
  {
    hide ReadWord;
    if n > 0 {
      var (o, m, rest) := ReadWord(l, 0, 3, input);
      ManyNext(m, rest, n - 1);
      var ws, all := ReadMany(m, rest, n - 1).words, ReadMany(m, rest, n).words;
      if |all| == n { assert [o.word] + all == [o.word] + ws + [all[n - 1]]; }
    }
  }

  /** Reading stops for good at the first word that does not come. */
  lemma {:induction false} ManyStops(l: Link, input: seq<char>, k: nat, n: nat)
    requires k <= n && ReadMany(l, input, k).stop.Some?
    ensures ReadMany(l, input, n) == ReadMany(l, input, k)
    decreases k
  {
    hide ReadWord;
    if k > 0 {
      var (o, m, rest) := ReadWord(l, 0, 3, input);
      if o.Got? { ManyStops(m, rest, k - 1, n - 1); }
    }
  }
}
