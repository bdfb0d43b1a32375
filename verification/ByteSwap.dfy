/** The word helpers of sw/host/byteswap.cpp. The bus carries flash words with the lowest address in
    the most significant byte; the host stores words least significant byte first. */
module ByteSwap {

  /** `buildword` */
  function BuildWord(b0: nat, b1: nat, b2: nat, b3: nat): nat {
    ((b0 * 256 + b1) * 256 + b2) * 256 + b3
  }

  /** `byteswap`: bytes move from the low end of v to the low end of r. */
  function Swap(v: nat): nat {
    ((v % 256 * 256 + v / 256 % 256) * 256 + v / 256 / 256 % 256) * 256 + v / 256 / 256 / 256 % 256
  }

  /** Byte j of a word in the host's memory. */
  function HostByte(v: nat, j: nat): nat
    requires j < 4
  {
    match j
    case 0 => v % 256
    case 1 => v / 256 % 256
    case 2 => v / 256 / 256 % 256
    case 3 => v / 256 / 256 / 256 % 256
  }

  lemma Digits(v: nat, q: nat, r: nat)
    requires v == q * 256 + r && r < 256
    ensures v / 256 == q && v % 256 == r
  {}

  /** A word read from the bus and swapped lies in the host's memory in flash order. */
  lemma SwapRestores(b0: nat, b1: nat, b2: nat, b3: nat)
    requires b0 < 256 && b1 < 256 && b2 < 256 && b3 < 256
    ensures var v := Swap(BuildWord(b0, b1, b2, b3));
      HostByte(v, 0) == b0 && HostByte(v, 1) == b1 && HostByte(v, 2) == b2 && HostByte(v, 3) == b3
  {
    WordDigits(b0, b1, b2, b3);
    WordDigits(b3, b2, b1, b0);
  }

  lemma WordDigits(b0: nat, b1: nat, b2: nat, b3: nat)
    requires b0 < 256 && b1 < 256 && b2 < 256 && b3 < 256
    ensures var v := BuildWord(b0, b1, b2, b3);
      v % 256 == b3 && v / 256 % 256 == b2 && v / 256 / 256 % 256 == b1 && v / 256 / 256 / 256 % 256 == b0
  {
    var x := b0 * 256 + b1;
    var y := x * 256 + b2;
    Digits(y * 256 + b3, y, b3);
    Digits(y, x, b2);
    Digits(x, b0, b1);
  }

  /** The bus has the first byte in the most significant place; swapping reverses the four bytes, and
      swapping twice does nothing. */
  lemma SwapReverses(b0: nat, b1: nat, b2: nat, b3: nat)
    requires b0 < 256 && b1 < 256 && b2 < 256 && b3 < 256
    ensures BuildWord(b0, b1, b2, b3) == 0x100_0000 * b0 + 0x1_0000 * b1 + 0x100 * b2 + b3
    ensures Swap(BuildWord(b0, b1, b2, b3)) == BuildWord(b3, b2, b1, b0)
    ensures Swap(Swap(BuildWord(b0, b1, b2, b3))) == BuildWord(b0, b1, b2, b3)
  {
    WordDigits(b0, b1, b2, b3);
    WordDigits(b3, b2, b1, b0);
  }

  /** Equal words have equal bytes. */
  lemma SameWord(a0: nat, a1: nat, a2: nat, a3: nat, b0: nat, b1: nat, b2: nat, b3: nat)
    requires a0 < 256 && a1 < 256 && a2 < 256 && a3 < 256 && b0 < 256 && b1 < 256 && b2 < 256 && b3 < 256
    ensures BuildWord(a0, a1, a2, a3) == BuildWord(b0, b1, b2, b3) <==> a0 == b0 && a1 == b1 && a2 == b2 && a3 == b3
  {
    WordDigits(a0, a1, a2, a3);
    WordDigits(b0, b1, b2, b3);
  }

  /** The word at byte i. */
  function WordAt(s: seq<nat>, i: nat): nat
    requires i + 4 <= |s|
  {
    BuildWord(s[i], s[i + 1], s[i + 2], s[i + 3])
  }

  /** A buffer of whole words holds the bytes s. */
  ghost predicate Words(words: seq<nat>, s: seq<nat>) {
    |s| == 4 * |words| && forall i | 0 <= i < |words| :: words[i] == WordAt(s, 4 * i)
  }

  /** Two buffers agree word by word exactly when they agree byte by byte. */
  lemma WordsDecide(u: seq<nat>, v: seq<nat>, s: seq<nat>, t: seq<nat>)
    requires Words(u, s) && Words(v, t) && |s| == |t|
    requires (forall i | 0 <= i < |s| :: s[i] < 256) && forall i | 0 <= i < |t| :: t[i] < 256
    ensures u == v <==> s == t
  {
    forall i: nat | i < |u|
      ensures u[i] == v[i] <==>
        s[4 * i] == t[4 * i] && s[4 * i + 1] == t[4 * i + 1] && s[4 * i + 2] == t[4 * i + 2] && s[4 * i + 3] == t[4 * i + 3]
    {
      SameWord(s[4 * i], s[4 * i + 1], s[4 * i + 2], s[4 * i + 3], t[4 * i], t[4 * i + 1], t[4 * i + 2], t[4 * i + 3]);
    }
    if u == v {
      forall j: nat | j < |s| ensures s[j] == t[j] {
        var i := j / 4;
        assert u[i] == v[i];
      }
    }
  }
}
