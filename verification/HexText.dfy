/** The hexadecimal text of sw/host/hexbus.cpp: how words are written and read back. */
module HexText {
  import Bits

  predicate IsDigit(c: char) { '0' <= c <= '9' }

  predicate IsLetter(c: char) { 'a' <= c <= 'f' }

  /** A lower-case hexadecimal digit; capitals are commands. */
  predicate IsHex(c: char) { IsDigit(c) || IsLetter(c) }

  predicate IsSpace(c: char) {
    c == ' ' || c == '\t' || c == '\n' || c == '\r' || c == 11 as char || c == 12 as char
  }

  function DigitOf(c: char): (d: nat)
    requires IsHex(c)
    ensures d < 16
  {
    if IsDigit(c) then c as int - '0' as int else c as int - 'a' as int + 10
  }

  function HexChar(d: nat): (c: char)
    requires d < 16
    ensures IsHex(c) && DigitOf(c) == d
  {
    if d < 10 then ('0' as int + d) as char else ('a' as int + d - 10) as char
  }

  /** White space is the blank and the codes from the tabulator to the carriage return. */
  lemma SpaceCodes(c: char)
    ensures IsSpace(c) <==> c as int == 32 || 9 <= c as int <= 13
  {}

  predicate AllHex(s: seq<char>) { forall i | 0 <= i < |s| :: IsHex(s[i]) }

  /** `word = (word << 4) | digit` over the digits, in a 32-bit register. */
  function Fold(word: nat, s: seq<char>): nat
    requires AllHex(s)
    decreases |s|
  {
    if s == [] then word else Fold((16 * word + DigitOf(s[0])) % 0x1_0000_0000, s[1..])
  }

  /** `%0nx` */
  function Padded(v: nat, n: nat): (s: seq<char>)
    ensures AllHex(s) && |s| == n
  {
    if n == 0 then [] else Padded(v / 16, n - 1) + [HexChar(v % 16)]
  }

  /** `%x` of a word that is not zero, and nothing for zero. */
  function Shortest(v: nat): (s: seq<char>)
    ensures AllHex(s)
  {
    if v == 0 then [] else Shortest(v / 16) + [HexChar(v % 16)]
  }

  lemma {:induction false} FoldLast(word: nat, s: seq<char>, c: char)
    requires AllHex(s) && IsHex(c)
    ensures AllHex(s + [c]) && Fold(word, s + [c]) == (16 * Fold(word, s) + DigitOf(c)) % 0x1_0000_0000
    decreases |s|
  {
    var t := s + [c];
    if s == [] {
      assert t[1..] == [];
    } else {
      assert t[1..] == s[1..] + [c];
      FoldLast((16 * word + DigitOf(s[0])) % 0x1_0000_0000, s[1..], c);
    }
  }

  lemma FoldNone(word: nat)
    ensures Fold(word, []) == word
  {}

  lemma DigitBack(v: nat)
    requires v < 0x1_0000_0000
    ensures (16 * (v / 16) + v % 16) % 0x1_0000_0000 == v
  {}

  /** 16^n */
  function Sixteens(n: nat): nat { if n == 0 then 1 else 16 * Sixteens(n - 1) }

  /** Character i of the padded form is the digit of its place, the most significant first. */
  lemma {:induction false} DigitsInOrder(v: nat, n: nat, i: nat)
    requires i < n
    ensures Sixteens(n - 1 - i) > 0 && Padded(v, n)[i] == "0123456789abcdef"[v / Sixteens(n - 1 - i) % 16]
  {
    Positive(n - 1 - i);
    if i == n - 1 {
      DigitChar(v % 16);
      assert v / Sixteens(0) == v;
    } else {
      DigitsInOrder(v / 16, n - 1, i);
      DivTwice(v, Sixteens(n - 2 - i));
    }
  }

  lemma DigitChar(d: nat)
    requires d < 16
    ensures HexChar(d) == "0123456789abcdef"[d]
  {}

  lemma {:induction false} Positive(n: nat)
    ensures Sixteens(n) > 0
  {
    if n > 0 { Positive(n - 1); }
  }

  lemma DivTwice(v: nat, m: nat)
    requires m > 0
    ensures v / 16 / m == v / (16 * m)
  {
    var h := v / 16;
    var q, r := h / m, h % m;
    assert h == q * m + r;
    assert q * m * 16 == q * (16 * m);
    Bits.DivModUnique(v, 16 * m, q, 16 * r + v % 16);
  }

  /** Reading inverts the zero-padded form of any word that fits the digits. */
  lemma {:induction false} PaddedInverts(v: nat, n: nat)
    requires v < Sixteens(n) && v < 0x1_0000_0000
    ensures Fold(0, Padded(v, n)) == v
  {
    hide Fold;
    if n == 0 {
      FoldNone(0);
    } else {
      DigitBack(v);
      PaddedInverts(v / 16, n - 1);
      FoldLast(0, Padded(v / 16, n - 1), HexChar(v % 16));
    }
  }

  /** An address always goes out as eight digits. */
  lemma AddressInverts(v: nat)
    requires v < 0x1_0000_0000
    ensures Fold(0, Padded(v, 8)) == v
  {
    assert Sixteens(4) == 0x1_0000;
    assert Sixteens(8) == 0x1_0000_0000;
    PaddedInverts(v, 8);
  }

  /** The shortest form is the padded one of its length, and does not begin with a zero. */
  lemma {:induction false} ShortestIsPadded(v: nat)
    ensures Shortest(v) == Padded(v, |Shortest(v)|)
    ensures v > 0 ==> Shortest(v) != [] && Shortest(v)[0] != '0'
  {
    if v > 0 {
      ShortestIsPadded(v / 16);
      if v < 16 { assert Shortest(v / 16) == []; }
    }
  }

  /** Reading inverts the shortest form, the empty one for zero included. */
  lemma {:induction false} ShortestInverts(v: nat)
    requires v < 0x1_0000_0000
    ensures Fold(0, Shortest(v)) == v
  {
    hide Fold;
    if v == 0 {
      FoldNone(0);
    } else {
      DigitBack(v);
      ShortestInverts(v / 16);
      FoldLast(0, Shortest(v / 16), HexChar(v % 16));
    }
  }
}
