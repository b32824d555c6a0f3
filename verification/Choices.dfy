/** The two choices into which the search splits a condition on one bit (src/search.h, src/condition.cpp). */
module Choices {
  import opened BitsliceFunctions

  /** The symbol of each condition, in the order of the condition read as a number. */
  const COND2CHAR: string := "#0u3n5x71-ABCDE?"

  /** First and second choice for each condition. */
  const CHOICES: seq<string> := ["##", "00", "uu", "0u", "nn", "0n", "un", "0x", "11", "01", "1u", "-u", "1n", "-n", "1x", "-x"]

  /** A condition on one bit allows some of the codes 0 (both bits zero), 1 (u), 2 (n) and 3 (both bits one). */
  predicate OneBit(c: Cond) {
    c <= {0, 1, 2, 3}
  }

  function CodeOf(c: Cond): (n: nat)
    ensures n < 16
  {
    (if 0 in c then 1 else 0) + (if 1 in c then 2 else 0) + (if 2 in c then 4 else 0) + (if 3 in c then 8 else 0)
  }

  function FromCode(n: nat): Cond {
    (if n % 2 == 1 then {0} else {}) + (if n / 2 % 2 == 1 then {1} else {}) + (if n / 4 % 2 == 1 then {2} else {})
    + (if n / 8 % 2 == 1 then {3} else {})
  }

  /** The number of the condition with a symbol. */
  function Char2Cond(ch: char): nat {
    match ch
    case '#' => 0 case '0' => 1 case 'u' => 2 case '3' => 3 case 'n' => 4 case '5' => 5 case 'x' => 6 case '7' => 7
    case '1' => 8 case '-' => 9 case 'A' => 10 case 'B' => 11 case 'C' => 12 case 'D' => 13 case 'E' => 14 case '?' => 15
    case _ => 255
  }

  lemma SymbolNumber(n: nat)
    requires n < 16
    ensures Char2Cond(COND2CHAR[n]) == n
  {
    assert COND2CHAR[0] == '#' && COND2CHAR[1] == '0' && COND2CHAR[2] == 'u' && COND2CHAR[3] == '3';
    assert COND2CHAR[4] == 'n' && COND2CHAR[5] == '5' && COND2CHAR[6] == 'x' && COND2CHAR[7] == '7';
    assert COND2CHAR[8] == '1' && COND2CHAR[9] == '-' && COND2CHAR[10] == 'A' && COND2CHAR[11] == 'B';
    assert COND2CHAR[12] == 'C' && COND2CHAR[13] == 'D' && COND2CHAR[14] == 'E' && COND2CHAR[15] == '?';
  }

  function ChoiceCode(n: nat, second: bool): nat
    requires n < 16
  {
    Char2Cond(CHOICES[n][if second then 1 else 0])
  }

  function Choice(c: Cond, second: bool): Cond {
    FromCode(ChoiceCode(CodeOf(c), second))
  }

  ghost predicate Splits(n: nat, a: nat, b: nat) {
    && FromCode(a) + FromCode(b) == FromCode(n)
    && if n in {0, 1, 2, 4, 8} then a == b == n else 0 < a < 16 && 0 < b < 16 && FromCode(a) !! FromCode(b)
  }

  lemma TableSplits(n: nat)
    requires n < 16
    ensures Splits(n, ChoiceCode(n, false), ChoiceCode(n, true))
  {
    hide Splits;
    SplitsLow();
    SplitsHigh();
    match n
    case 0 => case 1 => case 2 => case 3 => case 4 => case 5 => case 6 => case 7 => case 8 => case 9 => case 10 =>
    case 11 => case 12 => case 13 => case 14 => case _ =>
  }

  lemma SplitsLow()
    ensures Splits(0, 0, 0) && Splits(1, 1, 1) && Splits(2, 2, 2) && Splits(3, 1, 2)
    ensures Splits(4, 4, 4) && Splits(5, 1, 4) && Splits(6, 2, 4) && Splits(7, 1, 6)
  {
  }

  lemma SplitsHigh()
    ensures Splits(8, 8, 8) && Splits(9, 1, 8) && Splits(10, 8, 2) && Splits(11, 9, 2)
    ensures Splits(12, 8, 4) && Splits(13, 9, 4) && Splits(14, 8, 6) && Splits(15, 9, 6)
  {
  }

  lemma CodeFrom(c: Cond)
    requires OneBit(c)
    ensures FromCode(CodeOf(c)) == c
  {
  }

  /** More than one value. */
  ghost predicate Several(c: Cond) {
    exists a, b :: a in c && b in c && a != b
  }

  lemma SeveralCode(c: Cond)
    requires OneBit(c)
    ensures Several(c) <==> CodeOf(c) !in {0, 1, 2, 4, 8}
  {
    if CodeOf(c) !in {0, 1, 2, 4, 8} {
      if 0 in c && 1 in c { assert Several(c); }
      else if 0 in c && 2 in c { assert Several(c); }
      else if 0 in c && 3 in c { assert Several(c); }
      else if 1 in c && 2 in c { assert Several(c); }
      else if 1 in c && 3 in c { assert Several(c); }
      else { assert 2 in c && 3 in c; }
    }
  }

  /** Together the two choices are the condition: no value is lost by trying both. A condition with at most one
      value is its own choice; otherwise the choices are not empty and disjoint, and hence smaller. */
  lemma ChoicesCover(c: Cond)
    requires OneBit(c)
    ensures Choice(c, false) + Choice(c, true) == c
    ensures !Several(c) ==> Choice(c, false) == c && Choice(c, true) == c
    ensures Several(c) ==> Choice(c, false) != {} && Choice(c, true) != {} && Choice(c, false) !! Choice(c, true)
  {
    CodeFrom(c);
    SeveralCode(c);
    TableSplits(CodeOf(c));
    hide CodeOf, Several, OneBit;
    NotEmpty(ChoiceCode(CodeOf(c), false));
    NotEmpty(ChoiceCode(CodeOf(c), true));
  }

  lemma NotEmpty(n: nat)
    ensures 0 < n < 16 ==> FromCode(n) != {}
  {
    if 0 < n < 16 {
      if n % 2 == 1 { assert 0 in FromCode(n); }
      else if n / 2 % 2 == 1 { assert 1 in FromCode(n); }
      else if n / 4 % 2 == 1 { assert 2 in FromCode(n); }
      else { assert 3 in FromCode(n); }
    }
  }

  // ---- which choice comes first ----

  /** The two bits of a code: in the first message and in the second one. */
  function FirstBit(v: nat): nat { v % 2 }

  function SecondBit(v: nat): nat { v / 2 % 2 }

  /** The values with the same bit in both messages, or with different bits. */
  function WithBits(c: Cond, equal: bool): Cond {
    set v | v in c && (FirstBit(v) == SecondBit(v)) == equal
  }

  /** Equal bits come first; among two values that are both equal, or both different, the smaller one. */
  ghost predicate EqualFirst(c: Cond, first: Cond, second: Cond) {
    if WithBits(c, true) != {} && WithBits(c, false) != {} then
      first == WithBits(c, true) && second == WithBits(c, false)
    else
      exists v, w :: v < w && c == {v, w} && first == {v} && second == {w}
  }

  /** For every condition with several values. */
  lemma ChoiceOrder(c: Cond)
    requires OneBit(c) && Several(c)
    ensures EqualFirst(c, Choice(c, false), Choice(c, true))
  {
    CodeFrom(c);
    SeveralCode(c);
    TableOrder(CodeOf(c));
  }

  ghost predicate Ordered(n: nat, a: nat, b: nat) {
    EqualFirst(FromCode(n), FromCode(a), FromCode(b))
  }

  lemma TableOrder(n: nat)
    requires n < 16 && n !in {0, 1, 2, 4, 8}
    ensures Ordered(n, ChoiceCode(n, false), ChoiceCode(n, true))
  {
    hide Ordered;
    MixedOrder();
    SameOrder();
    match n
    case 3 => case 5 => case 6 => case 7 => case 9 => case 10 => case 11 => case 12 => case 13 => case 14 => case _ =>
  }

  lemma SameOrder()
    ensures Ordered(6, 2, 4) && Ordered(9, 1, 8)
  {
    assert FromCode(6) == {1, 2} && FromCode(2) == {1} && FromCode(4) == {2};
    assert FromCode(9) == {0, 3} && FromCode(1) == {0} && FromCode(8) == {3};
    hide FromCode;
    assert 1 < 2 && 0 < 3;
  }

  lemma MixedOrder()
    ensures Ordered(3, 1, 2) && Ordered(5, 1, 4) && Ordered(7, 1, 6) && Ordered(10, 8, 2) && Ordered(11, 9, 2)
    ensures Ordered(12, 8, 4) && Ordered(13, 9, 4) && Ordered(14, 8, 6) && Ordered(15, 9, 6)
  {
    Mixed(3, 1, 2);
    Mixed(5, 1, 4);
    Mixed(7, 1, 6);
    Mixed(10, 8, 2);
    Mixed(11, 9, 2);
    Mixed(12, 8, 4);
    Mixed(13, 9, 4);
    Mixed(14, 8, 6);
    Mixed(15, 9, 6);
  }

  /** The conditions 1 and 8 are the equal bits, 2 and 4 the different ones. */
  lemma Mixed(n: nat, a: nat, b: nat)
    requires n == a + b && a in {1, 8, 9} && b in {2, 4, 6}
    ensures Ordered(n, a, b)
  {
    var c, x, y := FromCode(n), FromCode(a), FromCode(b);
    assert c == x + y && x <= {0, 3} && y <= {1, 2} && (0 in x || 3 in x) && (1 in y || 2 in y);
    hide FromCode;
    assert WithBits(c, true) == x && WithBits(c, false) == y;
  }
}
