/** `hamming_distance` of `retro_flag_duplicates.py`: two hexadecimal
    fingerprints are expanded to bit strings, four bits per digit, and the bits
    are compared position by position up to the shorter string. */
module Hamming {
  import opened Common

  /** The near-duplicate threshold of the retroactive pass. */
  const THRESHOLD: nat := 5

  predicate IsHexDigit(c: char)
  {
    '0' <= c <= '9' || 'a' <= c <= 'f' || 'A' <= c <= 'F'
  }

  /** A string `int(s, 16)` accepts in the plain form a fingerprint takes: one or
      more hexadecimal digits of either case. */
  predicate IsHex(s: string)
  {
    |s| > 0 && forall i :: 0 <= i < |s| ==> IsHexDigit(s[i])
  }

  function DigitValue(c: char): (v: nat)
    requires IsHexDigit(c)
    ensures v < 16
  {
    if '0' <= c <= '9' then c as int - '0' as int
    else if 'a' <= c <= 'f' then c as int - 'a' as int + 10
    else c as int - 'A' as int + 10
  }

  /** The number a digit string denotes in base 16, as `int(s, 16)` computes it. */
  function HexValue(s: string): nat
    requires forall i :: 0 <= i < |s| ==> IsHexDigit(s[i])
  {
    if s == [] then 0 else HexValue(s[..|s| - 1]) * 16 + DigitValue(s[|s| - 1])
  }

  /** The number a bit string denotes in base 2, most significant bit first. */
  function BinValue(b: seq<bool>): nat
  {
    if b == [] then 0 else BinValue(b[..|b| - 1]) * 2 + (if b[|b| - 1] then 1 else 0)
  }

  /** The four bits of one digit value, most significant first. */
  function Nibble(v: nat): (b: seq<bool>)
    requires v < 16
    ensures |b| == 4 && BinValue(b) == v
  {
    var b := [v / 8 == 1, v / 4 % 2 == 1, v / 2 % 2 == 1, v % 2 == 1];
    assert BinValue(b[..1]) == v / 8 by { assert b[..1][..0] == []; }
    assert BinValue(b[..2]) == v / 4 by { assert b[..2][..1] == b[..1]; }
    assert BinValue(b[..3]) == v / 2 by { assert b[..3][..2] == b[..2]; }
    assert b[..4] == b;
    b
  }

  /** `bin(int(s, 16))[2:].zfill(len(s) * 4)`: every digit contributes its
      four bits. */
  function Bits(s: string): (b: seq<bool>)
    requires forall i :: 0 <= i < |s| ==> IsHexDigit(s[i])
    ensures |b| == 4 * |s|
  {
    if s == [] then [] else Bits(s[..|s| - 1]) + Nibble(DigitValue(s[|s| - 1]))
  }

  /** Positions below the shorter length where the two bit strings differ:
      `sum(c1 != c2 for c1, c2 in zip(b1, b2))`. */
  function Differing(x: seq<bool>, y: seq<bool>): nat
  {
    if x == [] || y == [] then 0
    else (if x[0] != y[0] then 1 else 0) + Differing(x[1..], y[1..])
  }

  /** `hamming_distance(a, b)`. */
  function Distance(a: string, b: string): nat
    requires IsHex(a) && IsHex(b)
  {
    Differing(Bits(a), Bits(b))
  }

  /** The bits of a longer bit string carry its prefix shifted left. */
  lemma {:induction false} BinValueAppend(x: seq<bool>, y: seq<bool>)
    ensures BinValue(x + y) == BinValue(x) * Pow2(|y|) + BinValue(y)
  {
    if y == [] {
      assert x + y == x;
    } else {
      var y' := y[..|y| - 1];
      var bit := if y[|y| - 1] then 1 else 0;
      assert (x + y)[..|x + y| - 1] == x + y';
      assert (x + y)[|x + y| - 1] == y[|y| - 1];
      assert BinValue(x + y) == BinValue(x + y') * 2 + bit;
      BinValueAppend(x, y');
      var a, p, c := BinValue(x), Pow2(|y'|), BinValue(y');
      assert Pow2(|y|) == 2 * p;
      assert BinValue(y) == c * 2 + bit;
      ShiftStep(a, p, c, bit);
    }
  }

  lemma ShiftStep(a: int, p: int, c: int, bit: int)
    ensures (a * p + c) * 2 + bit == a * (2 * p) + (c * 2 + bit)
  {
    assert (a * p) * 2 == a * (2 * p);
  }

  function Pow2(n: nat): (p: nat)
    ensures p >= 1
  {
    if n == 0 then 1 else 2 * Pow2(n - 1)
  }

  /** The bit string of a fingerprint is the binary form of the number it
      denotes, zero-filled to four bits per digit: what `bin`, `int` and `zfill`
      compute together. */
  lemma {:induction false} BitsDenoteValue(s: string)
    requires forall i :: 0 <= i < |s| ==> IsHexDigit(s[i])
    ensures BinValue(Bits(s)) == HexValue(s)
  {
    if s != [] {
      var s' := s[..|s| - 1];
      BitsDenoteValue(s');
      var n := Nibble(DigitValue(s[|s| - 1]));
      BinValueAppend(Bits(s'), n);
      assert Pow2(4) == 16;
    }
  }

  /** Two bit strings of one length denoting the same number are equal: the
      zero-filled binary form is unique. */
  lemma {:induction false} BinValueInjective(x: seq<bool>, y: seq<bool>)
    requires |x| == |y| && BinValue(x) == BinValue(y)
    ensures x == y
  {
    if x != [] {
      var x', y' := x[..|x| - 1], y[..|y| - 1];
      assert x[|x| - 1] == y[|y| - 1];
      BinValueInjective(x', y');
      assert x == x' + [x[|x| - 1]] && y == y' + [y[|y| - 1]];
    }
  }

  /** The count is bounded by the number of positions compared. */
  lemma {:induction false} DifferingBounded(x: seq<bool>, y: seq<bool>)
    ensures Differing(x, y) <= if |x| < |y| then |x| else |y|
  {
    if x != [] && y != [] {
      DifferingBounded(x[1..], y[1..]);
    }
  }

  lemma {:induction false} DifferingSymmetric(x: seq<bool>, y: seq<bool>)
    ensures Differing(x, y) == Differing(y, x)
  {
    if x != [] && y != [] {
      DifferingSymmetric(x[1..], y[1..]);
    }
  }

  /** Nothing differs exactly when the strings agree on every compared position. */
  lemma {:induction false} DifferingZero(x: seq<bool>, y: seq<bool>)
    requires |x| == |y|
    ensures Differing(x, y) == 0 <==> x == y
  {
    if x != [] {
      DifferingZero(x[1..], y[1..]);
      assert x == [x[0]] + x[1..] && y == [y[0]] + y[1..];
    }
  }

  /** `hamming_distance(a, a) == 0`. */
  lemma SelfDistance(a: string)
    requires IsHex(a)
    ensures Distance(a, a) == 0
  {
    DifferingZero(Bits(a), Bits(a));
  }

  /** `hamming_distance(a, b) == hamming_distance(b, a)`. */
  lemma DistanceSymmetric(a: string, b: string)
    requires IsHex(a) && IsHex(b)
    ensures Distance(a, b) == Distance(b, a)
  {
    DifferingSymmetric(Bits(a), Bits(b));
  }

  /** Only the first `4 * min(len a, len b)` bits are compared. */
  lemma DistanceBounded(a: string, b: string)
    requires IsHex(a) && IsHex(b)
    ensures Distance(a, b) <= 4 * (if |a| < |b| then |a| else |b|)
  {
    DifferingBounded(Bits(a), Bits(b));
  }

  /** For fingerprints of one length the distance is zero exactly when both
      denote the same number, whatever the case of their letters. */
  lemma DistanceZeroIffSameValue(a: string, b: string)
    requires IsHex(a) && IsHex(b) && |a| == |b|
    ensures Distance(a, b) == 0 <==> HexValue(a) == HexValue(b)
  {
    DifferingZero(Bits(a), Bits(b));
    BitsDenoteValue(a);
    BitsDenoteValue(b);
    if HexValue(a) == HexValue(b) {
      BinValueInjective(Bits(a), Bits(b));
    }
  }

  /** Letter case does not change the number a digit string denotes. */
  lemma {:induction false} LowerKeepsValue(s: string)
    requires forall i :: 0 <= i < |s| ==> IsHexDigit(s[i])
    ensures forall i :: 0 <= i < |Lower(s)| ==> IsHexDigit(Lower(s)[i])
    ensures HexValue(Lower(s)) == HexValue(s)
  {
    if s != [] {
      var s' := s[..|s| - 1];
      LowerKeepsValue(s');
      assert Lower(s)[..|s| - 1] == Lower(s');
    }
  }

  /** A fingerprint is at distance zero from its lower-case spelling. */
  lemma CaseBlind(a: string)
    requires IsHex(a)
    ensures IsHex(Lower(a)) && Distance(a, Lower(a)) == 0
  {
    LowerKeepsValue(a);
    DistanceZeroIffSameValue(a, Lower(a));
  }
}
