/** Binary digits of numbers. */
module Digits {
  import opened Common

  predicate Binary(d: seq<nat>) {
    forall k :: 0 <= k < |d| ==> d[k] < 2
  }

  /** The number that binary digits spell, the highest first. */
  function Value(d: seq<nat>): nat {
    if d == [] then 0 else 2 * Value(d[..|d| - 1]) + d[|d| - 1]
  }

  function Pow2(n: nat): (p: nat)
    ensures p > 0
  {
    if n == 0 then 1 else 2 * Pow2(n - 1)
  }

  /** Digit `k` is what shifting out the lower ones leaves lowest. */
  lemma {:induction false} DigitOf(d: seq<nat>, k: nat)
    requires Binary(d) && k < |d|
    ensures Value(d) / Pow2(|d| - 1 - k) % 2 == d[k]
  {
    var n := |d| - 1;
    if k == n {
      LowestDigit(Value(d[..n]), d[n]);
    } else {
      DigitOf(d[..n], k);
      HalveFirst(Value(d[..n]), d[n], Pow2(n - 1 - k));
    }
  }

  lemma LowestDigit(x: nat, d: nat)
    requires d < 2
    ensures (2 * x + d) / Pow2(0) % 2 == d
  {
    DivModIs(2 * x + d, x, d, 2);
    DivModIs(2 * x + d, 2 * x + d, 0, 1);
  }

  lemma HalveFirst(x: nat, d: nat, p: nat)
    requires d < 2 && p > 0
    ensures (2 * x + d) / (2 * p) == x / p
  {
    DivModIs(2 * x + d, x / p, 2 * (x % p) + d, 2 * p);
  }

  lemma PowersOfTwo(k: nat)
    requires k < 8
    ensures Pow2(k) == [1, 2, 4, 8, 16, 32, 64, 128][k]
  {
    assert Pow2(0) == 1 && Pow2(1) == 2 && Pow2(2) == 4 && Pow2(3) == 8;
    assert Pow2(4) == 16 && Pow2(5) == 32 && Pow2(6) == 64 && Pow2(7) == 128;
  }

  /** Bit 7 - k of a byte is digit `k` of it. */
  lemma BitIsDigit(b: byte, d: seq<nat>, k: nat)
    requires Binary(d) && |d| == 8 && k < 8 && b == Value(d)
    ensures Bit(b, 7 - k) <==> d[k] == 1
  {
    DigitOf(d, k);
    PowersOfTwo(7 - k);
  }

  lemma {:induction false} DigitsExist(x: nat, n: nat) returns (d: seq<nat>)
    requires x < Pow2(n)
    ensures |d| == n && Binary(d) && Value(d) == x
  {
    if n == 0 {
      d := [];
    } else {
      d := DigitsExist(x / 2, n - 1);
      d := d + [x % 2];
      assert d[..n - 1] + [x % 2] == d;
    }
  }

  lemma ValueOn(d: seq<nat>, k: nat)
    requires k < |d|
    ensures Value(d[..k + 1]) == 2 * Value(d[..k]) + d[k]
  {
    assert d[..k + 1][..k] == d[..k];
  }

  lemma Value4(d: seq<nat>)
    requires |d| >= 4
    ensures Value(d[..4]) == 8 * d[0] + 4 * d[1] + 2 * d[2] + d[3]
  {
    ValueOn(d, 0);
    ValueOn(d, 1);
    ValueOn(d, 2);
    ValueOn(d, 3);
  }

  lemma Value8(d: seq<nat>)
    requires |d| == 8
    ensures Value(d) == 128 * d[0] + 64 * d[1] + 32 * d[2] + 16 * d[3] + 8 * d[4] + 4 * d[5] + 2 * d[6] + d[7]
  {
    Value4(d);
    ValueOn(d, 4);
    ValueOn(d, 5);
    ValueOn(d, 6);
    ValueOn(d, 7);
    assert d[..8] == d;
  }

  function Digit(b: byte, k: nat): nat
    requires k < 8
  {
    if Bit(b, k) then 1 else 0
  }

  /** The bits of a byte, the highest first. */
  lemma BitsOf(b: byte) returns (d: seq<nat>)
    ensures |d| == 8 && Value(d) == b && forall k :: 0 <= k < 8 ==> d[k] == Digit(b, 7 - k)
  {
    PowersOfTwo(7);
    d := DigitsExist(b, 8);
    forall k | 0 <= k < 8
      ensures d[k] == Digit(b, 7 - k)
    {
      BitIsDigit(b, d, k);
    }
  }

  /** A byte is the sum of its bits. */
  lemma ByteDigits(b: byte)
    ensures b == 128 * Digit(b, 7) + 64 * Digit(b, 6) + 32 * Digit(b, 5) + 16 * Digit(b, 4)
                 + 8 * Digit(b, 3) + 4 * Digit(b, 2) + 2 * Digit(b, 1) + Digit(b, 0)
  {
    var d := BitsOf(b);
    Value8(d);
    assert d[0] == Digit(b, 7) && d[1] == Digit(b, 6) && d[2] == Digit(b, 5) && d[3] == Digit(b, 4);
    assert d[4] == Digit(b, 3) && d[5] == Digit(b, 2) && d[6] == Digit(b, 1) && d[7] == Digit(b, 0);
  }
}
