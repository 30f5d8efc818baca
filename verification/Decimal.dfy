/** Addition, subtraction and decimal adjustment of the Game Boy ALU (kernel/src/gameboy/cpu.rs), and packed
    BCD arithmetic of any length built from them. */
module Decimal {
  import opened Common

  const ZF: bv8 := 0x80
  const NF: bv8 := 0x40
  const HF: bv8 := 0x20
  const CF: bv8 := 0x10

  /** The accumulator and the flag register. */
  datatype Regs = Regs(a: byte, f: bv8)

  predicate Flag(f: bv8, mask: bv8) {
    f & mask != 0
  }

  function SetFlag(f: bv8, mask: bv8, on: bool): bv8 {
    if on then f | mask else f & !mask
  }

  function Carry(r: Regs): nat {
    if Flag(r.f, CF) then 1 else 0
  }

  function Flags(f: bv8, z: bool, n: bool, h: bool, c: bool): bv8 {
    SetFlag(SetFlag(SetFlag(SetFlag(f, ZF, z), NF, n), HF, h), CF, c)
  }

  lemma FlagsRead(f: bv8, z: bool, n: bool, h: bool, c: bool)
    ensures var g := Flags(f, z, n, h, c);
            (Flag(g, ZF) <==> z) && (Flag(g, NF) <==> n) && (Flag(g, HF) <==> h) && (Flag(g, CF) <==> c)
  {
  }

  // ---- What the instructions do ----

  function Adc(r: Regs, value: byte, withCarry: bool): Regs {
    var carry := if withCarry then Carry(r) else 0;
    var result: int := r.a + value + carry;
    var half := r.a % 0x10 + value % 0x10 + carry;
    Regs(result % 0x100, Flags(r.f, result % 0x100 == 0, false, half > 0x0F, result > 0xFF))
  }

  function Sbc(r: Regs, value: byte, withCarry: bool): Regs {
    var carry := if withCarry then Carry(r) else 0;
    var result: int := r.a - value - carry;
    var half := r.a % 0x10 - value % 0x10 - carry;
    Regs(result % 0x100, Flags(r.f, result % 0x100 == 0, true, half < 0, result < 0))
  }

  /** The 16-bit sum or difference that `alu_daa` forms from the accumulator. */
  function Adjusted(r: Regs): int {
    if Flag(r.f, NF) then AdjustedDown(r.a, Flag(r.f, HF), Flag(r.f, CF))
    else AdjustedUp(r.a, Flag(r.f, HF), Flag(r.f, CF))
  }

  function AdjustedUp(a: int, half: bool, carry: bool): int {
    var b := if half || a % 0x10 > 9 then a + 0x06 else a;
    if carry || b > 0x9F then b + 0x60 else b
  }

  function AdjustedDown(a: int, half: bool, carry: bool): int {
    var b := if half then (a - 6) % 0x100 else a;
    if carry then b - 0x60 else b
  }

  function Daa(r: Regs): Regs {
    var a := Adjusted(r);
    var f := SetFlag(SetFlag(r.f, ZF, a % 0x100 == 0), HF, false);
    Regs(a % 0x100, if a >= 0x100 then SetFlag(f, CF, true) else f)
  }

  lemma DaaCarry(r: Regs)
    ensures Flag(Daa(r).f, CF) <==> Flag(r.f, CF) || Adjusted(r) >= 0x100
  {
  }

  lemma LowFlagsKept(f: bv8, z: bool, n: bool, h: bool, c: bool)
    ensures Flags(f, z, n, h, c) & 0x0F == f & 0x0F
  {
  }

  /** Addition: the byte and the carry make the sum, with the carry in only when it is asked for. */
  lemma AdcAdds(r: Regs, v: byte, withCarry: bool)
    ensures var s, c := Adc(r, v, withCarry), if withCarry && Flag(r.f, 0x10) then 1 else 0;
            && (if Flag(s.f, 0x10) then s.a + 0x100 == r.a + v + c else s.a == r.a + v + c)
            && (Flag(s.f, 0x80) <==> s.a == 0) && !Flag(s.f, 0x40)
            && (Flag(s.f, 0x20) <==> r.a % 16 + v % 16 + c >= 16) && s.f & 0x0F == r.f & 0x0F
  {
    var c := if withCarry && Flag(r.f, 0x10) then 1 else 0;
    var result, half := r.a + v + c, r.a % 0x10 + v % 0x10 + c;
    FlagsRead(r.f, result % 0x100 == 0, false, half > 0x0F, result > 0xFF);
    LowFlagsKept(r.f, result % 0x100 == 0, false, half > 0x0F, result > 0xFF);
  }

  /** Subtraction: the byte is the difference, a borrow of 256 making up for a negative one. */
  lemma SbcSubtracts(r: Regs, v: byte, withCarry: bool)
    ensures var s, c := Sbc(r, v, withCarry), if withCarry && Flag(r.f, 0x10) then 1 else 0;
            && (if Flag(s.f, 0x10) then s.a + v + c == r.a + 0x100 else s.a + v + c == r.a)
            && (Flag(s.f, 0x80) <==> s.a == 0) && Flag(s.f, 0x40)
            && (Flag(s.f, 0x20) <==> r.a % 16 < v % 16 + c) && s.f & 0x0F == r.f & 0x0F
  {
    var c := if withCarry && Flag(r.f, 0x10) then 1 else 0;
    var result, half := r.a - v - c, r.a % 0x10 - v % 0x10 - c;
    FlagsRead(r.f, result % 0x100 == 0, true, half < 0, result < 0);
    LowFlagsKept(r.f, result % 0x100 == 0, true, half < 0, result < 0);
  }

  /** Adjustment sets the zero flag, clears the half carry and keeps the rest of the flags but the carry, which it can
      only set. */
  lemma DaaFlags(r: Regs)
    ensures var s := Daa(r);
            && (Flag(s.f, 0x80) <==> s.a == 0) && !Flag(s.f, 0x20) && (Flag(s.f, 0x40) <==> Flag(r.f, 0x40))
            && (Flag(r.f, 0x10) ==> Flag(s.f, 0x10)) && s.f & 0x0F == r.f & 0x0F
  {
  }

  // ---- One byte ----

  predicate Bcd(b: byte) {
    b / 0x10 <= 9 && b % 0x10 <= 9
  }

  function Dec(b: byte): nat {
    b / 0x10 * 10 + b % 0x10
  }

  /** A byte and its two digits. */
  lemma Digits(b: int, hi: nat, lo: nat)
    requires lo < 0x10 && b == 0x10 * hi + lo
    ensures b / 0x10 == hi && b % 0x10 == lo
  {
  }

  /** ADC then DAA is decimal addition of two digits with carry in and out. */
  lemma AdcDaa(r: Regs, v: byte)
    requires Bcd(r.a) && Bcd(v)
    ensures var s := Daa(Adc(r, v, true));
            Bcd(s.a) && Dec(s.a) + 100 * Carry(s) == Dec(r.a) + Dec(v) + Carry(r)
  {
    var c := Carry(r);
    var t := Adc(r, v, true);
    var low, high := r.a % 0x10 + v % 0x10 + c, r.a / 0x10 + v / 0x10;
    var result := 0x10 * high + low;
    FlagsRead(r.f, result % 0x100 == 0, false, low > 0x0F, result > 0xFF);
    DaaCarry(t);
    var up := if low > 9 then high + 1 else high;
    AddAdjusted(t, high, low);
    Digits(Daa(t).a, if up > 9 then up - 10 else up, if low > 9 then low - 10 else low);
  }

  /** The adjusted sum, from the binary sums of the high and low digits. */
  lemma AddAdjusted(t: Regs, high: nat, low: nat)
    requires low <= 19 && high <= 18 && t.a == (0x10 * high + low) % 0x100 && !Flag(t.f, NF)
    requires (Flag(t.f, HF) <==> low > 0x0F) && (Flag(t.f, CF) <==> 0x10 * high + low > 0xFF)
    ensures var up := if low > 9 then high + 1 else high;
            && Adjusted(t) % 0x100 == 0x10 * (if up > 9 then up - 10 else up) + (if low > 9 then low - 10 else low)
            && (Flag(t.f, CF) || Adjusted(t) >= 0x100 <==> up > 9)
  {
    var total, up := 0x10 * high + low, if low > 9 then high + 1 else high;
    var digits := 0x10 * (if up > 9 then up - 10 else up) + (if low > 9 then low - 10 else low);
    DivModIs(total, if total > 0xFF then 1 else 0, if total > 0xFF then total - 0x100 else total, 0x100);
    UpIs(t.a, high, low);
    DivModIs(Adjusted(t), if up > 9 && total <= 0xFF then 1 else 0, digits, 0x100);
  }

  lemma UpIs(a: int, high: nat, low: nat)
    requires low <= 19 && high <= 18
    requires a == 0x10 * high + low - if 0x10 * high + low > 0xFF then 0x100 else 0
    ensures var up := if low > 9 then high + 1 else high;
            AdjustedUp(a, low > 0x0F, 0x10 * high + low > 0xFF)
            == 0x10 * (if up > 9 then up - 10 else up) + (if low > 9 then low - 10 else low)
               + if up > 9 && 0x10 * high + low <= 0xFF then 0x100 else 0
  {
    if low <= 0x0F {
      Digits(a, if 0x10 * high + low > 0xFF then high - 0x10 else high, low);
    }
  }

  /** SBC then DAA is decimal subtraction of two digits with borrow in and out. */
  lemma SbcDaa(r: Regs, v: byte)
    requires Bcd(r.a) && Bcd(v)
    ensures var s := Daa(Sbc(r, v, true));
            Bcd(s.a) && Dec(s.a) + Dec(v) + Carry(r) == Dec(r.a) + 100 * Carry(s)
  {
    var c := Carry(r);
    var t := Sbc(r, v, true);
    var low, high := r.a % 0x10 - v % 0x10 - c, r.a / 0x10 - v / 0x10;
    var result := 0x10 * high + low;
    FlagsRead(r.f, result % 0x100 == 0, true, low < 0, result < 0);
    DaaCarry(t);
    var up := if low < 0 then high - 1 else high;
    SubAdjusted(t, high, low);
    Digits(Daa(t).a, if up < 0 then up + 10 else up, if low < 0 then low + 10 else low);
  }

  /** The adjusted difference, from the binary differences of the high and low digits. */
  lemma SubAdjusted(t: Regs, high: int, low: int)
    requires -10 <= low <= 9 && -9 <= high <= 9 && t.a == (0x10 * high + low) % 0x100 && Flag(t.f, NF)
    requires (Flag(t.f, HF) <==> low < 0) && (Flag(t.f, CF) <==> 0x10 * high + low < 0)
    ensures var up := if low < 0 then high - 1 else high;
            && Adjusted(t) % 0x100 == 0x10 * (if up < 0 then up + 10 else up) + (if low < 0 then low + 10 else low)
            && (Flag(t.f, CF) <==> up < 0) && Adjusted(t) < 0x100
  {
    var total, up := 0x10 * high + low, if low < 0 then high - 1 else high;
    var digits := 0x10 * (if up < 0 then up + 10 else up) + (if low < 0 then low + 10 else low);
    Reduce(total);
    DownIs(t.a, high, low);
    DivModIs(Adjusted(t), 0, digits, 0x100);
  }

  lemma Reduce(x: int)
    requires -0x100 <= x < 0x100
    ensures x % 0x100 == if x < 0 then x + 0x100 else x
  {
  }

  lemma DownIs(a: int, high: int, low: int)
    requires -10 <= low <= 9 && -9 <= high <= 9
    requires a == 0x10 * high + low + if 0x10 * high + low < 0 then 0x100 else 0
    ensures var up := if low < 0 then high - 1 else high;
            AdjustedDown(a, low < 0, 0x10 * high + low < 0)
            == 0x10 * (if up < 0 then up + 10 else up) + (if low < 0 then low + 10 else low)
  {
    if low < 0 { Reduce(a - 6); }
  }

  // ---- Strings of bytes ----

  /** The number a little-endian packed-BCD string stands for. */
  function Value(s: seq<byte>): nat {
    if s == [] then 0 else Value(s[..|s| - 1]) + Pow100(|s| - 1) * Dec(s[|s| - 1])
  }

  function Pow100(n: nat): (p: nat)
    ensures p > 0
  {
    if n == 0 then 1 else 100 * Pow100(n - 1)
  }

  ghost predicate AllBcd(s: seq<byte>) {
    forall i :: 0 <= i < |s| ==> Bcd(s[i])
  }

  /** Byte by byte from the low end: load, ADC (or SBC), DAA, store; C carries over. */
  function Fold(f: bv8, xs: seq<byte>, ys: seq<byte>, subtract: bool): (seq<byte>, bv8)
    requires |xs| == |ys|
  {
    if xs == [] then ([], f)
    else
      var n := |xs| - 1;
      var (zs, g) := Fold(f, xs[..n], ys[..n], subtract);
      var r := Regs(xs[n], g);
      var s := Daa(if subtract then Sbc(r, ys[n], true) else Adc(r, ys[n], true));
      (zs + [s.a], s.f)
  }

  lemma {:induction false} FoldSum(f: bv8, xs: seq<byte>, ys: seq<byte>, subtract: bool)
    requires |xs| == |ys| && AllBcd(xs) && AllBcd(ys)
    ensures var (zs, g) := Fold(f, xs, ys, subtract);
            && |zs| == |xs| && AllBcd(zs)
            && (!subtract ==> Value(zs) + Pow100(|xs|) * Carry(Regs(0, g)) == Value(xs) + Value(ys) + Carry(Regs(0, f)))
            && (subtract ==> Value(zs) + Value(ys) + Carry(Regs(0, f)) == Value(xs) + Pow100(|xs|) * Carry(Regs(0, g)))
  {
    if xs != [] {
      var n := |xs| - 1;
      FoldSum(f, xs[..n], ys[..n], subtract);
      var (zs, g) := Fold(f, xs[..n], ys[..n], subtract);
      var r := Regs(xs[n], g);
      if subtract { SbcDaa(r, ys[n]); } else { AdcDaa(r, ys[n]); }
      var s := Daa(if subtract then Sbc(r, ys[n], true) else Adc(r, ys[n], true));
      assert (zs + [s.a])[..n] == zs;
      Distribute(Pow100(n), Dec(s.a), Dec(xs[n]), Dec(ys[n]), Carry(Regs(0, g)), Carry(s));
    }
  }

  lemma Distribute(p: nat, z: nat, x: nat, y: nat, c: nat, d: nat)
    ensures z + 100 * d == x + y + c ==> p * z + 100 * p * d == p * x + p * y + p * c
    ensures z + y + c == x + 100 * d ==> p * z + p * y + p * c == p * x + 100 * p * d
  {
  }

  lemma {:induction false} ValueBound(s: seq<byte>)
    requires AllBcd(s)
    ensures Value(s) < Pow100(|s|)
  {
    if s != [] {
      ValueBound(s[..|s| - 1]);
      DigitOnTop(Pow100(|s| - 1), Value(s[..|s| - 1]), Dec(s[|s| - 1]));
    }
  }

  lemma DigitOnTop(p: nat, v: nat, d: nat)
    requires v < p && d <= 99
    ensures v + p * d < 100 * p
  {
    assert p * d + p * (99 - d) == p * 99;
  }

  /** Multi-byte decimal addition: the sum modulo 100^n, with the carry set exactly when it overflows. */
  lemma DecimalAddition(f: bv8, xs: seq<byte>, ys: seq<byte>)
    requires |xs| == |ys| && AllBcd(xs) && AllBcd(ys)
    ensures var (zs, g) := Fold(f, xs, ys, false);
            var sum := Value(xs) + Value(ys) + Carry(Regs(0, f));
            && |zs| == |xs| && AllBcd(zs)
            && (if sum >= Pow100(|xs|) then Flag(g, CF) && Value(zs) == sum - Pow100(|xs|)
                else !Flag(g, CF) && Value(zs) == sum)
  {
    FoldSum(f, xs, ys, false);
    ValueBound(Fold(f, xs, ys, false).0);
  }

  /** Multi-byte decimal subtraction: the difference, or its ten's complement with the borrow set exactly
      when the difference is negative. */
  lemma DecimalSubtraction(f: bv8, xs: seq<byte>, ys: seq<byte>)
    requires |xs| == |ys| && AllBcd(xs) && AllBcd(ys)
    ensures var (zs, g) := Fold(f, xs, ys, true);
            var diff := Value(xs) - Value(ys) - Carry(Regs(0, f));
            && |zs| == |xs| && AllBcd(zs)
            && (if diff < 0 then Flag(g, CF) && Value(zs) == diff + Pow100(|xs|) else !Flag(g, CF) && Value(zs) == diff)
  {
    FoldSum(f, xs, ys, true);
    ValueBound(xs);
    ValueBound(Fold(f, xs, ys, true).0);
  }

  // ---- The ALU itself ----

  class Alu {
    var a: byte
    var f: bv8

    ghost function State(): Regs
      reads this
    {
      Regs(a, f)
    }

    method AluAdd(value: byte, withCarry: bool)
      modifies this
      ensures State() == Adc(old(State()), value, withCarry)
    {
      var carry := if withCarry && Flag(f, CF) then 1 else 0;
      var result: int := a + value + carry;
      var half := a % 0x10 + value % 0x10 + carry;
      a := result % 0x100;
      f := SetFlag(f, ZF, a == 0);
      f := SetFlag(f, NF, false);
      f := SetFlag(f, HF, half > 0x0F);
      f := SetFlag(f, CF, result > 0xFF);
    }

    method AluSub(value: byte, withCarry: bool)
      modifies this
      ensures State() == Sbc(old(State()), value, withCarry)
    {
      var carry := if withCarry && Flag(f, CF) then 1 else 0;
      var result: int := a - value - carry;
      var half := a % 0x10 - value % 0x10 - carry;
      a := result % 0x100;
      f := SetFlag(f, ZF, a == 0);
      f := SetFlag(f, NF, true);
      f := SetFlag(f, HF, half < 0);
      f := SetFlag(f, CF, result < 0);
    }

    method AluDaa()
      modifies this
      ensures State() == Daa(old(State()))
    {
      var wide: int := a;
      if Flag(f, NF) {
        if Flag(f, HF) {
          wide := (wide - 6) % 0x100;
        }
        if Flag(f, CF) {
          wide := wide - 0x60;
        }
      } else {
        if Flag(f, HF) || wide % 0x10 > 9 {
          wide := wide + 0x06;
        }
        if Flag(f, CF) || wide > 0x9F {
          wide := wide + 0x60;
        }
      }
      a := wide % 0x100;
      f := SetFlag(f, ZF, a == 0);
      f := SetFlag(f, HF, false);
      if wide >= 0x100 {
        f := SetFlag(f, CF, true);
      }
    }
  }
}
