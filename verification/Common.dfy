/** Shared value types: machine bytes and the option type used where the kernel returns `Option`. */
module Common {

  datatype Option<+T> = None | Some(value: T)

  type byte = b: int | 0 <= b < 0x100

  type u32 = w: int | 0 <= w < 0x1_0000_0000

  /** Bit `k` of a byte, as `b & (1 << k) != 0`. */
  predicate Bit(b: byte, k: nat)
    requires k < 8
  {
    (b / [1, 2, 4, 8, 16, 32, 64, 128][k]) % 2 == 1
  }

  /** Requested interrupts: bits 0 to 4 of the interrupt flag register. */
  datatype Interrupts = Interrupts(vblank: bool, stat: bool, timer: bool, serial: bool, keypad: bool)

  const NO_INTERRUPT := Interrupts(false, false, false, false, false)

  /** `|` on the register. */
  function Both(a: Interrupts, b: Interrupts): Interrupts {
    Interrupts(a.vblank || b.vblank, a.stat || b.stat, a.timer || b.timer, a.serial || b.serial, a.keypad || b.keypad)
  }

  // ---- Division by a variable ----

  lemma MultipleIsFar(k: int, m: nat)
    ensures k > 0 ==> k * m >= m
    ensures k < 0 ==> k * m + m <= 0
  {
  }

  /** Quotient and remainder are unique. */
  lemma DivModIs(x: nat, q: nat, r: nat, m: nat)
    requires r < m && x == q * m + r
    ensures x / m == q && x % m == r
  {
    var k := x / m - q;
    MultipleIsFar(k, m);
    assert k * m == r - x % m;
  }

  lemma ModSuccessor(x: nat, m: nat)
    requires m > 0
    ensures (x + 1) % m == if x % m == m - 1 then 0 else x % m + 1
  {
    var q, r := x / m, x % m;
    if r == m - 1 { DivModIs(x + 1, q + 1, 0, m); } else { DivModIs(x + 1, q, r + 1, m); }
  }
}
