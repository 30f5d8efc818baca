/** The greatest common divisor, and which multiples of one number another one reaches. */
module Euclid {
  import opened Common

  function Gcd(a: nat, b: nat): nat
    decreases b
  {
    if b == 0 then a else Gcd(b, a % b)
  }

  lemma {:induction false} Bezout(a: nat, b: nat) returns (u: int, v: int)
    ensures u * a + v * b == Gcd(a, b)
    decreases b
  {
    if b == 0 {
      u, v := 1, 0;
    } else {
      var s, t := Bezout(b, a % b);
      u, v := t, s - a / b * t;
      Rearrange(a, b, a / b, a % b, s, t);
    }
  }

  lemma Rearrange(a: int, b: int, d: int, r: int, s: int, t: int)
    requires a == d * b + r
    ensures t * a + (s - d * t) * b == s * b + t * r
  {
    assert t * a == t * (d * b) + t * r;
    assert (s - d * t) * b == s * b - t * (d * b);
  }

  lemma {:induction false} Divides(a: nat, b: nat) returns (p: nat, q: nat)
    requires a > 0 || b > 0
    ensures Gcd(a, b) > 0 && a == p * Gcd(a, b) && b == q * Gcd(a, b)
    decreases b
  {
    if b == 0 {
      p, q := 1, 0;
    } else {
      var s, t := Divides(b, a % b);
      p := Quotient(a, b, s, t, Gcd(a, b));
      q := s;
    }
  }

  lemma Quotient(a: nat, b: nat, s: nat, t: nat, g: nat) returns (p: nat)
    requires b > 0 && b == s * g && a % b == t * g
    ensures a == p * g
  {
    var d, r := a / b, a % b;
    assert a == d * b + r;
    NotNegative(d, s);
    p := d * s + t;
    Regroup(a, b, d, r, s, t, g);
  }

  lemma NotNegative(m: nat, n: nat)
    ensures m * n >= 0
  {
  }

  lemma Regroup(a: int, b: int, d: int, r: int, s: int, t: int, g: int)
    requires a == d * b + r && b == s * g && r == t * g
    ensures a == (d * s + t) * g
  {
    assert d * b == d * s * g;
  }

  /** Half of `long`, rounded down to a multiple of the common divisor with `short`. */
  function HalfMultiple(long: nat, short: nat): nat {
    var g := Gcd(long, short);
    if g == 0 then 0 else long / g / 2 * g
  }

  lemma HalfIs(long: nat, short: nat, k: nat)
    requires Gcd(long, short) > 0 && long == k * Gcd(long, short)
    ensures HalfMultiple(long, short) == k / 2 * Gcd(long, short) && 2 * HalfMultiple(long, short) <= long
  {
    var g, h := Gcd(long, short), k / 2;
    DivModIs(long, k, 0, g);
    Mono(2 * h, k, g);
    assert 2 * h * g == 2 * (h * g);
  }

  /** Some multiple of `short` is that half short of a multiple of `long`, and it is met early. */
  lemma HalfIsMet(long: nat, short: nat) returns (n: nat, z: int)
    requires long > 0
    ensures n < long && n * short + HalfMultiple(long, short) == z * long
    ensures 2 * HalfMultiple(long, short) <= long
  {
    var g := Gcd(long, short);
    var k, q := Divides(long, short);
    var u, v := Bezout(long, short);
    HalfIs(long, short, k);
    Below(k, g);
    var h: int := k / 2;
    var w;
    w, n := Divided(-h * v, k);
    z := h * u - w * q;
    Combine(long, short, g, k, q, u, v, h, w, n);
  }

  lemma Divided(x: int, k: nat) returns (w: int, r: nat)
    requires k > 0
    ensures x == w * k + r && r < k
  {
    w, r := x / k, x % k;
  }

  lemma Below(k: nat, g: nat)
    requires g > 0 && k * g > 0
    ensures 0 < k <= k * g
  {
  }

  lemma Combine(long: int, short: int, g: int, k: int, q: int, u: int, v: int, h: int, w: int, n: int)
    requires u * long + v * short == g && long == k * g && short == q * g && -h * v == w * k + n
    ensures n * short + h * g == (h * u - w * q) * long
  {
    assert n * short == (-h * v) * short - w * (k * short);
    assert k * short == q * long;
    assert h * g == h * (u * long) + h * (v * short);
  }

  /** A combination of the two that is at most half of `long` in size is at most the half multiple. */
  lemma HalfIsLargest(long: nat, short: nat, i: int, j: int, d: int)
    requires long > 0 && d == j * long - i * short && -1 * long <= 2 * d <= long
    ensures -1 * HalfMultiple(long, short) <= d <= HalfMultiple(long, short)
  {
    var g: int := Gcd(long, short);
    var k, q := Divides(long, short);
    HalfIs(long, short, k);
    var t, h: int := j * k - i * q, k / 2;
    Multiple(i, j, k, q, g);
    assert d == t * g && long == k * g;
    Scaled(t, k, g);
    Mono(t, h, g);
    Mono(-h, t, g);
  }

  lemma Multiple(i: int, j: int, k: int, q: int, g: int)
    ensures j * (k * g) - i * (q * g) == (j * k - i * q) * g
  {
  }

  lemma Scaled(t: int, k: int, g: int)
    requires g > 0 && k >= 0 && -1 * (k * g) <= 2 * (t * g) <= k * g
    ensures -1 * (k / 2) <= t <= k / 2
  {
    assert (k + 1) * g == k * g + g && 2 * t * g == 2 * (t * g) && (-k - 1) * g == -1 * (k * g) - g;
    if 2 * t > k { Mono(k + 1, 2 * t, g); }
    if 2 * t < -k { Mono(2 * t, -k - 1, g); }
  }

  lemma Mono(s: int, t: int, g: int)
    requires s <= t && g >= 0
    ensures s * g <= t * g
  {
  }
}
