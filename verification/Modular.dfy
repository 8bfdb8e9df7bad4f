/** Modular arithmetic that the fixed-width words of the program obey. */
module Modular {

  const WORD: int := 0x1_0000_0000_0000_0000
  const HALF: int := 0x1_0000_0000

  /** The number of values of a field of one of the four widths. */
  function Range(bits: nat): (r: nat)
    ensures r >= 1
  {
    if bits == 8 then 0x100
    else if bits == 16 then 0x1_0000
    else if bits == 32 then 0x1_0000_0000
    else 0x1_0000_0000_0000_0000
  }

  /** A field's value read as a two's complement number. */
  function Signed(v: nat, bits: nat): int {
    if v < Range(bits) / 2 then v else v - Range(bits)
  }

  /** The one number in the two's complement range that is congruent to the value. */
  lemma SignedExact(v: nat)
    ensures v < 0x100 ==> -0x80 <= Signed(v, 8) < 0x80 && Signed(v, 8) % 0x100 == v
    ensures v < 0x1_0000 ==> -0x8000 <= Signed(v, 16) < 0x8000 && Signed(v, 16) % 0x1_0000 == v
    ensures v < HALF ==> -0x8000_0000 <= Signed(v, 32) < 0x8000_0000 && Signed(v, 32) % HALF == v
    ensures v < WORD ==> -0x8000_0000_0000_0000 <= Signed(v, 64) < 0x8000_0000_0000_0000 && Signed(v, 64) % WORD == v
  {
  }

  lemma SmallMultiple(m: int, d: int)
    requires -m < m * d < m
    ensures d == 0
  {
  }

  /** A quotient and a remainder in range are the quotient and the remainder. */
  lemma ModUnique(x: int, q: int, r: int, m: int)
    requires 0 <= r < m && x == m * q + r
    ensures x % m == r
  {
    var d := x / m - q;
    assert m * d == r - x % m by { assert m * d == m * (x / m) - m * q; }
    SmallMultiple(m, d);
  }

  /** Reducing modulo a multiple first makes no difference. */
  lemma ModMod(x: int, m: int, k: int)
    requires m > 0 && k > 0
    ensures m * k > 0 && (x % (m * k)) % m == x % m
  {
    assert m * k > 0;
    var y, q := x % (m * k), x / (m * k);
    var a, r := y / m, y % m;
    assert (m * k) * q == m * (k * q);
    assert x == m * (k * q + a) + r by { assert m * (k * q + a) == m * (k * q) + m * a; }
    ModUnique(x, k * q + a, r, m);
  }

  /** Adding a multiple makes no difference. */
  lemma ModAddMultiple(x: int, q: int, m: int)
    requires m > 0
    ensures (x + m * q) % m == x % m
  {
    assert x + m * q == m * (x / m + q) + x % m by { assert m * (x / m + q) == m * (x / m) + m * q; }
    ModUnique(x + m * q, x / m + q, x % m, m);
  }

  /** A sum may be reduced term by term. */
  lemma ModAdd(x: int, y: int, m: int)
    requires m > 0
    ensures (x % m + y) % m == (x + y) % m
  {
    assert x % m + y == x + y + m * -(x / m) by { assert m * -(x / m) == -(m * (x / m)); }
    ModAddMultiple(x + y, -(x / m), m);
  }

  /** Truncating to 64 bits before a 32-bit sum makes no difference. */
  lemma WordThenHalf(x: int, y: int)
    ensures (x % WORD + y) % HALF == (x + y) % HALF
  {
    ModMod(x, HALF, HALF);
    ModAdd(x % WORD, y, HALF);
    ModAdd(x, y, HALF);
  }

  /** Congruent terms give congruent sums. */
  lemma ModCongruent(x: int, y: int, z: int, m: int)
    requires m > 0 && x % m == y % m
    ensures (z + x) % m == (z + y) % m
  {
    ModAdd(x, z, m);
    ModAdd(y, z, m);
  }
}
