/** Machine integers of the emulator and the bit operations its decoders use.
    Unsigned values are naturals below 2^n; a signed i32 is an integer in
    [-2^31, 2^31).  A logical shift right by k of an unsigned value is
    division by 2^k, a mask with 2^n - 1 is the remainder modulo 2^n, and an
    arithmetic shift right by k of a signed value is Dafny's (Euclidean, hence
    flooring) division by 2^k. */
module Bits {

  const TWO_31: nat := 0x8000_0000
  const TWO_32: nat := 0x1_0000_0000
  const TWO_64: nat := 0x1_0000_0000_0000_0000

  type u8 = x: int | 0 <= x < 0x100
  type u32 = x: int | 0 <= x < 0x1_0000_0000
  type u64 = x: int | 0 <= x < 0x1_0000_0000_0000_0000
  type i32 = x: int | -0x8000_0000 <= x < 0x8000_0000

  /** 2 to the power k; never 0, so it can be divided by. */
  function Pow2(k: nat): (r: nat)
    ensures r >= 1
  {
    if k == 0 then 1 else 2 * Pow2(k - 1)
  }

  /** The byte shifts 8, 16 and 24 as powers of two. */
  lemma Pow2Bytes()
    ensures Pow2(8) == 0x100 && Pow2(16) == 0x1_0000 && Pow2(24) == 0x100_0000
  {
    assert Pow2(2) == 4;
    assert Pow2(4) == 4 * Pow2(2);
    assert Pow2(6) == 4 * Pow2(4);
    assert Pow2(8) == 4 * Pow2(6);
    Pow2Add(8, 8);
    Pow2Add(16, 8);
  }

  lemma {:induction false} Pow2Add(a: nat, b: nat)
    ensures Pow2(a + b) == Pow2(a) * Pow2(b)
    decreases b
  {
    if b > 0 {
      Pow2Add(a, b - 1);
      calc {
        Pow2(a + b);
        2 * Pow2(a + (b - 1));
        2 * (Pow2(a) * Pow2(b - 1));
        Pow2(a) * (2 * Pow2(b - 1));
        Pow2(a) * Pow2(b);
      }
    }
  }

  /** Rust's `x as i32` for a u32: the same 32 bits read in two's complement. */
  function ToI32(x: u32): (r: i32)
    ensures r % TWO_32 == x
    ensures r < 0 <==> x >= TWO_31
  {
    if x < TWO_31 then x else x - TWO_32
  }

  /** The 32-bit pattern of an i32, which Rust's `|` on two i32 values acts on. */
  function ToU32(x: i32): (r: u32)
    ensures ToI32(r) == x
  {
    x % TWO_32
  }

  /** Rust's `x as i64 as u64` for an i32: sign extension to 64 bits. */
  function SignExtend64(x: i32): (r: u64)
    ensures r % TWO_32 == x % TWO_32
    ensures x < 0 ==> r >= TWO_64 - TWO_31
    ensures x >= 0 ==> r == x
  {
    if x < 0 then x + TWO_64 else x
  }

  /** Rust's `wrapping_add` on u64. */
  function WrappingAdd(a: u64, b: u64): (r: u64)
    ensures r % TWO_32 == (a + b) % TWO_32
    ensures a + b < TWO_64 ==> r == a + b
    ensures a + b >= TWO_64 ==> r == a + b - TWO_64
  {
    (a + b) % TWO_64
  }

  /** Bitwise OR of two naturals, bit by bit from the least significant. */
  function BitOr(a: nat, b: nat): (r: nat)
    ensures r <= a + b
    ensures a <= r && b <= r
    decreases a + b
  {
    if a == 0 then b
    else if b == 0 then a
    else 2 * BitOr(a / 2, b / 2) + (if a % 2 == 1 || b % 2 == 1 then 1 else 0)
  }

  /** When every set bit of `a` lies below bit k and every set bit of the
      other operand, `c * 2^k`, at or above it, OR is addition. */
  lemma {:induction false} OrDisjoint(a: nat, c: nat, k: nat)
    requires a < Pow2(k)
    ensures BitOr(a, c * Pow2(k)) == a + c * Pow2(k)
    decreases k
  {
    var b := c * Pow2(k);
    if k == 0 {
      assert a == 0;
    } else if a != 0 && b != 0 {
      var p := Pow2(k - 1);
      assert b == 2 * (c * p) by {
        assert Pow2(k) == 2 * p;
      }
      assert b / 2 == c * p && b % 2 == 0;
      OrDisjoint(a / 2, c, k - 1);
    }
  }

  // ------------------------------------------------------------ fields of a word

  /** The low m-bit field of x is the low m-bit field of x's low (m * n)-bit field. */
  lemma ModMod(x: int, m: nat, n: nat)
    requires m > 0 && n > 0
    ensures (x % (m * n)) % m == x % m
  {
    var p := x % (m * n);
    var k := x / (m * n);
    assert x == k * (m * n) + p;
    assert k * (m * n) == (k * n) * m;
    DivUnique(x, m, k * n + p / m, p % m);
  }

  /** Division with a remainder in [0, d) has exactly one answer. */
  lemma DivUnique(x: int, d: nat, q: int, r: int)
    requires d > 0 && 0 <= r < d && x == q * d + r
    ensures x / d == q && x % d == r
  {
    var q', r' := x / d, x % d;
    assert x == q' * d + r';
    var k := q - q';
    assert k * d == r' - r by {
      assert q * d - q' * d == (q - q') * d;
    }
    if k > 0 {
      MulMono(k, d);
    } else if k < 0 {
      MulMono(-k, d);
    }
  }

  lemma MulMono(k: int, d: nat)
    requires k >= 1
    ensures k * d >= d
  {
    assert k * d == (k - 1) * d + d;
  }

  /** Shifting right by a and then by b is shifting right by a + b. */
  lemma DivDiv(x: nat, a: nat, b: nat)
    requires a > 0 && b > 0
    ensures x / a / b == x / (a * b)
  {
    var q1, r1 := x / a, x % a;
    var q2, r2 := q1 / b, q1 % b;
    assert x == q2 * (a * b) + (r2 * a + r1) by {
      assert x == q1 * a + r1;
      assert q1 * a == (q2 * b + r2) * a;
      assert (q2 * b + r2) * a == q2 * (a * b) + r2 * a;
    }
    assert r2 * a + r1 < a * b by {
      assert a * b - r2 * a == (b - r2) * a;
      MulMono(b - r2, a);
    }
    DivUnique(x, a * b, q2, r2 * a + r1);
  }

  /** The field of width m at position d of a word built as low + d * (f + m * high). */
  lemma FieldOf(x: int, d: nat, m: nat, low: nat, f: nat, high: int)
    requires d > 0 && m > 0 && low < d && f < m
    requires x == low + d * f + d * m * high
    ensures (x / d) % m == f
  {
    assert x == (f + m * high) * d + low;
    DivUnique(x, d, f + m * high, low);
    DivUnique(f + m * high, m, high, f);
  }
}
