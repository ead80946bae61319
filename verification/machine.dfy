/**
 * The C integer types of the benchmark's target (32-bit ARM Linux with glibc):
 * `int` is 32 bits, `uint64_t` arithmetic is carried out modulo 2^64, and `%`
 * on `int` truncates toward zero.
 */
module Machine {

  /** 2^64: every `uint64_t` result is reduced modulo this value. */
  const TWO_64: int := 0x1_0000_0000_0000_0000

  /** glibc's RAND_MAX: `rand()` returns a value in [0, RAND_MAX]. */
  const RAND_MAX: int := 0x7FFF_FFFF

  /** Values of `uint64_t`. */
  type u64 = x: int | 0 <= x < 0x1_0000_0000_0000_0000

  /** Values of the 32-bit `int`. */
  type i32 = x: int | -0x8000_0000 <= x < 0x8000_0000

  function Abs(x: int): (r: nat)
    ensures r == x || r == -x
  {
    if x < 0 then -x else x
  }

  /** Adding a multiple of 2^64 does not change the wrapped value. */
  lemma ModShift(x: int, q: int)
    ensures (x + q * TWO_64) % TWO_64 == x % TWO_64
  {
    var a := (x + q * TWO_64) / TWO_64;
    var b := x / TWO_64;
    assert (a - b - q) * TWO_64 == x % TWO_64 - (x + q * TWO_64) % TWO_64;
  }

  /**
   * The C conversion of an integer to `uint64_t`: the unique value in
   * [0, 2^64) congruent to x modulo 2^64.
   */
  function ToU64(x: int): (r: u64)
    ensures 0 <= x < TWO_64 ==> r == x
    ensures (x - r) % TWO_64 == 0
  {
    ModShift(x % TWO_64, x / TWO_64);
    x % TWO_64
  }

  /** Reducing an operand modulo 2^64 before an addition does not change the wrapped sum. */
  lemma AddWrapped(x: int, y: int)
    ensures ToU64(ToU64(x) + y) == ToU64(x + y)
  {
    ModShift(x % TWO_64 + y, x / TWO_64);
  }

  /** Reducing the multiplicand modulo 2^64 before a multiplication does not change the wrapped product. */
  lemma MulWrapped(x: int, c: int)
    ensures ToU64(ToU64(x) * c) == ToU64(x * c)
  {
    var q := x / TWO_64;
    assert x == q * TWO_64 + ToU64(x);
    assert x * c == ToU64(x) * c + (q * c) * TWO_64 by {
      assert x * c == (q * TWO_64 + ToU64(x)) * c;
    }
    ModShift(ToU64(x) * c, q * c);
  }

  /**
   * C's `%` on `int` (truncating division): the magnitude of the remainder is
   * below the divisor's and its sign follows the dividend's.
   */
  function CRem(a: int, b: int): (r: int)
    requires b != 0
    ensures Abs(r) < Abs(b)
    ensures a >= 0 ==> r >= 0
    ensures a <= 0 ==> r <= 0
    ensures a >= 0 && b > 0 ==> r == a % b
  {
    var m := Abs(a) % Abs(b);
    if a < 0 then -m else m
  }
}
