/** Python's integers are unbounded; its bitwise operators act on the
    infinite two's-complement expansion of each operand, and `>>` / `<<` are
    defined as floor division and multiplication by a power of two. This
    module gives those operators, and the `numpy.int16` scalar arithmetic
    built on them, as functions on `int`. */
module PyInt {

  /** 2^n. */
  function Pow2(n: nat): (p: nat)
    ensures p >= 1
  {
    if n == 0 then 1 else 2 * Pow2(n - 1)
  }

  /** Distance from the fixed points of halving (0 and -1); every other
      integer gets closer to one of them when halved. */
  function Magnitude(x: int): nat
  {
    if x < 0 then -x - 1 else x
  }

  /** Python's `a & b`. */
  function BitAnd(a: int, b: int): int
    decreases Magnitude(a) + Magnitude(b)
  {
    if (a == 0 || a == -1) && (b == 0 || b == -1) then
      (if a == -1 && b == -1 then -1 else 0)
    else
      2 * BitAnd(a / 2, b / 2) + (if a % 2 == 1 && b % 2 == 1 then 1 else 0)
  }

  /** Python's `a | b`. */
  function BitOr(a: int, b: int): int
    decreases Magnitude(a) + Magnitude(b)
  {
    if (a == 0 || a == -1) && (b == 0 || b == -1) then
      (if a == -1 || b == -1 then -1 else 0)
    else
      2 * BitOr(a / 2, b / 2) + (if a % 2 == 1 || b % 2 == 1 then 1 else 0)
  }

  /** Python's `x >> n`: floor division by 2^n (Dafny's `/` by a positive
      divisor rounds down). */
  function ShiftRight(x: int, n: nat): int
  {
    x / Pow2(n)
  }

  /** Python's `x << n`. */
  function ShiftLeft(x: int, n: nat): int
  {
    x * Pow2(n)
  }

  // ---------------------------------------------------------------------
  // numpy.int16 scalars: every operation wraps its result to 16 bits
  // ---------------------------------------------------------------------

  type Int16 = x: int | -0x8000 <= x < 0x8000

  /** `numpy.int16(x)`: the int16 with the same low 16 bits as `x`. */
  function ToInt16(x: int): Int16
  {
    (x + 0x8000) % 0x1_0000 - 0x8000
  }

  function And16(a: Int16, b: Int16): Int16 { ToInt16(BitAnd(a, b)) }
  function Or16(a: Int16, b: Int16): Int16 { ToInt16(BitOr(a, b)) }
  function ShiftRight16(a: Int16, n: nat): Int16 { ToInt16(ShiftRight(a, n)) }
  function ShiftLeft16(a: Int16, n: nat): Int16 { ToInt16(ShiftLeft(a, n)) }

  /** Python's `x & 0xFFFF`: the low 16 bits, as a non-negative number. */
  function Mask16(x: int): int
  {
    BitAnd(x, 0xFFFF)
  }

  // ---------------------------------------------------------------------
  // Lemmas
  // ---------------------------------------------------------------------

  lemma Pow2Values()
    ensures Pow2(7) == 0x80 && Pow2(8) == 0x100 && Pow2(16) == 0x1_0000
  {
  }

  /** Halving: every integer is twice its floor half plus its last bit. */
  lemma Halves(x: int)
    ensures x == 2 * (x / 2) + x % 2 && (x % 2 == 0 || x % 2 == 1)
  {
  }

  lemma {:induction false} BitAndZero(x: int)
    ensures BitAnd(x, 0) == 0
    decreases Magnitude(x)
  {
    if !(x == 0 || x == -1) {
      BitAndZero(x / 2);
    }
  }

  lemma {:induction false} BitOrZero(x: int)
    ensures BitOr(x, 0) == x
    decreases Magnitude(x)
  {
    if !(x == 0 || x == -1) {
      BitOrZero(x / 2);
      Halves(x);
    }
  }

  /** One step of `&` against a mask whose last bit is set. */
  lemma BitAndOddStep(x: int, m: int)
    requires m >= 1 && m % 2 == 1
    ensures BitAnd(x, m) == 2 * BitAnd(x / 2, m / 2) + x % 2
  {
  }

  /** One step of `&` against a mask whose last bit is clear. */
  lemma BitAndEvenStep(x: int, m: int)
    requires m >= 1 && m % 2 == 0
    ensures BitAnd(x, m) == 2 * BitAnd(x / 2, m / 2)
  {
  }

  /** One step of `|` with an even left operand. */
  lemma BitOrEvenStep(a: int, b: int)
    requires a % 2 == 0 && !(a == 0 && (b == 0 || b == -1))
    ensures BitOr(a, b) == 2 * BitOr(a / 2, b / 2) + b % 2
  {
    Halves(b);
  }

  /** `x % (2d)` from the last bit of `x` and `(x / 2) % d`. */
  lemma ModDouble(x: int, d: nat)
    requires d >= 1
    ensures x % (2 * d) == 2 * ((x / 2) % d) + x % 2
  {
    var q, r := x / 2, x % 2;
    var a, b := q / d, q % d;
    assert x == 2 * d * a + (2 * b + r);
    assert 0 <= 2 * b + r < 2 * d;
    ModUnique(x, 2 * d, a, 2 * b + r);
  }

  /** Floor division by `2d` through halving first. */
  lemma DivDouble(x: int, d: nat)
    requires d >= 1
    ensures x / (2 * d) == (x / 2) / d
  {
    var q, r := x / 2, x % 2;
    var a, b := q / d, q % d;
    assert x == 2 * d * a + (2 * b + r);
    assert 0 <= 2 * b + r < 2 * d;
    ModUnique(x, 2 * d, a, 2 * b + r);
  }

  lemma ModUnique(x: int, d: nat, q: int, r: int)
    requires d >= 1 && x == d * q + r && 0 <= r < d
    ensures x / d == q && x % d == r
  {
    var q', r' := x / d, x % d;
    assert d * (q - q') == r' - r;
    MulBound(d, q - q');
  }

  /** A non-zero multiple of `d` is at least `d` away from zero. */
  lemma {:induction false} MulBound(d: nat, n: int)
    ensures n >= 1 ==> d * n >= d
    ensures n <= -1 ==> d * n + d <= 0
    decreases if n < 0 then -n else n
  {
    if n > 1 {
      MulBound(d, n - 1);
      assert d * n == d * (n - 1) + d;
    } else if n < -1 {
      MulBound(d, n + 1);
      assert d * n == d * (n + 1) - d;
    }
  }

  /** How 2^k and 2^k - 1 halve, for k >= 1. */
  lemma Pow2Halves(k: nat)
    requires k >= 1
    ensures Pow2(k) == 2 * Pow2(k - 1)
    ensures Pow2(k) % 2 == 0 && Pow2(k) / 2 == Pow2(k - 1)
    ensures Pow2(k) - 1 >= 1 && (Pow2(k) - 1) % 2 == 1 && (Pow2(k) - 1) / 2 == Pow2(k - 1) - 1
  {
  }

  /** And with 2^k - 1 keeps the low k bits: the remainder modulo 2^k,
      whatever the sign of `x`. */
  lemma {:induction false} BitAndLowMask(x: int, k: nat)
    ensures BitAnd(x, Pow2(k) - 1) == x % Pow2(k)
    decreases k
  {
    if k == 0 {
      BitAndZero(x);
    } else {
      Pow2Halves(k);
      BitAndOddStep(x, Pow2(k) - 1);
      BitAndLowMask(x / 2, k - 1);
      ModDouble(x, Pow2(k - 1));
    }
  }

  /** And with 2^k isolates bit k. */
  lemma {:induction false} BitAndSingleBit(x: int, k: nat)
    ensures BitAnd(x, Pow2(k)) == Pow2(k) * ((x / Pow2(k)) % 2)
    decreases k
  {
    if k == 0 {
      BitAndOddStep(x, 1);
      BitAndZero(x / 2);
    } else {
      Pow2Halves(k);
      BitAndEvenStep(x, Pow2(k));
      BitAndSingleBit(x / 2, k - 1);
      DivDouble(x, Pow2(k - 1));
      DoubleProduct(Pow2(k - 1), ((x / 2) / Pow2(k - 1)) % 2);
    }
  }

  lemma DoubleProduct(a: int, b: int)
    ensures 2 * (a * b) == (2 * a) * b
  {
  }

  /** Or of a multiple of 2^k with a number below 2^k is their sum: the
      two have no bit in common. */
  lemma {:induction false} BitOrDisjoint(a: int, b: int, k: nat)
    requires 0 <= b < Pow2(k)
    ensures BitOr(a * Pow2(k), b) == a * Pow2(k) + b
    decreases k
  {
    if k == 0 {
      BitOrZero(a);
    } else {
      var high := a * Pow2(k);
      assert high == 2 * (a * Pow2(k - 1));
      assert high / 2 == a * Pow2(k - 1) && high % 2 == 0;
      Halves(b);
      BitOrDisjoint(a, b / 2, k - 1);
      if !(high == 0 && b == 0) {
        BitOrEvenStep(high, b);
      }
    }
  }

  /** Python's `x & 0xFFFF` is the Euclidean remainder modulo 2^16. */
  lemma Mask16IsMod(x: int)
    ensures Mask16(x) == x % 0x1_0000
  {
    Pow2Values();
    BitAndLowMask(x, 16);
  }

  lemma ToInt16Mod(x: int)
    ensures ToInt16(x) % 0x1_0000 == x % 0x1_0000
    ensures -0x8000 <= x < 0x8000 ==> ToInt16(x) == x
  {
  }

  lemma ModInjective16(a: int, b: int)
    requires -0x8000 <= a < 0x8000 && -0x8000 <= b < 0x8000
    requires a % 0x1_0000 == b % 0x1_0000
    ensures a == b
  {
  }

  /** `numpy.int16` keeps the low 16 bits, and changes nothing in range. */
  lemma ToInt16Props(x: int)
    ensures Mask16(ToInt16(x)) == Mask16(x)
    ensures -0x8000 <= x < 0x8000 ==> ToInt16(x) == x
  {
    Mask16IsMod(x);
    Mask16IsMod(ToInt16(x));
    ToInt16Mod(x);
  }

  /** Two int16 values with the same low 16 bits are equal. */
  lemma Int16Injective(a: Int16, b: Int16)
    requires Mask16(a) == Mask16(b)
    ensures a == b
  {
    Mask16IsMod(a);
    Mask16IsMod(b);
    ModInjective16(a, b);
  }
}
