/** Machine-word arithmetic used by the arena: the width of `uintptr_t` and
    `std::size_t`, bitwise AND on naturals, and powers of two. */
module Bits {

  /** 2^64: addresses and sizes are 64-bit unsigned words. */
  const AddrSpace: nat := 0x1_0000_0000_0000_0000
  /** `std::uintptr_t(-1)`, which is also `std::size_t(-1)`. */
  const WordMax: nat := AddrSpace - 1

  type Word = x: nat | x < AddrSpace

  /** Unsigned subtraction in a 64-bit word (wraps below zero). */
  function WordSub(x: Word, y: Word): (r: Word)
    ensures x >= y ==> r == x - y
    ensures x < y ==> r == AddrSpace + x - y
  {
    (x - y + AddrSpace) % AddrSpace
  }

  /** Bitwise AND of two naturals, one binary digit at a time. */
  function And(x: nat, y: nat): (r: nat)
    ensures r <= x && r <= y
  {
    if x == 0 || y == 0 then 0
    else 2 * And(x / 2, y / 2) + (if x % 2 == 1 && y % 2 == 1 then 1 else 0)
  }

  /** A (non-zero) power of two. */
  predicate IsPow2(a: nat)
  {
    a == 1 || (a > 1 && a % 2 == 0 && IsPow2(a / 2))
  }

  /** Euclidean remainder is unique: the facts the arithmetic below rests on. */
  lemma ModUnique(x: nat, d: nat, m: nat, s: nat)
    requires 0 <= s < d && x == d * m + s
    ensures x % d == s && x / d == m
  {
    var q, r := x / d, x % d;
    assert x == d * q + r;
    Distribute(d, q, m);
    MulAwayFromZero(d, q - m);
  }

  lemma Distribute(d: int, q: int, m: int)
    ensures d * (q - m) == d * q - d * m
  {
  }

  lemma MulAwayFromZero(d: int, k: int)
    requires d > 0
    ensures k >= 1 ==> d * k >= d
    ensures k <= -1 ==> d * k <= -d
  {
  }

  lemma ModDouble(x: nat, b: nat)
    requires b > 0
    ensures x % (2 * b) == 2 * ((x / 2) % b) + x % 2
  {
    var q, r := x / 2, x % 2;
    var m, s := q / b, q % b;
    assert q == b * m + s;
    assert x == (2 * b) * m + (2 * s + r);
    ModUnique(x, 2 * b, m, 2 * s + r);
  }

  /** A power of two above one is twice a power of two, and one less than it is odd. */
  lemma HalvePow2(a: nat)
    requires IsPow2(a) && a != 1
    ensures a == 2 * (a / 2) && IsPow2(a / 2) && a / 2 > 0
    ensures (a - 1) % 2 == 1 && (a - 1) / 2 == a / 2 - 1
  {
  }

  /** Masking with an odd `m` keeps the lowest bit of `x`. */
  lemma AndOdd(x: nat, m: nat)
    requires x > 0 && m % 2 == 1
    ensures And(x, m) == 2 * And(x / 2, m / 2) + x % 2
  {
  }

  /** For a power of two `a`, masking with `a - 1` keeps the remainder modulo `a`:
      `x & (a - 1) == x % a`. */
  lemma {:induction false} AndLowMask(x: nat, a: nat)
    requires IsPow2(a)
    ensures And(x, a - 1) == x % a
  {
    if a == 1 {
      assert And(x, 0) == 0;
    } else if x == 0 {
      assert And(0, a - 1) == 0;
    } else {
      var b := a / 2;
      HalvePow2(a);
      AndOdd(x, a - 1);
      AndLowMask(x / 2, b);
      ModDouble(x, b);
    }
  }

  lemma {:induction false} AndSelf(x: nat)
    ensures And(x, x) == x
  {
    if x != 0 {
      AndSelf(x / 2);
    }
  }

  /** The source's power-of-two test `(a & (a - 1)) == 0`, for a non-zero `a`,
      holds exactly of the powers of two. */
  lemma {:induction false} PowerOfTwoTest(a: nat)
    requires a > 0
    ensures And(a, a - 1) == 0 <==> IsPow2(a)
  {
    if a == 1 {
    } else if a % 2 == 1 {
      assert (a - 1) / 2 == a / 2 && (a - 1) % 2 == 0;
      assert And(a, a - 1) == 2 * And(a / 2, a / 2);
      AndSelf(a / 2);
      assert !IsPow2(a);
    } else {
      assert (a - 1) % 2 == 1 && (a - 1) / 2 == a / 2 - 1;
      assert And(a, a - 1) == 2 * And(a / 2, a / 2 - 1);
      PowerOfTwoTest(a / 2);
    }
  }

  /** A smaller power of two divides a larger one. */
  lemma {:induction false} Pow2Divides(a: nat, b: nat)
    requires IsPow2(a) && IsPow2(b) && a <= b
    ensures b % a == 0
  {
    if a == 1 {
    } else {
      assert b != 1;
      Pow2Divides(a / 2, b / 2);
      var m := (b / 2) / (a / 2);
      assert b / 2 == (a / 2) * m;
      ModUnique(b, a, m, 0);
    }
  }

  lemma {:induction false} Pow2Product(a: nat, b: nat)
    requires IsPow2(a) && IsPow2(b)
    ensures IsPow2(a * b)
  {
    if b != 1 {
      Pow2Product(a, b / 2);
      assert a * b == 2 * (a * (b / 2));
      assert (a * b) / 2 == a * (b / 2);
    }
  }

  lemma WordIsPow2()
    ensures IsPow2(AddrSpace)
  {
    assert IsPow2(65536);
    Pow2Product(65536, 65536);
    Pow2Product(65536 * 65536, 65536);
    Pow2Product(65536 * 65536 * 65536, 65536);
  }

  /** Every power of two that fits in a word divides 2^64. */
  lemma Pow2DividesAddrSpace(a: nat)
    requires IsPow2(a) && a < AddrSpace
    ensures AddrSpace % a == 0
  {
    WordIsPow2();
    Pow2Divides(a, AddrSpace);
  }

  /** The quotient of 2^64 by a power of two that fits in a word. */
  lemma Pow2Cofactor(a: nat) returns (K: nat)
    requires IsPow2(a) && a < AddrSpace
    ensures AddrSpace == a * K
  {
    Pow2DividesAddrSpace(a);
    K := AddrSpace / a;
    DivMod(AddrSpace, a);
  }

  lemma DivMod(x: nat, d: nat)
    requires d > 0
    ensures x == d * (x / d) + x % d
  {
  }
}
