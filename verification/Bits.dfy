/**
 Unsigned machine words as naturals: powers of two, bitwise OR, and the shifts and
 truncating casts that the C code performs on uint32_t and uint64_t values.
 */
module Bits {

  const U8 := 0x100
  const U16 := 0x1_0000
  const U32 := 0x1_0000_0000
  const U64 := 0x1_0000_0000_0000_0000

  type byte = b: int | 0 <= b < 0x100

  function Pow2(n: nat): (p: nat)
    ensures p >= 1
  {
    if n == 0 then 1 else 2 * Pow2(n - 1)
  }

  /** Bitwise OR of two unsigned words, bit by bit. */
  function Or(a: nat, b: nat): nat
    decreases a + b
  {
    if a == 0 && b == 0 then 0
    else 2 * Or(a / 2, b / 2) + (if a % 2 == 1 || b % 2 == 1 then 1 else 0)
  }

  /** `x << n` on a word of the given modulus: bits pushed past the top are lost. */
  function ShiftLeft(x: nat, n: nat, modulus: nat): nat
    requires modulus > 0
  {
    (x * Pow2(n)) % modulus
  }

  /** `~x` on a 64-bit word. */
  function Not64(x: nat): nat
    requires x < U64
  {
    U64 - 1 - x
  }

  predicate Int32(i: int) {
    -0x8000_0000 <= i < 0x8000_0000
  }

  /** The cast `(intN_t) x` of an unsigned value, two's complement. */
  function ToSigned(x: nat, modulus: nat): int
    requires modulus > 0
  {
    var w := x % modulus;
    if 2 * w < modulus then w else w - modulus
  }

  lemma {:induction false} OrZero(b: nat)
    ensures Or(0, b) == b
    decreases b
  {
    if b > 0 {
      OrZero(b / 2);
    }
  }

  lemma {:induction false} OrCommutes(a: nat, b: nat)
    ensures Or(a, b) == Or(b, a)
    decreases a + b
  {
    if a != 0 || b != 0 {
      OrCommutes(a / 2, b / 2);
    }
  }

  /** OR with a word whose low k bits are clear is addition. */
  lemma {:induction false} OrDisjoint(a: nat, b: nat, k: nat)
    requires a < Pow2(k)
    ensures Or(a, b * Pow2(k)) == a + b * Pow2(k)
    decreases k
  {
    if k == 0 {
      OrZero(b);
    } else {
      var h := b * Pow2(k - 1);
      assert b * Pow2(k) == 2 * h;
      OrDisjoint(a / 2, b, k - 1);
      if a == 0 && h == 0 {
      } else {
        assert (2 * h) / 2 == h && (2 * h) % 2 == 0;
      }
    }
  }

  lemma MultiplyStep(n: int, q: int)
    ensures n * (q + 1) == n * q + n
  {
  }

  lemma ProductGap(n: int, a: int, b: int)
    requires n > 0 && a < b
    ensures n * b >= n * a + n
    decreases b - a
  {
    if a + 1 == b {
      MultiplyStep(n, a);
    } else {
      ProductGap(n, a + 1, b);
      MultiplyStep(n, a);
    }
  }

  /** Quotient and remainder are determined by the defining equation. */
  lemma DivideUnique(a: int, n: int, q: int, r: int)
    requires n > 0 && 0 <= r < n && a == n * q + r
    ensures a / n == q && a % n == r
  {
    var q', r' := a / n, a % n;
    assert a == n * q' + r';
    if q' > q {
      ProductGap(n, q, q');
      assert false;
    }
    if q' < q {
      ProductGap(n, q', q);
      assert false;
    }
  }

  /** Reducing an operand first does not change a 32-bit sum or difference. */
  lemma WrapSum(a: int, b: int)
    ensures (a % U32 + b) % U32 == (a + b) % U32
  {
    var q := a / U32;
    var w := a % U32 + b;
    assert a == U32 * q + a % U32 && w == U32 * (w / U32) + w % U32;
    DivideUnique(a + b, U32, q + w / U32, w % U32);
  }

  lemma WrapDifference(a: int, b: int)
    ensures (a - b % U32) % U32 == (a - b) % U32
  {
    var q := b / U32;
    var x := a - b % U32;
    assert b == U32 * q + b % U32 && x == U32 * (x / U32) + x % U32;
    DivideUnique(a - b, U32, x / U32 - q, x % U32);
  }

  lemma SignedSum(a: int, d: int)
    ensures (a + ToSigned(d % U32, U32)) % U32 == (a + d) % U32
  {
    var w := d % U32;
    DivideUnique(w, U32, 0, w);
    WrapSum(d, a);
    if 2 * w >= U32 {
      var x := a + w;
      assert x == U32 * (x / U32) + x % U32;
      DivideUnique(x - U32, U32, x / U32 - 1, x % U32);
    }
  }

  lemma DoubleProduct(a: nat, b: nat)
    ensures (2 * a) * b == 2 * (a * b)
  {
  }

  lemma {:induction false} Pow2Add(m: nat, n: nat)
    ensures Pow2(m + n) == Pow2(m) * Pow2(n)
    decreases m
  {
    if m > 0 {
      Pow2Add(m - 1, n);
      DoubleProduct(Pow2(m - 1), Pow2(n));
    }
  }

  lemma {:induction false} Pow2Increasing(m: nat, n: nat)
    requires m <= n
    ensures Pow2(m) <= Pow2(n)
    decreases n
  {
    if m < n {
      Pow2Increasing(m, n - 1);
    }
  }

  lemma Pow2Small()
    ensures Pow2(7) == 128 && Pow2(8) == 256
  {
    assert Pow2(4) == 16;
    Pow2Add(4, 3);
    assert Pow2(3) == 8;
    Pow2Add(4, 4);
  }

  lemma Pow2Values()
    ensures Pow2(7) == 128 && Pow2(8) == 0x100 && Pow2(16) == 0x1_0000 && Pow2(24) == 0x100_0000
    ensures Pow2(32) == U32 && Pow2(64) == U64 && Pow2(63) == 0x8000_0000_0000_0000
  {
    assert Pow2(64) == 2 * Pow2(63);
    hide Pow2;
    Pow2Small();
    Pow2Add(8, 8);
    Pow2Add(16, 8);
    Pow2Add(16, 16);
    Pow2Add(32, 32);
  }
}
