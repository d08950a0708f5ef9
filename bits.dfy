/**
 * Unsigned integers seen as strings of bits, and the C++ operators the
 * stream applies to them: `>>`, `<<`, `&`, `|` and the narrowing of an
 * integer to `uint8_t`. Everything is stated on natural numbers; bit k of
 * a number is counted from its least significant end.
 */
module Bits {

  /** An element of the stream's buffer (`uint8_t`). */
  type uint8 = x: int | 0 <= x < 0x100

  /** The widths, in bits, of the unsigned types the stream accepts. */
  predicate IsWidth(w: nat) {
    w == 8 || w == 16 || w == 32 || w == 64
  }

  function Pow2(n: nat): (r: nat)
    ensures r >= 1
  {
    if n == 0 then 1 else 2 * Pow2(n - 1)
  }

  function Max(a: nat, b: nat): nat {
    if a < b then b else a
  }

  function Min(a: nat, b: nat): nat {
    if a < b then a else b
  }

  /** Bit k of x, counted from the least significant end. */
  predicate BitOf(x: nat, k: nat) {
    if k == 0 then x % 2 == 1 else BitOf(x / 2, k - 1)
  }

  /** `x >> s` on an unsigned value. */
  function Shr(x: nat, s: nat): nat {
    if s == 0 then x else Shr(x / 2, s - 1)
  }

  /** `x << s`, before any narrowing to the width of a type. */
  function Shl(x: nat, s: nat): nat
    decreases s
  {
    if s == 0 then x else Shl(2 * x, s - 1)
  }

  /** The low n bits of x: what a conversion to an n-bit unsigned type keeps. */
  function Low(x: nat, n: nat): (r: nat)
    ensures r < Pow2(n)
  {
    if n == 0 then 0 else 2 * Low(x / 2, n - 1) + x % 2
  }

  /** `a | b`. */
  function Or(a: nat, b: nat): nat
    decreases a + b
  {
    if a == 0 && b == 0 then 0
    else 2 * Or(a / 2, b / 2) + (if a % 2 == 1 || b % 2 == 1 then 1 else 0)
  }

  /** `a & b`. */
  function And(a: nat, b: nat): nat
    decreases a + b
  {
    if a == 0 || b == 0 then 0
    else 2 * And(a / 2, b / 2) + (if a % 2 == 1 && b % 2 == 1 then 1 else 0)
  }

  /** The implicit conversion of an integer to `uint8_t` when it is stored in a byte. */
  function Trunc8(x: nat): uint8 {
    Pow2At8();
    Low(x, 8)
  }

  lemma Pow2At8()
    ensures Pow2(8) == 0x100
  {
  }

  // ---------------------------------------------------------------------
  // Powers of two

  lemma {:induction false} Pow2Mono(a: nat, b: nat)
    requires a <= b
    ensures Pow2(a) <= Pow2(b)
    decreases b
  {
    if a < b {
      Pow2Mono(a, b - 1);
    }
  }

  // ---------------------------------------------------------------------
  // What each operator does to a single bit

  lemma {:induction false} ZeroBit(k: nat)
    ensures !BitOf(0, k)
  {
    if k > 0 {
      ZeroBit(k - 1);
    }
  }

  lemma OneBit(k: nat)
    ensures BitOf(1, k) <==> k == 0
  {
    if k > 0 {
      ZeroBit(k - 1);
    }
  }

  lemma {:induction false} ShrBit(x: nat, s: nat, k: nat)
    ensures BitOf(Shr(x, s), k) == BitOf(x, k + s)
    decreases s
  {
    if s > 0 {
      ShrBit(x / 2, s - 1, k);
    }
  }

  lemma {:induction false} ShlBit(x: nat, s: nat, k: nat)
    ensures BitOf(Shl(x, s), k) <==> s <= k && BitOf(x, k - s)
    decreases s
  {
    if s > 0 {
      ShlBit(2 * x, s - 1, k);
      if k >= s {
        assert BitOf(2 * x, k - s + 1) == BitOf(x, k - s);
      }
    }
  }

  lemma {:induction false} LowBit(x: nat, n: nat, k: nat)
    ensures BitOf(Low(x, n), k) <==> k < n && BitOf(x, k)
    decreases n
  {
    if n == 0 {
      ZeroBit(k);
    } else if k > 0 {
      LowBit(x / 2, n - 1, k - 1);
    }
  }

  lemma {:induction false} OrBit(a: nat, b: nat, k: nat)
    ensures BitOf(Or(a, b), k) <==> BitOf(a, k) || BitOf(b, k)
    decreases k
  {
    if a == 0 && b == 0 {
      ZeroBit(k);
    } else if k > 0 {
      OrBit(a / 2, b / 2, k - 1);
    }
  }

  lemma {:induction false} AndBit(a: nat, b: nat, k: nat)
    ensures BitOf(And(a, b), k) <==> BitOf(a, k) && BitOf(b, k)
    decreases k
  {
    if a == 0 || b == 0 {
      ZeroBit(k);
    } else if k > 0 {
      AndBit(a / 2, b / 2, k - 1);
    }
  }

  lemma {:induction false} OrZeroLeft(x: nat)
    ensures Or(0, x) == x
    decreases x
  {
    if x > 0 {
      OrZeroLeft(x / 2);
    }
  }

  /** The all-ones value of an n-bit type has exactly the bits below n set. */
  lemma {:induction false} AllOnesBit(n: nat, k: nat)
    ensures BitOf(Pow2(n) - 1, k) <==> k < n
    decreases n
  {
    if n == 0 {
      ZeroBit(k);
    } else if k > 0 {
      assert (Pow2(n) - 1) / 2 == Pow2(n - 1) - 1;
      AllOnesBit(n - 1, k - 1);
    }
  }

  // ---------------------------------------------------------------------
  // Bits and bounds

  /** A value below 2^n has no bit at or above n. */
  lemma {:induction false} HighBitClear(x: nat, n: nat, k: nat)
    requires x < Pow2(n) && n <= k
    ensures !BitOf(x, k)
    decreases n
  {
    if n == 0 {
      ZeroBit(k);
    } else {
      HighBitClear(x / 2, n - 1, k - 1);
    }
  }

  /** Two values below 2^n that agree on every bit below n are equal. */
  lemma {:induction false} BitsEqual(a: nat, b: nat, n: nat)
    requires a < Pow2(n) && b < Pow2(n)
    requires forall k :: 0 <= k < n ==> BitOf(a, k) == BitOf(b, k)
    ensures a == b
    decreases n
  {
    if n > 0 {
      assert BitOf(a, 0) == BitOf(b, 0);
      forall k | 0 <= k < n - 1
        ensures BitOf(a / 2, k) == BitOf(b / 2, k)
      {
        assert BitOf(a, k + 1) == BitOf(b, k + 1);
      }
      BitsEqual(a / 2, b / 2, n - 1);
    }
  }

  /** A value below 2^m whose bits from n to m are clear is below 2^n. */
  lemma BoundFromBits(x: nat, n: nat, m: nat)
    requires n <= m && x < Pow2(m)
    requires forall k :: n <= k < m ==> !BitOf(x, k)
    ensures x < Pow2(n)
  {
    Pow2Mono(n, m);
    forall k | 0 <= k < m
      ensures BitOf(x, k) == BitOf(Low(x, n), k)
    {
      LowBit(x, n, k);
    }
    BitsEqual(x, Low(x, n), m);
  }

  /** Narrowing changes nothing when the value already fits. */
  lemma LowOfSmall(x: nat, n: nat)
    requires x < Pow2(n)
    ensures Low(x, n) == x
  {
    forall k | 0 <= k < n
      ensures BitOf(Low(x, n), k) == BitOf(x, k)
    {
      LowBit(x, n, k);
    }
    BitsEqual(Low(x, n), x, n);
  }

  lemma {:induction false} OrBound(a: nat, b: nat, n: nat)
    requires a < Pow2(n) && b < Pow2(n)
    ensures Or(a, b) < Pow2(n)
    decreases n
  {
    if n > 0 && (a != 0 || b != 0) {
      OrBound(a / 2, b / 2, n - 1);
    }
  }

  lemma {:induction false} ShrBound(x: nat, s: nat, n: nat)
    requires x < Pow2(s + n)
    ensures Shr(x, s) < Pow2(n)
    decreases s
  {
    if s > 0 {
      ShrBound(x / 2, s - 1, n);
    }
  }

  lemma {:induction false} ShlBound(x: nat, s: nat, n: nat)
    requires x < Pow2(n)
    ensures Shl(x, s) < Pow2(n + s)
    decreases s
  {
    if s > 0 {
      ShlBound(2 * x, s - 1, n + 1);
    }
  }

  lemma {:induction false} AndBound(a: nat, b: nat, n: nat)
    requires b < Pow2(n)
    ensures And(a, b) < Pow2(n)
    decreases n
  {
    if n > 0 && a != 0 && b != 0 {
      AndBound(a / 2, b / 2, n - 1);
    }
  }

  /** Masking with a byte gives a byte. */
  lemma AndByte(a: nat, b: nat)
    requires b < 0x100
    ensures And(a, b) < 0x100
  {
    Pow2At8();
    AndBound(a, b, 8);
  }

  // ---------------------------------------------------------------------
  // The operators against ordinary arithmetic

  lemma {:induction false} MulAtLeast(t: nat, d: nat)
    requires t >= 1
    ensures t * d >= d
    decreases t
  {
    if t > 1 {
      MulAtLeast(t - 1, d);
      assert t * d == (t - 1) * d + d;
    }
  }

  lemma DivModUnique(x: nat, d: nat, q: nat, r: nat)
    requires 0 <= r < d && x == q * d + r
    ensures x / d == q && x % d == r
  {
    var q', r' := x / d, x % d;
    assert x == q' * d + r';
    if q' > q {
      var t := q' - q;
      assert q' * d == q * d + t * d;
      MulAtLeast(t, d);
    } else if q' < q {
      var t := q - q';
      assert q * d == q' * d + t * d;
      MulAtLeast(t, d);
    }
  }

  /** `>>` divides by a power of two. */
  lemma {:induction false} ShrIsDiv(x: nat, s: nat)
    ensures Shr(x, s) == x / Pow2(s)
    decreases s
  {
    if s > 0 {
      ShrIsDiv(x / 2, s - 1);
      HalveDivMod(x, Pow2(s - 1));
    }
  }

  /** `<<` multiplies by a power of two. */
  lemma {:induction false} ShlIsMul(x: nat, s: nat)
    ensures Shl(x, s) == x * Pow2(s)
    decreases s
  {
    if s > 0 {
      ShlIsMul(2 * x, s - 1);
    }
  }

  /** Narrowing to n bits is reduction modulo 2^n. */
  lemma HalveDivMod(x: nat, p: nat)
    requires p >= 1
    ensures x / (2 * p) == (x / 2) / p
    ensures x % (2 * p) == 2 * ((x / 2) % p) + x % 2
  {
    var q, r := (x / 2) / p, (x / 2) % p;
    assert x / 2 == q * p + r;
    assert x == q * (2 * p) + (2 * r + x % 2);
    DivModUnique(x, 2 * p, q, 2 * r + x % 2);
  }

  lemma {:induction false} LowIsMod(x: nat, n: nat)
    ensures Low(x, n) == x % Pow2(n)
    decreases n
  {
    if n > 0 {
      LowIsMod(x / 2, n - 1);
      HalveDivMod(x, Pow2(n - 1));
    }
  }
}
