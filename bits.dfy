/**
 * Integer and bit arithmetic the scheduler relies on: powers of two, the
 * bitwise AND used to turn a logical ring index into a slot, rounding a
 * capacity up to a power of two, and 32-bit two's complement wrap-around.
 */
module Bits {

  function Pow2(k: nat): (r: nat)
    ensures r >= 1
  {
    if k == 0 then 1 else 2 * Pow2(k - 1)
  }

  lemma {:induction false} Pow2Add(a: nat, b: nat)
    ensures Pow2(a + b) == Pow2(a) * Pow2(b)
  {
    if a > 0 {
      Pow2Add(a - 1, b);
      assert Pow2(a + b) == 2 * Pow2(a - 1 + b);
    }
  }

  /** The powers of two that the 32-bit encodings use. */
  lemma Pow2Constants()
    ensures Pow2(30) == 0x4000_0000 && Pow2(31) == 0x8000_0000 && Pow2(32) == 0x1_0000_0000
  {
    assert Pow2(4) == 16;
    Pow2Add(4, 4); Pow2Add(8, 8); Pow2Add(16, 16); Pow2Add(15, 16); Pow2Add(14, 16);
    Pow2Add(7, 8); Pow2Add(6, 8); Pow2Add(3, 4); Pow2Add(2, 4);
  }

  /** True when n is a power of two (1, 2, 4, ...). */
  predicate IsPow2(n: nat)
    decreases n
  {
    n == 1 || (n >= 2 && n % 2 == 0 && IsPow2(n / 2))
  }

  /** Bitwise AND of two non-negative integers, bit by bit from the lowest. */
  function And(x: nat, y: nat): nat
    decreases x
  {
    if x == 0 || y == 0 then 0
    else 2 * And(x / 2, y / 2) + (if x % 2 == 1 && y % 2 == 1 then 1 else 0)
  }

  /** Euclidean division is unique: a quotient and remainder in range are the ones `/` and `%` give. */
  lemma DivModUnique(a: int, q: int, r: int, n: int)
    requires n > 0 && 0 <= r < n && a == q * n + r
    ensures a / n == q && a % n == r
  {
    var q', r' := a / n, a % n;
    assert a == q' * n + r';
    if q' > q {
      assert (q' - q) * n >= n by { MulAtLeast(q' - q, n); }
      assert false;
    } else if q' < q {
      assert (q - q') * n >= n by { MulAtLeast(q - q', n); }
      assert false;
    }
  }

  lemma MulAtLeast(m: int, n: int)
    requires m >= 1 && n > 0
    ensures m * n >= n
  {
  }

  /** Masking with 2^k - 1 keeps the low k bits: it is the remainder modulo 2^k. */
  lemma {:induction false} MaskIsMod(x: nat, k: nat)
    ensures And(x, Pow2(k) - 1) == x % Pow2(k)
  {
    if k == 0 {
      assert Pow2(k) == 1;
      assert And(x, 0) == 0;
    } else if x == 0 {
      assert And(x, Pow2(k) - 1) == 0;
    } else {
      MaskIsMod(x / 2, k - 1);
      MaskStep(x, k);
    }
  }

  /** The inductive step of MaskIsMod: from the low k - 1 bits of x / 2 to the low k bits of x. */
  lemma MaskStep(x: nat, k: nat)
    requires x > 0 && k > 0
    requires And(x / 2, Pow2(k - 1) - 1) == (x / 2) % Pow2(k - 1)
    ensures And(x, Pow2(k) - 1) == x % Pow2(k)
  {
    var m := Pow2(k - 1);
    assert Pow2(k) == 2 * m;
    AndOddMask(x, m);
    ModDouble(x, m);
  }

  /** One step of masking with an odd mask 2m - 1: the lowest bit is kept, the rest is masked with m - 1. */
  lemma AndOddMask(x: nat, m: nat)
    requires x > 0 && m >= 1
    ensures And(x, 2 * m - 1) == 2 * And(x / 2, m - 1) + x % 2
  {
    DivModUnique(2 * m - 1, m - 1, 1, 2);
  }

  /** The remainder modulo 2m from the remainder of x / 2 modulo m and the lowest bit. */
  lemma ModDouble(x: nat, m: nat)
    requires m >= 1
    ensures x % (2 * m) == 2 * ((x / 2) % m) + x % 2
  {
    var q, r := (x / 2) / m, (x / 2) % m;
    assert x / 2 == q * m + r;
    assert x == q * (2 * m) + (2 * r + x % 2);
    DivModUnique(x, q, 2 * r + x % 2, 2 * m);
  }

  /** Bitwise OR of two non-negative integers, bit by bit from the lowest. */
  function Or(x: nat, y: nat): nat
    decreases x + y
  {
    if x == 0 then y
    else if y == 0 then x
    else 2 * Or(x / 2, y / 2) + (if x % 2 == 1 || y % 2 == 1 then 1 else 0)
  }

  lemma DivDiv(x: nat, m: nat)
    requires m > 0
    ensures (x / 2) / m == x / (2 * m)
  {
    var q := (x / 2) / m;
    var r := (x / 2) % m;
    assert x / 2 == q * m + r;
    assert x == q * (2 * m) + (2 * r + x % 2);
    DivModUnique(x, q, 2 * r + x % 2, 2 * m);
  }

  /** OR with 2^k sets bit k: it adds 2^k exactly when that bit was clear. */
  lemma {:induction false} OrPow2(u: nat, k: nat)
    ensures Or(u, Pow2(k)) == if (u / Pow2(k)) % 2 == 1 then u else u + Pow2(k)
  {
    if k == 0 {
      if u != 0 {
        assert Or(u, 1) == 2 * Or(u / 2, 0) + 1;
      }
    } else if u != 0 {
      var m := Pow2(k - 1);
      assert Pow2(k) == 2 * m;
      assert (2 * m) / 2 == m && (2 * m) % 2 == 0;
      assert Or(u, 2 * m) == 2 * Or(u / 2, m) + u % 2;
      OrPow2(u / 2, k - 1);
      DivDiv(u, m);
    }
  }

  /** The exponent of a power of two (the number of trailing zero bits). */
  function TrailingZeroCount(n: nat): (k: nat)
    requires IsPow2(n)
    ensures Pow2(k) == n
    decreases n
  {
    if n == 1 then 0 else 1 + TrailingZeroCount(n / 2)
  }

  lemma {:induction false} Pow2IsPow2(k: nat)
    ensures IsPow2(Pow2(k))
  {
    if k > 0 {
      Pow2IsPow2(k - 1);
      assert Pow2(k) / 2 == Pow2(k - 1);
    }
  }

  /** Doubling p until it reaches v: the least power-of-two multiple of p that is at least v. */
  function CeilPow2(v: nat, p: nat): (r: nat)
    requires IsPow2(p)
    ensures IsPow2(r) && r >= v && r >= p
    ensures r == p || r < 2 * v
    decreases v - p
  {
    if p >= v then p
    else
      assert IsPow2(2 * p) by { assert (2 * p) / 2 == p; }
      CeilPow2(v, 2 * p)
  }

  /**
   * The unsigned 32-bit rounding of the runtime library: the least power of
   * two at least `value`; 0 for 0 and for values above 2^31, which wrap.
   */
  function RoundUpToPowerOf2(value: nat): (r: nat)
    requires value < 0x1_0000_0000
    ensures r == 0 <==> value == 0 || value > 0x8000_0000
    ensures r != 0 ==> IsPow2(r) && value <= r < 2 * value
  {
    if value == 0 || value > 0x8000_0000 then 0 else CeilPow2(value, 1)
  }

  // 32-bit two's complement integers (C# `int`, unchecked arithmetic).

  const INT32_MIN: int := -0x8000_0000
  const INT32_MAX: int := 0x7FFF_FFFF

  predicate IsInt32(x: int) {
    INT32_MIN <= x <= INT32_MAX
  }

  /** The int32 value congruent to x modulo 2^32. */
  function Wrap32(x: int): (r: int)
    ensures IsInt32(r)
    ensures (r - x) % 0x1_0000_0000 == 0
    ensures IsInt32(x) ==> r == x
  {
    var m := (x - INT32_MIN) % 0x1_0000_0000;
    if IsInt32(x) then
      assert m == x - INT32_MIN by { DivModUnique(x - INT32_MIN, 0, x - INT32_MIN, 0x1_0000_0000); }
      m + INT32_MIN
    else
      assert x - INT32_MIN == (x - INT32_MIN) / 0x1_0000_0000 * 0x1_0000_0000 + m;
      m + INT32_MIN
  }

  /** `x + 1` on int32, wrapping from the maximum to the minimum. */
  function Inc32(x: int): (r: int)
    requires IsInt32(x)
    ensures IsInt32(r)
    ensures r == if x == INT32_MAX then INT32_MIN else x + 1
  {
    Wrap32(x + 1)
  }

  /** `x - 1` on int32, wrapping from the minimum to the maximum. */
  function Dec32(x: int): (r: int)
    requires IsInt32(x)
    ensures IsInt32(r)
    ensures r == if x == INT32_MIN then INT32_MAX else x - 1
  {
    Wrap32(x - 1)
  }

  /** Powers of two grow strictly with the exponent. */
  lemma Pow2Increasing(a: nat, b: nat)
    requires a < b
    ensures Pow2(a) < Pow2(b)
  {
    Pow2Add(a, b - a);
    assert Pow2(b - a) >= 2;
  }

  /** Requests above 2^30, up to 2^31, round up to 2^31. */
  lemma RoundUpAboveHalf(value: nat)
    requires 0x4000_0000 < value <= 0x8000_0000
    ensures RoundUpToPowerOf2(value) == 0x8000_0000
  {
    var r := RoundUpToPowerOf2(value);
    var k := TrailingZeroCount(r);
    Pow2Constants();
    if k < 30 {
      Pow2Increasing(k, 30);
    } else if k > 32 {
      Pow2Increasing(32, k);
    }
  }

  /** The unsigned 32-bit cast of an int32: the value itself, or the value plus 2^32 when negative. */
  lemma UnsignedCast(x: int)
    requires IsInt32(x)
    ensures x % 0x1_0000_0000 == if x >= 0 then x else x + 0x1_0000_0000
  {
    if x >= 0 {
      DivModUnique(x, 0, x, 0x1_0000_0000);
    } else {
      DivModUnique(x, -1, x + 0x1_0000_0000, 0x1_0000_0000);
    }
  }

  /** The signed 32-bit cast of an unsigned value up to 2^31: the value itself, except 2^31, which becomes the int32 minimum. */
  lemma SignedCast(u: nat)
    requires u <= 0x8000_0000
    ensures Wrap32(u) == if u == 0x8000_0000 then INT32_MIN else u
  {
    if u == 0x8000_0000 {
      DivModUnique(u - INT32_MIN, 1, 0, 0x1_0000_0000);
    }
  }

  /**
   * The ring capacity the queue's constructor computes from an int32
   * request, `(int)RoundUpToPowerOf2((uint)maximumTaskCapacity)`: the
   * rounded power of two for a request in [1, 2^30]; 0 for a request of 0
   * or a negative one that the unsigned cast takes above 2^31; and the
   * negative int32 minimum for the int32 minimum and for requests above
   * 2^30, which round to 2^31.
   */
  function RingCapacity(maximumTaskCapacity: int): (c: int)
    requires IsInt32(maximumTaskCapacity)
    ensures 1 <= maximumTaskCapacity <= 0x4000_0000 ==>
      c > 0 && IsPow2(c) && maximumTaskCapacity <= c < 2 * maximumTaskCapacity
    ensures INT32_MIN < maximumTaskCapacity <= 0 ==> c == 0
    ensures maximumTaskCapacity == INT32_MIN || maximumTaskCapacity > 0x4000_0000 ==> c == INT32_MIN
  {
    UnsignedCast(maximumTaskCapacity);
    var r := RoundUpToPowerOf2(maximumTaskCapacity % 0x1_0000_0000);
    var v := maximumTaskCapacity % 0x1_0000_0000;
    assert 0x4000_0000 < v <= 0x8000_0000 ==> r == 0x8000_0000 by {
      if 0x4000_0000 < v <= 0x8000_0000 {
        RoundUpAboveHalf(v);
      }
    }
    SignedCast(r);
    Wrap32(r)
  }
}
