/** Bit operations of the C++ and GLSL sources, defined bit by bit on natural numbers,
    and the arithmetic facts that the sources rely on when one operand is a power of two. */
module Bits {

  const WORD: int := 0x1_0000_0000_0000_0000
  const UINT32: int := 0x1_0000_0000

  function Pow2(e: nat): (p: int)
    ensures p >= 1
  {
    if e == 0 then 1 else 2 * Pow2(e - 1)
  }

  ghost predicate IsPow2(x: int) {
    exists e: nat :: Pow2(e) == x
  }

  /** Bitwise conjunction `a & b`. */
  function And(a: nat, b: nat): nat {
    if a == 0 || b == 0 then 0
    else 2 * And(a / 2, b / 2) + (if a % 2 == 1 && b % 2 == 1 then 1 else 0)
  }

  /** Bitwise exclusive or `a ^ b`. */
  function Xor(a: nat, b: nat): nat
    decreases a + b
  {
    if a == 0 then b else if b == 0 then a
    else 2 * Xor(a / 2, b / 2) + (if a % 2 != b % 2 then 1 else 0)
  }

  /** floor(log2(x)), the source's `63 - __builtin_clzll(x)`. */
  function Log2(x: int): nat
    requires x > 0
  {
    if x == 1 then 0 else 1 + Log2(x / 2)
  }

  lemma {:induction false} Log2Bounds(x: int)
    requires x > 0
    ensures Pow2(Log2(x)) <= x < 2 * Pow2(Log2(x))
  {
    if x > 1 {
      Log2Bounds(x / 2);
    }
  }

  lemma {:induction false} Log2Monotone(x: int, y: int)
    requires 0 < x <= y
    ensures Log2(x) <= Log2(y)
  {
    if x > 1 {
      Log2Monotone(x / 2, y / 2);
    }
  }

  lemma {:induction false} Pow2Monotone(a: nat, b: nat)
    requires a <= b
    ensures Pow2(a) <= Pow2(b)
    ensures a < b ==> 2 * Pow2(a) <= Pow2(b)
    decreases b
  {
    if a < b {
      Pow2Monotone(a, b - 1);
    }
  }

  lemma {:induction false} Pow2Product(a: nat, b: nat)
    ensures Pow2(a + b) == Pow2(a) * Pow2(b)
  {
    if a > 0 {
      Pow2Product(a - 1, b);
      assert Pow2(a + b) == 2 * Pow2(a - 1 + b);
    }
  }

  /** Dividing by 2p is halving, then dividing by p. */
  lemma HalveFirst(x: int, p: int)
    requires x >= 0 && p >= 1
    ensures x / (2 * p) == x / 2 / p
    ensures x % (2 * p) == 2 * (x / 2 % p) + x % 2
  {
    var q, r := x / 2 / p, x / 2 % p;
    assert x / 2 == q * p + r;
    assert x == q * (2 * p) + (2 * r + x % 2);
    QuotientUnique(x, 2 * p, q, 2 * r + x % 2);
  }

  lemma QuotientUnique(x: int, d: int, q: int, r: int)
    requires d > 0 && x == q * d + r && 0 <= r < d
    ensures x / d == q && x % d == r
  {
    var q', r' := x / d, x % d;
    var k := q - q';
    assert x == q' * d + r' && 0 <= r' < d;
    assert k * d == q * d - q' * d == r' - r;
    MultipleBounds(k, d);
  }

  lemma MultipleBounds(k: int, d: int)
    requires d > 0
    ensures k >= 1 ==> k * d >= d
    ensures k <= -1 ==> k * d <= -d
  {
    if k >= 1 {
      assert k * d == (k - 1) * d + d;
    } else if k <= -1 {
      assert k * d == (k + 1) * d - d;
    }
  }

  /** Exclusive or with a power of two moves i to the other half of its 2^(e+1)-block. */
  lemma {:induction false} XorPow2(i: nat, e: nat)
    ensures Xor(i, Pow2(e)) == if i / Pow2(e) % 2 == 0 then i + Pow2(e) else i - Pow2(e)
  {
    if e == 0 {
      if i > 0 {
        assert Xor(i, 1) == 2 * Xor(i / 2, 0) + (if i % 2 != 1 then 1 else 0);
      }
    } else if i > 0 {
      XorPow2(i / 2, e - 1);
      HalveFirst(i, Pow2(e - 1));
      assert Pow2(e) / 2 == Pow2(e - 1) && Pow2(e) % 2 == 0;
    } else {
      assert 0 / Pow2(e) == 0 by { QuotientUnique(0, Pow2(e), 0, 0); }
    }
  }

  /** `i & 2^e` is zero exactly when bit e of i is clear. */
  lemma {:induction false} AndPow2(i: nat, e: nat)
    ensures And(i, Pow2(e)) == if i / Pow2(e) % 2 == 0 then 0 else Pow2(e)
  {
    if e == 0 {
      if i > 0 {
        assert And(i, 1) == 2 * And(i / 2, 0) + (if i % 2 == 1 then 1 else 0);
      }
    } else if i > 0 {
      AndPow2(i / 2, e - 1);
      HalveFirst(i, Pow2(e - 1));
      assert Pow2(e) / 2 == Pow2(e - 1) && Pow2(e) % 2 == 0;
    } else {
      assert 0 / Pow2(e) == 0 by { QuotientUnique(0, Pow2(e), 0, 0); }
    }
  }

  /** `x & ~(2^e - 1)` in w-bit arithmetic clears the low e bits. */
  lemma {:induction false} AndMask(x: nat, e: nat, w: nat, mask: nat)
    requires e <= w && mask == Pow2(w) - Pow2(e) && x < Pow2(w)
    ensures And(x, mask) == x - x % Pow2(e)
    decreases w
  {
    if x == 0 {
      QuotientUnique(x, Pow2(e), 0, 0);
    } else if e == 0 {
      AndAllOnes(x, w);
    } else if e == w {
      QuotientUnique(x, Pow2(e), 0, x);
    } else {
      Pow2Monotone(e, w - 1);
      AndMask(x / 2, e - 1, w - 1, mask / 2);
      AndEven(x, mask);
      HalveFirst(x, Pow2(e - 1));
    }
  }

  lemma AndEven(a: nat, b: nat)
    requires b % 2 == 0
    ensures And(a, b) == 2 * And(a / 2, b / 2)
  {
  }

  lemma {:induction false} AndAllOnes(x: nat, w: nat)
    requires x < Pow2(w)
    ensures And(x, Pow2(w) - 1) == x
    decreases w
  {
    if w > 0 && x > 0 {
      AndAllOnes(x / 2, w - 1);
      assert (Pow2(w) - 1) / 2 == Pow2(w - 1) - 1 && (Pow2(w) - 1) % 2 == 1;
    }
  }

  /** The source's power-of-two test `(x & (x - 1)) == 0`. */
  lemma {:induction false} AndPredecessor(x: nat)
    requires x > 0
    ensures And(x, x - 1) == 0 <==> IsPow2(x)
  {
    if x == 1 {
      assert Pow2(0) == 1;
    } else if x % 2 == 1 {
      assert And(x, x - 1) == 2 * And(x / 2, x / 2);
      AndSelf(x / 2);
      forall e: nat ensures Pow2(e) != x {
        if e > 0 { assert Pow2(e) % 2 == 0; }
      }
    } else {
      AndPredecessor(x / 2);
      assert (x - 1) / 2 == x / 2 - 1;
      if IsPow2(x / 2) {
        var e: nat :| Pow2(e) == x / 2;
        assert Pow2(e + 1) == x;
      }
      if IsPow2(x) {
        var e: nat :| Pow2(e) == x;
        assert e > 0 && Pow2(e - 1) == x / 2;
      }
    }
  }

  lemma {:induction false} AndSelf(x: nat)
    ensures And(x, x) == x
  {
    if x > 0 {
      AndSelf(x / 2);
    }
  }

  lemma WordIsPow2()
    ensures Pow2(64) == WORD && Pow2(32) == UINT32
  {
    hide Pow2;
    Pow2Of16();
    Pow2Product(16, 16);
    Pow2Product(32, 32);
  }

  lemma Pow2Of16()
    ensures Pow2(16) == 0x1_0000
  {
    assert Pow2(8) == 256;
    Pow2Product(8, 8);
  }

  /** Addition of 64-bit words. */
  function WrapAdd(a: int, b: int): (c: int)
    ensures 0 <= c < WORD
  {
    (a + b) % 0x1_0000_0000_0000_0000
  }

  lemma WrapAddExact(a: int, b: int)
    requires 0 <= a + b < 2 * WORD
    ensures WrapAdd(a, b) == if a + b < WORD then a + b else a + b - WORD
  {
  }

  /** The source's `round_up` / `align_up`: `(x + a - 1) & ~(a - 1)` on 64-bit words. */
  function RoundUp(x: nat, a: int): nat
    requires 0 < a < WORD
  {
    And(WrapAdd(x, a - 1), WORD - a)
  }

  /** For a power of two that does not wrap, RoundUp is the least multiple of a not below x. */
  lemma RoundUpIsLeastMultiple(x: nat, a: int)
    requires 0 < a < WORD && IsPow2(a) && x + a - 1 < WORD
    ensures RoundUp(x, a) % a == 0
    ensures x <= RoundUp(x, a) < x + a
  {
    hide WrapAdd, And;
    var e: nat :| Pow2(e) == a;
    var y := x + a - 1;
    WrapAddExact(x, a - 1);
    MaskIsFloor(y, e);
    FloorMultiple(y, a);
  }

  lemma MaskIsFloor(y: nat, e: nat)
    requires y < WORD && Pow2(e) < WORD
    ensures And(y, WORD - Pow2(e)) == y - y % Pow2(e)
  {
    WordIsPow2();
    if e > 64 { Pow2Monotone(64, e); }
    AndMask(y, e, 64, WORD - Pow2(e));
  }

  lemma FloorMultiple(y: nat, a: int)
    requires a > 0
    ensures (y - y % a) % a == 0 && y - a < y - y % a <= y
  {
    QuotientUnique(y - y % a, a, y / a, 0);
  }

  /** Exclusive or with the same operand twice is the identity. */
  lemma {:induction false} XorInvolutive(a: nat, b: nat)
    ensures Xor(Xor(a, b), b) == a
    decreases a + b
  {
    if a > 0 && b > 0 {
      XorInvolutive(a / 2, b / 2);
      assert Xor(a, b) / 2 == Xor(a / 2, b / 2);
      assert Xor(a, b) % 2 == if a % 2 != b % 2 then 1 else 0;
      XorHalves(Xor(a, b), b);
    } else if a == 0 {
      XorSelf(b);
    }
  }

  lemma {:induction false} XorSelf(b: nat)
    ensures Xor(b, b) == 0
  {
    if b > 0 { XorSelf(b / 2); }
  }

  lemma XorHalves(a: nat, b: nat)
    ensures Xor(a, b) == 2 * Xor(a / 2, b / 2) + (if a % 2 != b % 2 then 1 else 0)
  {
  }

  /** Dividing by d and then by u is dividing by d * u. */
  lemma DivideTwice(x: int, d: int, u: int)
    requires x >= 0 && d > 0 && u > 0
    ensures d * u > 0 && x / (d * u) == x / d / u
  {
    var q, r := x / d / u, x / d % u;
    assert x / d == q * u + r;
    assert x == (q * u + r) * d + x % d == q * (d * u) + (r * d + x % d);
    assert r * d + x % d < u * d by { MultipleBounds(u - r, d); }
    assert r * d >= 0;
    QuotientUnique(x, d * u, q, r * d + x % d);
  }

  lemma MultipleOfMultiple(p: int, a: int, c: int, d: int)
    requires p >= 0 && a > 0 && d > 0 && c > 0 && a == c * d && p % a == 0
    ensures p % d == 0
  {
    assert p == p / a * (c * d) == (p / a * c) * d;
    QuotientUnique(p, d, p / a * c, 0);
  }

  /** A power of two not below another one is a multiple of it. */
  lemma Pow2Multiple(a: int, e: nat)
    requires IsPow2(a) && a >= Pow2(e)
    ensures a % Pow2(e) == 0
  {
    var f: nat :| Pow2(f) == a;
    if f < e { Pow2Monotone(f, e); }
    Pow2Product(f - e, e);
    QuotientUnique(a, Pow2(e), Pow2(f - e), 0);
  }
}
