/** Unsigned machine words as bounded integers, and the bit operations the bus and
    the breaker use, defined on naturals bit by bit. */
module Bits {

  const TWO_TO_16 := 0x1_0000
  const TWO_TO_32 := 0x1_0000_0000
  const TWO_TO_63 := 0x8000_0000_0000_0000
  const TWO_TO_64 := 0x1_0000_0000_0000_0000

  type U8 = x: int | 0 <= x < 0x100
  type U16 = x: int | 0 <= x < TWO_TO_16
  type U32 = x: int | 0 <= x < TWO_TO_32
  type U64 = x: int | 0 <= x < TWO_TO_64
  type I64 = x: int | -TWO_TO_63 <= x < TWO_TO_63

  function Pow2(k: nat): (p: nat)
    ensures p >= 1
  {
    if k == 0 then 1 else 2 * Pow2(k - 1)
  }

  function And(a: nat, b: nat): (r: nat)
    ensures r <= a && r <= b
  {
    if a == 0 || b == 0 then 0
    else 2 * And(a / 2, b / 2) + (if a % 2 == 1 && b % 2 == 1 then 1 else 0)
  }

  function Xor(a: nat, b: nat): nat
    decreases a + b
  {
    if a == 0 then b
    else if b == 0 then a
    else 2 * Xor(a / 2, b / 2) + (if a % 2 != b % 2 then 1 else 0)
  }

  function Or(a: nat, b: nat): nat {
    a + b - And(a, b)
  }

  /** Go's &^ operator: the bits of a that are not in b. */
  function AndNot(a: nat, b: nat): nat {
    a - And(a, b)
  }

  /** The k-th bit, counted from the least significant. */
  function Bit(x: nat, k: nat): (b: nat)
    ensures b < 2
  {
    if k == 0 then x % 2 else Bit(x / 2, k - 1)
  }

  lemma AndStep(x: nat, m: nat)
    ensures And(x, m) == 2 * And(x / 2, m / 2) + (if x % 2 == 1 && m % 2 == 1 then 1 else 0)
  {
  }

  lemma AndZero(x: nat)
    ensures And(x, 0) == 0 && And(0, x) == 0
  {
  }

  /** Masking with two disjoint masks at once adds up. */
  lemma {:induction false} AndSplit(x: nat, a: nat, b: nat)
    requires And(a, b) == 0
    ensures And(x, a + b) == And(x, a) + And(x, b)
  {
    hide And;
    AndZero(x);
    AndZero(a);
    AndZero(b);
    AndZero(a + b);
    if x > 0 && a > 0 && b > 0 {
      AndStep(a, b);
      AndStep(x, a);
      AndStep(x, b);
      AndStep(x, a + b);
      assert (a + b) / 2 == a / 2 + b / 2 && (a + b) % 2 == a % 2 + b % 2;
      AndSplit(x / 2, a / 2, b / 2);
    }
  }

  /** Masking with a single-bit word isolates that bit. */
  lemma {:induction false} AndBit(x: nat, k: nat)
    ensures And(x, Pow2(k)) == if Bit(x, k) == 1 then Pow2(k) else 0
  {
    AndStep(x, Pow2(k));
    if k > 0 {
      AndBit(x / 2, k - 1);
    }
  }

  predicate IsPow2(v: nat) {
    v == 1 || (v > 1 && v % 2 == 0 && IsPow2(v / 2))
  }

  lemma {:induction false} IsPow2Witness(v: nat) returns (k: nat)
    requires IsPow2(v)
    ensures v == Pow2(k)
  {
    if v == 1 {
      k := 0;
    } else {
      var j := IsPow2Witness(v / 2);
      k := j + 1;
    }
  }

  lemma {:induction false} Pow2IsPow2(k: nat)
    ensures IsPow2(Pow2(k))
  {
    if k > 0 {
      Pow2IsPow2(k - 1);
    }
  }

  lemma {:induction false} AndIdempotent(a: nat)
    ensures And(a, a) == a
  {
    if a != 0 {
      AndIdempotent(a / 2);
    }
  }

  /** The test v&(v-1) == 0 on a non-zero word means that exactly one bit is set. */
  lemma {:induction false} PowerOfTwoTest(v: nat)
    requires v > 0
    ensures And(v, v - 1) == 0 <==> IsPow2(v)
  {
    if v == 1 {
    } else if v % 2 == 0 {
      assert (v - 1) / 2 == v / 2 - 1;
      PowerOfTwoTest(v / 2);
    } else {
      assert (v - 1) / 2 == v / 2;
      AndIdempotent(v / 2);
    }
  }

  /** Masking with capacity-1 is reduction modulo a power-of-two capacity. */
  lemma {:induction false} AndMask(x: nat, k: nat)
    ensures And(x, Pow2(k) - 1) == x % Pow2(k)
  {
    var p := Pow2(k);
    assert k == 0 ==> p == 1;
    assert k > 0 ==> p == 2 * Pow2(k - 1);
    hide And, Pow2;
    AndZero(x);
    AndZero(p - 1);
    if x == 0 {
      DivModUnique(0, p, 0, 0);
    } else if k > 0 {
      var m := Pow2(k - 1);
      AndMask(x / 2, k - 1);
      AndOdd(x, m);
      HalveMod(x, m);
    }
  }

  lemma AndOdd(x: nat, m: nat)
    requires x > 0 && m > 0
    ensures And(x, 2 * m - 1) == 2 * And(x / 2, m - 1) + x % 2
  {
    assert (2 * m - 1) / 2 == m - 1 && (2 * m - 1) % 2 == 1;
  }

  lemma HalveMod(x: nat, m: nat)
    requires m > 0
    ensures x % (2 * m) == 2 * ((x / 2) % m) + x % 2
  {
    var q := (x / 2) / m;
    var r := (x / 2) % m;
    assert x / 2 == m * q + r;
    assert x == (2 * m) * q + (2 * r + x % 2);
    DivModUnique(x, 2 * m, q, 2 * r + x % 2);
  }

  lemma DivModUnique(x: int, d: int, q: int, r: int)
    requires 0 < d && 0 <= r < d && x == d * q + r
    ensures x / d == q && x % d == r
  {
    if x / d < q {
      MulMono(d, x / d + 1, q);
    } else if x / d > q {
      MulMono(d, q + 1, x / d);
    }
  }

  lemma MulMono(d: int, a: int, b: int)
    requires 0 <= d && a <= b
    ensures d * a <= d * b
  {
    var k := b - a;
    assert d * k >= 0;
    assert d * b == d * a + d * k;
  }

  lemma {:induction false} Pow2Add(i: nat, j: nat)
    ensures Pow2(i + j) == Pow2(i) * Pow2(j)
  {
    if i > 0 {
      Pow2Add(i - 1, j);
    }
  }

  lemma Pow2Is64()
    ensures Pow2(16) == TWO_TO_16 && Pow2(32) == TWO_TO_32 && Pow2(64) == TWO_TO_64
  {
    assert Pow2(4) == 16;
    Pow2Add(4, 4);
    Pow2Add(8, 8);
    Pow2Add(16, 16);
    Pow2Add(32, 32);
  }

  lemma ModOfMod(x: nat, a: nat, b: nat)
    requires a > 0 && b > 0
    ensures (x % (a * b)) % a == x % a
  {
    var q := x / (a * b);
    var y := x % (a * b);
    assert x == (a * b) * q + y;
    assert (a * b) * q == a * (b * q);
    var q2, r2 := y / a, y % a;
    assert x == a * (b * q + q2) + r2 by {
      assert a * (b * q + q2) == a * (b * q) + a * q2;
    }
    DivModUnique(x, a, b * q + q2, r2);
  }

  lemma {:induction false} IsPow2Bound(v: nat, k: nat)
    requires v == Pow2(k) && v < Pow2(64)
    ensures k < 64
  {
    if k >= 64 {
      Pow2Add(64, k - 64);
      MulMono(Pow2(64), 1, Pow2(k - 64));
    }
  }

  /** A wrapping 64-bit index, masked by capacity-1, is the unbounded index modulo the
      capacity: wrap-around is invisible because the capacity divides 2^64. */
  lemma MaskedIndex(unbounded: nat, capacity: nat)
    requires IsPow2(capacity) && capacity < TWO_TO_32
    ensures And(unbounded % TWO_TO_64, capacity - 1) == unbounded % capacity
  {
    var k := IsPow2Witness(capacity);
    Pow2Is64();
    IsPow2Bound(capacity, k);
    AndMask(unbounded % TWO_TO_64, k);
    Pow2Add(k, 64 - k);
    ModOfMod(unbounded, capacity, Pow2(64 - k));
  }
}
