/** Bitwise operations on naturals, bit by bit. */
module Bits {
  /** Exclusive or of the low `bits` bits. */
  function Xor(a: nat, b: nat, bits: nat): nat {
    if bits == 0 then 0 else (a + b) % 2 + 2 * Xor(a / 2, b / 2, bits - 1)
  }

  function Pow2(n: nat): nat {
    if n == 0 then 1 else 2 * Pow2(n - 1)
  }

  lemma {:induction false} XorBound(a: nat, b: nat, bits: nat)
    ensures Xor(a, b, bits) < Pow2(bits)
  {
    if bits > 0 {
      XorBound(a / 2, b / 2, bits - 1);
    }
  }

  lemma LowBit(a: nat, b: nat, rest: nat)
    ensures var x := (a + b) % 2 + 2 * rest; x / 2 == rest && (x + b) % 2 == a % 2
  {
  }

  /** Masking twice with the same bits is the identity. */
  lemma {:induction false} XorTwice(a: nat, b: nat, bits: nat)
    requires a < Pow2(bits)
    ensures Xor(Xor(a, b, bits), b, bits) == a
  {
    if bits > 0 {
      LowBit(a, b, Xor(a / 2, b / 2, bits - 1));
      XorTwice(a / 2, b / 2, bits - 1);
    }
  }

  lemma Pow2Of16()
    ensures Pow2(16) == 0x1_0000
  {
    assert Pow2(4) == 16;
    assert Pow2(8) == 256;
    assert Pow2(12) == 4096;
  }

  /** Bitwise and of the low `bits` bits. */
  function And(a: nat, b: nat, bits: nat): nat {
    if bits == 0 then 0 else (a % 2) * (b % 2) + 2 * And(a / 2, b / 2, bits - 1)
  }

  lemma Pow2Positive(n: nat)
    ensures Pow2(n) > 0
  {
  }

  /** Masking with all ones below `k` is the remainder modulo 2^k. */
  lemma {:induction false} AndOnes(v: nat, k: nat, bits: nat)
    requires k <= bits
    ensures Pow2(k) > 0 && And(v, Pow2(k) - 1, bits) == v % Pow2(k)
  {
    Pow2Positive(k);
    if k == 0 {
      AndZero(v, bits);
    } else {
      var m := Pow2(k - 1);
      AndOnes(v / 2, k - 1, bits - 1);
      AndOdd(v, m, bits);
      hide And;
      assert Pow2(k) == 2 * m;
      hide Pow2;
      HalveRemainder(v, m);
    }
  }

  lemma AndOdd(v: nat, m: nat, bits: nat)
    requires m > 0 && bits > 0
    ensures And(v, 2 * m - 1, bits) == v % 2 + 2 * And(v / 2, m - 1, bits - 1)
  {
    assert (2 * m - 1) % 2 == 1 && (2 * m - 1) / 2 == m - 1;
  }

  lemma {:induction false} AndZero(v: nat, bits: nat)
    ensures And(v, 0, bits) == 0 && And(0, v, bits) == 0
  {
    if bits > 0 {
      AndZero(v / 2, bits - 1);
    }
  }

  lemma HalveRemainder(v: nat, m: nat)
    requires m > 0
    ensures v % (2 * m) == v % 2 + 2 * (v / 2 % m)
  {
    var q := v / 2 / m;
    assert v / 2 == q * m + v / 2 % m;
    assert v == (2 * m) * q + (v % 2 + 2 * (v / 2 % m));
    RemainderIs(v, 2 * m, q, v % 2 + 2 * (v / 2 % m));
  }

  lemma Multiple(m: int, k: int)
    requires m >= 0
    ensures k >= 1 ==> m * k >= m
    ensures k <= -1 ==> m * k <= -m
  {
  }

  lemma RemainderIs(v: nat, m: nat, q: nat, r: nat)
    requires v == m * q + r && r < m
    ensures v % m == r && v / m == q
  {
    var q', r' := v / m, v % m;
    var d: int := q' - q;
    assert m * d == r - r' by {
      assert m * q' + r' == m * q + r;
    }
    Multiple(m, d);
  }

  lemma OddPower(n: nat, bits: nat)
    requires n % 2 == 1
    ensures forall j: nat :: j < bits && n == Pow2(j) ==> n == 1
  {
  }

  /** `n & (n - 1) == 0` holds of powers of two only. */
  lemma {:induction false} AndPredecessor(n: nat, bits: nat) returns (k: nat)
    requires 0 < n < Pow2(bits)
    ensures And(n, n - 1, bits) == 0 ==> k < bits && n == Pow2(k)
    ensures (exists j: nat :: j < bits && n == Pow2(j)) ==> And(n, n - 1, bits) == 0
  {
    k := 0;
    if n % 2 == 1 {
      assert (n - 1) / 2 == n / 2 && (n - 1) % 2 == 0;
      AndSelf(n / 2, bits - 1);
      if n == 1 {
        AndZero(0, bits - 1);
      }
      OddPower(n, bits);
    } else {
      assert (n - 1) / 2 == n / 2 - 1 && (n - 1) % 2 == 1;
      var h := AndPredecessor(n / 2, bits - 1);
      k := h + 1;
      forall j: nat | j < bits && n == Pow2(j) ensures exists i: nat :: i < bits - 1 && n / 2 == Pow2(i) {
        assert j > 0;
        assert n / 2 == Pow2(j - 1);
      }
    }
  }

  lemma {:induction false} AndSelf(n: nat, bits: nat)
    requires n < Pow2(bits)
    ensures And(n, n, bits) == n
  {
    if bits > 0 {
      AndSelf(n / 2, bits - 1);
      assert (n % 2) * (n % 2) == n % 2;
    }
  }

  /** Bit `i` of a natural. */
  function Bit(x: nat, i: nat): nat
    decreases i
  {
    if i == 0 then x % 2 else Bit(x / 2, i - 1)
  }

  /** Each bit of an exclusive or is the sum of the two, without carry. */
  lemma {:induction false} XorBits(a: nat, b: nat, bits: nat, i: nat)
    requires i < bits
    ensures Bit(Xor(a, b, bits), i) == (Bit(a, i) + Bit(b, i)) % 2
  {
    LowBit(a, b, Xor(a / 2, b / 2, bits - 1));
    if i > 0 {
      XorBits(a / 2, b / 2, bits - 1, i - 1);
    } else {
      assert (a + b) % 2 == (a % 2 + b % 2) % 2;
    }
  }

  lemma {:induction false} XorSymmetric(a: nat, b: nat, bits: nat)
    ensures Xor(a, b, bits) == Xor(b, a, bits)
  {
    if bits > 0 {
      XorSymmetric(a / 2, b / 2, bits - 1);
    }
  }
}
