/** Unsigned machine integers as natural numbers, with the bitwise operators of the
    source defined on their binary digits.  `Bit(a, j)` is digit `j`; every operator
    has one law that says what its digits are, and two numbers with the same digits
    are equal, so facts about masks and shifts reduce to facts about digit indices. */
module Bits {

  type uint8 = x: int | 0 <= x < 0x100
  type uint32 = x: int | 0 <= x < 0x1_0000_0000
  type uint64 = x: int | 0 <= x < 0x1_0000_0000_0000_0000

  /** What a certificate is known by. */
  type Key = uint64

  /** Binary digit `j` of `a`. */
  predicate Bit(a: nat, j: nat)
    decreases j
  {
    if j == 0 then a % 2 == 1 else Bit(a / 2, j - 1)
  }

  function Digit(b: bool): (d: nat)
    ensures d <= 1
  {
    if b then 1 else 0
  }

  function Xor(a: nat, b: nat): nat
    decreases a + b
  {
    if a + b == 0 then 0 else 2 * Xor(a / 2, b / 2) + Digit((a % 2 == 1) != (b % 2 == 1))
  }

  function And(a: nat, b: nat): nat
    decreases a + b
  {
    if a + b == 0 then 0 else 2 * And(a / 2, b / 2) + Digit(a % 2 == 1 && b % 2 == 1)
  }

  function Or(a: nat, b: nat): nat
    decreases a + b
  {
    if a + b == 0 then 0 else 2 * Or(a / 2, b / 2) + Digit(a % 2 == 1 || b % 2 == 1)
  }

  /** `a >> k`. */
  function Shr(a: nat, k: nat): nat
    decreases k
  {
    if k == 0 then a else Shr(a / 2, k - 1)
  }

  /** `a << k`, before any truncation. */
  function Shl(a: nat, k: nat): nat
    decreases k
  {
    if k == 0 then a else 2 * Shl(a, k - 1)
  }

  /** The low `k` digits of `a`: truncation to `k` bits. */
  function Low(a: nat, k: nat): nat
    decreases k
  {
    if k == 0 then 0 else 2 * Low(a / 2, k - 1) + a % 2
  }

  function Pow2(k: nat): (p: nat)
    ensures p > 0 && (k > 0 ==> p >= 2)
    decreases k
  {
    if k == 0 then 1 else 2 * Pow2(k - 1)
  }

  const TWO64 := 0x1_0000_0000_0000_0000

  /** `a << k` in a 64-bit register. */
  function ShlW(a: nat, k: nat): nat {
    Shl(a, k) % TWO64
  }

  /** `~a` in a 64-bit register. */
  function NotW(a: nat): nat {
    TWO64 - 1 - a % TWO64
  }

  lemma {:induction false} SameBits(a: nat, b: nat)
    requires forall j: nat :: Bit(a, j) == Bit(b, j)
    ensures a == b
    decreases a + b
  {
    if a + b > 0 {
      assert Bit(a, 0) == Bit(b, 0);
      forall j: nat ensures Bit(a / 2, j) == Bit(b / 2, j) {
        assert Bit(a, j + 1) == Bit(b, j + 1);
      }
      SameBits(a / 2, b / 2);
    }
  }

  lemma {:induction false} BitZero(j: nat)
    ensures !Bit(0, j)
    decreases j
  {
    if j > 0 { BitZero(j - 1); }
  }

  lemma {:induction false} BitXor(a: nat, b: nat, j: nat)
    ensures Bit(Xor(a, b), j) == (Bit(a, j) != Bit(b, j))
    decreases j
  {
    if a + b == 0 {
      BitZero(j);
    } else if j > 0 {
      BitXor(a / 2, b / 2, j - 1);
    }
  }

  lemma {:induction false} BitAnd(a: nat, b: nat, j: nat)
    ensures Bit(And(a, b), j) == (Bit(a, j) && Bit(b, j))
    decreases j
  {
    if a + b == 0 {
      BitZero(j);
    } else if j > 0 {
      BitAnd(a / 2, b / 2, j - 1);
    }
  }

  lemma {:induction false} BitOr(a: nat, b: nat, j: nat)
    ensures Bit(Or(a, b), j) == (Bit(a, j) || Bit(b, j))
    decreases j
  {
    if a + b == 0 {
      BitZero(j);
    } else if j > 0 {
      BitOr(a / 2, b / 2, j - 1);
    }
  }

  lemma {:induction false} BitShr(a: nat, k: nat, j: nat)
    ensures Bit(Shr(a, k), j) == Bit(a, j + k)
    decreases k
  {
    if k > 0 { BitShr(a / 2, k - 1, j); }
  }

  lemma {:induction false} BitShl(a: nat, k: nat, j: nat)
    ensures Bit(Shl(a, k), j) == (j >= k && Bit(a, j - k))
    decreases k
  {
    if k > 0 && j > 0 { BitShl(a, k - 1, j - 1); }
  }

  lemma {:induction false} BitLow(a: nat, k: nat, j: nat)
    ensures Bit(Low(a, k), j) == (j < k && Bit(a, j))
    decreases k
  {
    if k == 0 {
      BitZero(j);
    } else if j > 0 {
      BitLow(a / 2, k - 1, j - 1);
    }
  }

  lemma {:induction false} BitMask(k: nat, j: nat)
    ensures Bit(Pow2(k) - 1, j) == (j < k)
    decreases k
  {
    if k == 0 {
      BitZero(j);
    } else {
      var p := Pow2(k - 1);
      assert Pow2(k) - 1 == 2 * (p - 1) + 1;
      OddHalf(p - 1);
      if j > 0 { BitMask(k - 1, j - 1); }
    }
  }

  lemma OddHalf(a: nat)
    ensures (2 * a + 1) / 2 == a && (2 * a + 1) % 2 == 1
  {
  }

  /** A number below 2^k has no digit at or above k. */
  lemma {:induction false} BitAbove(a: nat, k: nat, j: nat)
    requires a < Pow2(k) && k <= j
    ensures !Bit(a, j)
    decreases j
  {
    if k == 0 {
      BitZero(j);
    } else {
      BitAbove(a / 2, k - 1, j - 1);
    }
  }

  lemma {:induction false} LowBound(a: nat, k: nat)
    ensures Low(a, k) < Pow2(k)
    decreases k
  {
    if k > 0 { LowBound(a / 2, k - 1); }
  }

  /** A number whose digits all lie below k is below 2^k. */
  lemma {:induction false} BitsBound(a: nat, k: nat)
    requires forall j: nat :: k <= j ==> !Bit(a, j)
    ensures a < Pow2(k)
  {
    forall j: nat ensures Bit(a, j) == Bit(Low(a, k), j) {
      BitLow(a, k, j);
    }
    SameBits(a, Low(a, k));
    LowBound(a, k);
  }

  lemma {:induction false} LowShr(a: nat, k: nat)
    ensures Low(a, k) == a % Pow2(k) && Shr(a, k) == a / Pow2(k)
    decreases k
  {
    if k > 0 {
      LowShr(a / 2, k - 1);
      HalfOf(a, Pow2(k - 1));
    }
  }

  /** Division by `2 * p` through division of the half. */
  lemma HalfOf(a: nat, p: nat)
    requires p > 0
    ensures a / (2 * p) == a / 2 / p && a % (2 * p) == 2 * (a / 2 % p) + a % 2
  {
    var h := a / 2;
    var q, r := h / p, h % p;
    DoubleProduct(q, p);
    DivModUnique(a, 2 * p, q, 2 * r + a % 2);
  }

  lemma DoubleProduct(q: nat, p: nat)
    ensures q * (2 * p) == 2 * (q * p)
  {
  }

  lemma MulGap(q: nat, p: nat, d: nat)
    ensures q < p ==> q * d + d <= p * d
  {
    if q < p { assert q * d + d == (q + 1) * d; }
  }

  lemma DivModUnique(a: nat, d: nat, q: nat, r: nat)
    requires a == q * d + r && r < d
    ensures a / d == q && a % d == r
  {
    var q', r' := a / d, a % d;
    assert a == q' * d + r';
    MulGap(q, q', d);
    MulGap(q', q, d);
  }

  lemma {:induction false} ShlIsMul(a: nat, k: nat)
    ensures Shl(a, k) == a * Pow2(k)
    decreases k
  {
    if k > 0 { ShlIsMul(a, k - 1); }
  }

  /** Adding a number shifted past the top of `a` puts the digits side by side. */
  lemma {:induction false} BitJoin(a: nat, b: nat, k: nat, j: nat)
    requires a < Pow2(k)
    ensures Bit(a + Shl(b, k), j) == if j < k then Bit(a, j) else Bit(b, j - k)
    decreases k
  {
    if k > 0 {
      assert (a + Shl(b, k)) / 2 == a / 2 + Shl(b, k - 1);
      if j > 0 { BitJoin(a / 2, b, k - 1, j - 1); }
    }
  }

  lemma {:induction false} ShrShr(a: nat, i: nat, j: nat)
    ensures Shr(Shr(a, i), j) == Shr(a, i + j)
    decreases i
  {
    if i > 0 { ShrShr(a / 2, i - 1, j); }
  }

  lemma {:induction false} ShlShl(a: nat, i: nat, j: nat)
    ensures Shl(Shl(a, i), j) == Shl(a, i + j)
    decreases j
  {
    if j > 0 { ShlShl(a, i, j - 1); }
  }

  lemma {:induction false} ShlSum(a: nat, b: nat, k: nat)
    ensures Shl(a + b, k) == Shl(a, k) + Shl(b, k)
    decreases k
  {
    if k > 0 { ShlSum(a, b, k - 1); }
  }

  lemma {:induction false} ShrGrows(a: nat, b: nat, k: nat)
    requires a <= b
    ensures Shr(a, k) <= Shr(b, k)
    decreases k
  {
    if k > 0 { ShrGrows(a / 2, b / 2, k - 1); }
  }

  lemma {:induction false} ShrBound(a: nat, k: nat, m: nat)
    requires a < Pow2(k + m)
    ensures Shr(a, k) < Pow2(m)
    decreases k
  {
    if k > 0 { ShrBound(a / 2, k - 1, m); }
  }

  /** The lowest digit group of a packed number, and the rest. */
  lemma Peel(a: nat, q: nat, w: nat)
    requires a < Pow2(w)
    ensures And(a + Shl(q, w), Pow2(w) - 1) == a && Shr(a + Shl(q, w), w) == q
  {
    hide Bit, And, Shr, Shl, Pow2;
    var x := a + Shl(q, w);
    forall j: nat
      ensures Bit(And(x, Pow2(w) - 1), j) == Bit(a, j)
      ensures Bit(Shr(x, w), j) == Bit(q, j)
    {
      BitAnd(x, Pow2(w) - 1, j);
      BitMask(w, j);
      BitJoin(a, q, w, j);
      BitShr(x, w, j);
      BitJoin(a, q, w, j + w);
      if j >= w { BitAbove(a, w, j); }
    }
    SameBits(And(x, Pow2(w) - 1), a);
    SameBits(Shr(x, w), q);
  }

  lemma JoinBound(a: nat, q: nat, w: nat, m: nat)
    requires a < Pow2(w) && q < Pow2(m)
    ensures a + Shl(q, w) < Pow2(w + m)
  {
    hide Bit, Shl, Pow2;
    var x := a + Shl(q, w);
    forall j: nat | w + m <= j ensures !Bit(x, j) {
      BitJoin(a, q, w, j);
      BitAbove(q, m, j - w);
    }
    BitsBound(x, w + m);
  }

  /** Every number is its low digit group and the rest. */
  lemma {:induction false} Unpeel(x: nat, w: nat)
    ensures And(x, Pow2(w) - 1) < Pow2(w) && And(x, Pow2(w) - 1) + Shl(Shr(x, w), w) == x
  {
    hide Bit, And, Shr, Shl, Pow2;
    var a := And(x, Pow2(w) - 1);
    forall j: nat ensures Bit(a, j) == (j < w && Bit(x, j)) {
      BitAnd(x, Pow2(w) - 1, j);
      BitMask(w, j);
    }
    BitsBound(a, w);
    forall j: nat ensures Bit(a + Shl(Shr(x, w), w), j) == Bit(x, j) {
      BitJoin(a, Shr(x, w), w, j);
      if j >= w { BitShr(x, w, j - w); }
    }
    SameBits(a + Shl(Shr(x, w), w), x);
  }

  /** Adding numbers without a common digit is taking the union of their digits. */
  lemma {:induction false} BitSum(a: nat, b: nat, j: nat)
    requires forall i: nat :: !(Bit(a, i) && Bit(b, i))
    ensures Bit(a + b, j) == (Bit(a, j) || Bit(b, j))
    decreases j
  {
    assert !(Bit(a, 0) && Bit(b, 0));
    assert (a + b) / 2 == a / 2 + b / 2;
    if j > 0 {
      forall i: nat ensures !(Bit(a / 2, i) && Bit(b / 2, i)) {
        assert !(Bit(a, i + 1) && Bit(b, i + 1));
      }
      BitSum(a / 2, b / 2, j - 1);
    }
  }

  lemma {:induction false} BitComplement(a: nat, k: nat, j: nat)
    requires a < Pow2(k)
    ensures Bit(Pow2(k) - 1 - a, j) == (j < k && !Bit(a, j))
    decreases k
  {
    if k == 0 {
      BitZero(j);
    } else {
      assert (Pow2(k) - 1 - a) / 2 == Pow2(k - 1) - 1 - a / 2;
      if j > 0 { BitComplement(a / 2, k - 1, j - 1); }
    }
  }

  lemma Pow2Of64()
    ensures Pow2(64) == TWO64
  {
    assert Pow2(8) == 0x100;
    assert Pow2(16) == 0x1_0000;
    assert Pow2(24) == 0x100_0000;
    assert Pow2(32) == 0x1_0000_0000;
    assert Pow2(40) == 0x100_0000_0000;
    assert Pow2(48) == 0x1_0000_0000_0000;
    assert Pow2(56) == 0x100_0000_0000_0000;
  }

  lemma BitTruncated(a: nat, j: nat)
    ensures Bit(a % TWO64, j) == (j < 64 && Bit(a, j))
  {
    Pow2Of64();
    hide Pow2, Bit, Low;
    LowShr(a, 64);
    BitLow(a, 64, j);
  }

  lemma BitShlW(a: nat, k: nat, j: nat)
    ensures Bit(ShlW(a, k), j) == (k <= j < 64 && Bit(a, j - k))
  {
    BitTruncated(Shl(a, k), j);
    BitShl(a, k, j);
  }

  lemma BitNotW(a: nat, j: nat)
    ensures Bit(NotW(a), j) == (j < 64 && !Bit(a, j))
  {
    Pow2Of64();
    hide Pow2, Bit;
    BitComplement(a % TWO64, 64, j);
    BitTruncated(a, j);
  }

  /** A 64-bit word has no digit at or above 64. */
  lemma WordBits(a: nat, j: nat)
    requires a < TWO64 && 64 <= j
    ensures !Bit(a, j)
  {
    Pow2Of64();
    hide Pow2, Bit;
    BitAbove(a, 64, j);
  }

  lemma FullWordBits(j: nat)
    ensures Bit(TWO64 - 1, j) == (j < 64)
  {
    Pow2Of64();
    hide Pow2, Bit;
    BitMask(64, j);
  }

  lemma WordFromBits(a: nat)
    requires forall j: nat :: 64 <= j ==> !Bit(a, j)
    ensures a < TWO64
  {
    Pow2Of64();
    hide Pow2, Bit;
    BitsBound(a, 64);
  }

  lemma XorComm(a: nat, b: nat)
    ensures Xor(a, b) == Xor(b, a)
  {
  }

  /** Xoring both ends of an edge with `x` leaves the value of the edge alone. */
  lemma XorBoth(a: nat, b: nat, x: nat)
    ensures Xor(Xor(x, a), Xor(x, b)) == Xor(a, b)
  {
  }

  /** Xor with `b` undoes xor with `b`. */
  lemma XorCancel(a: nat, b: nat)
    ensures Xor(Xor(a, b), b) == a
  {
  }

  // ---- Remainders ----

  lemma Congruent(a: nat, b: nat, m: nat)
    requires m > 0
    ensures a % m == b % m <==> (a - b) % m == 0
  {
    var p, q, r, t := a / m, b / m, a % m, b % m;
    assert a - b == (p - q) * m + (r - t) by { assert a == p * m + r && b == q * m + t; }
    if r == t {
      MultipleOf(p - q, m);
    } else if (a - b) % m == 0 {
      var k := (a - b) / m;
      assert a - b == k * m;
      assert (k - (p - q)) * m == r - t;
      NoSmallMultiple(k - (p - q), m);
    }
  }

  lemma MultipleOf(k: int, m: nat)
    requires m > 0
    ensures k * m % m == 0
  {
    if k >= 0 {
      DivModUnique(k * m, m, k, 0);
    } else {
      var q := k * m / m;
      assert k * m == q * m + k * m % m;
      assert (k - q) * m == k * m % m;
      NoSmallMultiple(k - q, m);
    }
  }

  /** No multiple of `m` other than 0 is smaller than `m`. */
  lemma NoSmallMultiple(k: int, m: nat)
    requires m > 0 && 0 - m < k * m < m
    ensures k == 0
  {
    assert k > 0 ==> k * m >= m;
    assert k < 0 ==> k * m <= 0 - m;
  }

  /** The remainder of C++ differs from the number by a multiple. */
  lemma WholeMultiple(ele: int, rem: int, m: nat)
    requires m > 0 && rem == if ele >= 0 then ele % m else -((-ele) % m)
    ensures (ele - rem) % m == 0
  {
    if ele >= 0 {
      assert ele - rem == ele / m * m;
      MultipleOf(ele / m, m);
    } else {
      assert ele - rem == -((-ele) / m) * m;
      MultipleOf(-((-ele) / m), m);
    }
  }

  lemma Reduced(rem: int, m: nat)
    requires m > 0 && 0 - m < rem < m
    ensures 0 <= (rem + m) % m && (rem - (rem + m) % m) % m == 0
  {
    if rem >= 0 {
      DivModUnique(rem + m, m, 1, rem);
    } else {
      DivModUnique(rem + m, m, 0, rem + m);
      MultipleOf(-1, m);
    }
  }

  lemma SumOfMultiples(a: int, b: int, m: nat)
    requires m > 0 && a % m == 0 && b % m == 0
    ensures (a + b) % m == 0
  {
    assert a == a / m * m && b == b / m * m;
    assert a + b == (a / m + b / m) * m;
    MultipleOf(a / m + b / m, m);
  }
}
