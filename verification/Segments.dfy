/** The alternate bucket of a fingerprint in a small filter: rotate by a bias, swap inside
    the segment found from the highest bit in which the position differs from the table
    size, rotate back. */
module Segments {
  import opened Bits

  /** Position of the highest digit of `v`. */
  function Log2(v: nat): nat {
    if v < 2 then 0 else 1 + Log2(v / 2)
  }

  lemma {:induction false} Log2Bits(v: nat, j: nat)
    requires v > 0
    ensures Bit(v, Log2(v)) && (j > Log2(v) ==> !Bit(v, j))
    decreases v
  {
    if v < 2 {
      if j > 0 { BitZero(j - 1); }
    } else {
      Log2Bits(v / 2, if j > 0 then j - 1 else 0);
    }
  }

  lemma {:induction false} Log2Is(v: nat, k: nat)
    requires Bit(v, k) && forall j: nat :: j > k ==> !Bit(v, j)
    ensures v > 0 && Log2(v) == k
    decreases k
  {
    if k == 0 {
      forall j: nat ensures !Bit(v / 2, j) {
        assert !Bit(v, j + 1);
      }
      HalfZero(v);
    } else {
      assert v > 1 by { if v < 2 { BitZero(k - 1); } }
      forall j: nat | j > k - 1 ensures !Bit(v / 2, j) {
        assert !Bit(v, j + 1);
      }
      Log2Is(v / 2, k - 1);
    }
  }

  lemma HalfZero(v: nat)
    requires forall j: nat :: !Bit(v / 2, j)
    ensures v < 2
  {
    forall j: nat ensures Bit(v / 2, j) == Bit(0, j) {
      BitZero(j);
    }
    SameBits(v / 2, 0);
  }

  lemma {:induction false} Log2Range(v: nat)
    requires v > 0
    ensures Pow2(Log2(v)) <= v < Pow2(Log2(v) + 1)
    decreases v
  {
    if v >= 2 { Log2Range(v / 2); }
  }

  // ---- find_highest_bit ----

  /** `MultiplyDeBruijnBitPosition`. */
  function DeBruijn(i: nat): nat
    requires i < 32
  {
    match i
    case 0 => 0 case 1 => 9 case 2 => 1 case 3 => 10 case 4 => 13 case 5 => 21 case 6 => 2 case 7 => 29
    case 8 => 11 case 9 => 14 case 10 => 16 case 11 => 18 case 12 => 22 case 13 => 25 case 14 => 3 case 15 => 30
    case 16 => 8 case 17 => 12 case 18 => 20 case 19 => 28 case 20 => 15 case 21 => 17 case 22 => 24 case 23 => 7
    case 24 => 19 case 25 => 27 case 26 => 23 case 27 => 6 case 28 => 26 case 29 => 5 case 30 => 4 case _ => 31
  }

  function Smear(v: nat, k: nat): nat {
    Or(v, Shr(v, k))
  }

  function MultiplyShift(v: nat): (i: nat)
    ensures i < 32
  {
    v * 0x07C4ACDD % 0x1_0000_0000 / 0x800_0000
  }

  /** The de Bruijn lookup on the smeared number. */
  function FindHighestBit(v: nat): nat {
    DeBruijn(MultiplyShift(Smear(Smear(Smear(Smear(Smear(v, 1), 2), 4), 8), 16)))
  }

  /** The `m` digits from position `k` down are set, none above is. */
  ghost predicate Topped(v: nat, k: nat, m: nat) {
    && (forall j: nat :: j > k ==> !Bit(v, j))
    && (forall j: nat :: j <= k < j + m ==> Bit(v, j))
  }

  lemma SmearDoubles(v: nat, k: nat, m: nat)
    requires Topped(v, k, m) && m > 0
    ensures Topped(Smear(v, m), k, 2 * m)
  {
    hide Bit, Or, Shr;
    forall j: nat
      ensures j > k ==> !Bit(Smear(v, m), j)
      ensures j <= k < j + 2 * m ==> Bit(Smear(v, m), j)
    {
      BitOr(v, Shr(v, m), j);
      BitShr(v, m, j);
    }
  }

  lemma SmearedIsMask(v: nat, k: nat, m: nat)
    requires Topped(v, k, m) && k < m
    ensures v == Pow2(k + 1) - 1
  {
    hide Bit, Pow2;
    forall j: nat ensures Bit(v, j) == Bit(Pow2(k + 1) - 1, j) {
      BitMask(k + 1, j);
    }
    SameBits(v, Pow2(k + 1) - 1);
  }

  /** One product, by its high and low 32-bit halves. */
  lemma Halves(v: nat, high: nat, low: nat, i: nat)
    requires v * 0x07C4ACDD == high * 0x1_0000_0000 + low && low < 0x1_0000_0000
    requires i * 0x800_0000 <= low < (i + 1) * 0x800_0000
    ensures MultiplyShift(v) == i
  {
    DivModUnique(v * 0x07C4ACDD, 0x1_0000_0000, high, low);
    DivModUnique(low, 0x800_0000, i, low - i * 0x800_0000);
  }

  /** The multiplication, evaluated on every mask 2^(k+1) - 1. */
  lemma MaskTableLow()
    ensures MultiplyShift(0x1) == 0 && MultiplyShift(0x3) == 2 && MultiplyShift(0x7) == 6 && MultiplyShift(0xF) == 14
    ensures MultiplyShift(0x1F) == 30 && MultiplyShift(0x3F) == 29 && MultiplyShift(0x7F) == 27
        && MultiplyShift(0xFF) == 23
    ensures MultiplyShift(0x1FF) == 16 && MultiplyShift(0x3FF) == 1 && MultiplyShift(0x7FF) == 3
        && MultiplyShift(0xFFF) == 8
    ensures MultiplyShift(0x1FFF) == 17 && MultiplyShift(0x3FFF) == 4 && MultiplyShift(0x7FFF) == 9
        && MultiplyShift(0xFFFF) == 20
  {
    hide MultiplyShift;
    Halves(0x1, 0, 0x7C4ACDD, 0);
    Halves(0x3, 0, 0x174E0697, 2);
    Halves(0x7, 0, 0x3660BA0B, 6);
    Halves(0xF, 0, 0x748620F3, 14);
    Halves(0x1F, 0, 0xF0D0EEC3, 30);
    Halves(0x3F, 1, 0xE9668A63, 29);
    Halves(0x7F, 3, 0xDA91C1A3, 27);
    Halves(0xFF, 7, 0xBCE83023, 23);
    Halves(0x1FF, 15, 0x81950D23, 16);
    Halves(0x3FF, 31, 0xAEEC723, 1);
    Halves(0x7FF, 62, 0x1DA23B23, 3);
    Halves(0xFFF, 124, 0x43092323, 8);
    Halves(0x1FFF, 248, 0x8DD6F323, 17);
    Halves(0x3FFF, 497, 0x23729323, 4);
    Halves(0x7FFF, 994, 0x4EA9D323, 9);
    Halves(0xFFFF, 1988, 0xA5185323, 20);
  }

  lemma MaskTableHigh()
    ensures MultiplyShift(0x1FFFF) == 10 && MultiplyShift(0x3FFFF) == 21 && MultiplyShift(0x7FFFF) == 11
        && MultiplyShift(0xFFFFF) == 24
    ensures MultiplyShift(0x1FFFFF) == 18 && MultiplyShift(0x3FFFFF) == 5 && MultiplyShift(0x7FFFFF) == 12
        && MultiplyShift(0xFFFFFF) == 26
    ensures MultiplyShift(0x1FFFFFF) == 22 && MultiplyShift(0x3FFFFFF) == 13 && MultiplyShift(0x7FFFFFF) == 28
        && MultiplyShift(0xFFFFFFF) == 25
    ensures MultiplyShift(0x1FFFFFFF) == 19 && MultiplyShift(0x3FFFFFFF) == 7 && MultiplyShift(0x7FFFFFFF) == 15
        && MultiplyShift(0xFFFFFFFF) == 31
  {
    hide MultiplyShift;
    Halves(0x1FFFF, 3977, 0x51F55323, 10);
    Halves(0x3FFFF, 7954, 0xABAF5323, 21);
    Halves(0x7FFFF, 15909, 0x5F235323, 11);
    Halves(0xFFFFF, 31818, 0xC60B5323, 24);
    Halves(0x1FFFFF, 63637, 0x93DB5323, 18);
    Halves(0x3FFFFF, 127275, 0x2F7B5323, 5);
    Halves(0x7FFFFF, 254550, 0x66BB5323, 12);
    Halves(0xFFFFFF, 509100, 0xD53B5323, 26);
    Halves(0x1FFFFFF, 1018201, 0xB23B5323, 22);
    Halves(0x3FFFFFF, 2036403, 0x6C3B5323, 13);
    Halves(0x7FFFFFF, 4072806, 0xE03B5323, 28);
    Halves(0xFFFFFFF, 8145613, 0xC83B5323, 25);
    Halves(0x1FFFFFFF, 16291227, 0x983B5323, 19);
    Halves(0x3FFFFFFF, 32582455, 0x383B5323, 7);
    Halves(0x7FFFFFFF, 65164910, 0x783B5323, 15);
    Halves(0xFFFFFFFF, 130329820, 0xF83B5323, 31);
  }

  lemma PowersLow()
    ensures Pow2(1) == 0x2 && Pow2(2) == 0x4 && Pow2(3) == 0x8 && Pow2(4) == 0x10 && Pow2(5) == 0x20 && Pow2(6) == 0x40
        && Pow2(7) == 0x80 && Pow2(8) == 0x100 && Pow2(9) == 0x200 && Pow2(10) == 0x400 && Pow2(11) == 0x800
        && Pow2(12) == 0x1000 && Pow2(13) == 0x2000 && Pow2(14) == 0x4000 && Pow2(15) == 0x8000 && Pow2(16) == 0x10000
  {
  }

  lemma PowersHigh()
    ensures Pow2(17) == 0x20000 && Pow2(18) == 0x40000 && Pow2(19) == 0x80000 && Pow2(20) == 0x100000
        && Pow2(21) == 0x200000 && Pow2(22) == 0x400000 && Pow2(23) == 0x800000 && Pow2(24) == 0x1000000
        && Pow2(25) == 0x2000000 && Pow2(26) == 0x4000000 && Pow2(27) == 0x8000000 && Pow2(28) == 0x10000000
        && Pow2(29) == 0x20000000 && Pow2(30) == 0x40000000 && Pow2(31) == 0x80000000 && Pow2(32) == 0x100000000
  {
    PowersLow();
  }

  lemma MaskTable(k: nat)
    requires k < 32
    ensures DeBruijn(MultiplyShift(Pow2(k + 1) - 1)) == k
  {
    hide DeBruijn, Pow2, MultiplyShift;
    if k < 16 { MasksLow(k); } else { MasksHigh(k); }
  }

  lemma MasksLow(k: nat)
    requires k < 16
    ensures DeBruijn(MultiplyShift(Pow2(k + 1) - 1)) == k
  {
    hide Pow2, MultiplyShift;
    MaskTableLow();
    PowersLow();
  }

  lemma MasksHigh(k: nat)
    requires 16 <= k < 32
    ensures DeBruijn(MultiplyShift(Pow2(k + 1) - 1)) == k
  {
    hide Pow2, MultiplyShift;
    MaskTableHigh();
    PowersHigh();
  }

  /** `find_highest_bit` is the base-2 logarithm of every positive 32-bit number. */
  lemma FindHighestBitIsLog2(v: nat)
    requires 0 < v < 0x1_0000_0000
    ensures FindHighestBit(v) == Log2(v)
  {
    var k := Log2(v);
    forall j: nat ensures j > k ==> !Bit(v, j) ensures j == k ==> Bit(v, j) {
      Log2Bits(v, j);
    }
    assert k < 32 by { Below32(v); }
    hide Bit, Pow2, Log2, Smear, Topped, MultiplyShift, DeBruijn;
    assert Topped(v, k, 1);
    SmearDoubles(v, k, 1);
    var v1 := Smear(v, 1);
    SmearDoubles(v1, k, 2);
    var v2 := Smear(v1, 2);
    SmearDoubles(v2, k, 4);
    var v3 := Smear(v2, 4);
    SmearDoubles(v3, k, 8);
    var v4 := Smear(v3, 8);
    SmearDoubles(v4, k, 16);
    SmearedIsMask(Smear(v4, 16), k, 32);
    MaskTable(k);
  }

  lemma Below32(v: nat)
    requires 0 < v < 0x1_0000_0000
    ensures Log2(v) < 32
  {
    PowersHigh();
    hide Log2, Pow2;
    Log2Range(v);
    if Log2(v) >= 32 {
      Pow2Grows(32, Log2(v));
    }
  }

  lemma {:induction false} Pow2Grows(i: nat, j: nat)
    requires i <= j
    ensures Pow2(i) <= Pow2(j)
    decreases j
  {
    if i < j { Pow2Grows(i, j - 1); }
  }

  // ---- Segments of the table ----

  /** The order of numbers is decided by their highest different digit. */
  lemma {:induction false} LessByBit(a: nat, b: nat, k: nat)
    requires forall j: nat :: j > k ==> Bit(a, j) == Bit(b, j)
    requires !Bit(a, k) && Bit(b, k)
    ensures a < b
    decreases k
  {
    forall j: nat | j + 1 > k ensures Bit(a / 2, j) == Bit(b / 2, j) {
      assert Bit(a, j + 1) == Bit(b, j + 1);
    }
    if k == 0 {
      SameBits(a / 2, b / 2);
    } else {
      LessByBit(a / 2, b / 2, k - 1);
    }
  }

  /** Below `n`, the segment bit `k` of `q` is a digit that `n` has and `q` lacks. */
  lemma SegmentBit(q: nat, n: nat)
    requires q < n
    ensures Xor(q, n) > 0
    ensures var k := Log2(Xor(q, n));
            && !Bit(q, k) && Bit(n, k)
            && forall j: nat :: j > k ==> Bit(q, j) == Bit(n, j)
  {
    hide Bit, Xor, Log2;
    var x := Xor(q, n);
    forall j: nat ensures Bit(x, j) == (Bit(q, j) != Bit(n, j)) {
      BitXor(q, n, j);
    }
    if x == 0 {
      forall j: nat ensures Bit(q, j) == Bit(n, j) {
        BitZero(j);
      }
      SameBits(q, n);
    }
    var k := Log2(x);
    forall j: nat ensures j > k ==> !Bit(x, j) ensures j == k ==> Bit(x, j) {
      Log2Bits(x, j);
    }
    assert Bit(q, k) != Bit(n, k);
    if Bit(q, k) {
      LessByBit(n, q, k);
    }
  }

  /** Swapping inside the segment: the highest different digit to `n` stays put. */
  lemma SegmentStays(q: nat, n: nat, t: nat)
    requires q < n && 0 < t < Pow2(Log2(Xor(q, n)))
    ensures Xor(q, t) < n && Log2(Xor(Xor(q, t), n)) == Log2(Xor(q, n)) && Xor(q, t) != q && Xor(Xor(q, t), t) == q
  {
    hide Bit, Xor, Log2, Pow2;
    SegmentBit(q, n);
    var k, r := Log2(Xor(q, n)), Xor(q, t);
    forall j: nat
      ensures Bit(r, j) == (Bit(q, j) != Bit(t, j))
      ensures j >= k ==> !Bit(t, j)
    {
      BitXor(q, t, j);
      if j >= k { BitAbove(t, k, j); }
    }
    LessByBit(r, n, k);
    forall j: nat ensures Bit(Xor(r, n), j) == (Bit(r, j) != Bit(n, j)) {
      BitXor(r, n, j);
    }
    Log2Is(Xor(r, n), k);
    XorCancel(q, t);
    XorNot(q, t);
  }

  lemma XorNot(q: nat, t: nat)
    requires t > 0
    ensures Xor(q, t) != q
  {
    if Xor(q, t) == q {
      forall j: nat ensures Bit(t, j) == Bit(0, j) {
        BitXor(q, t, j);
        BitZero(j);
      }
      SameBits(t, 0);
    }
  }

  /** The digits of `delta` inside a segment of length `segmentLength`, at least 1. */
  function Offset(delta: nat, segmentLength: nat): nat
    requires segmentLength > 0
  {
    var t := And(delta, segmentLength - 1);
    if t == 0 then 1 else t
  }

  /** `alternate` for a small filter of `n` buckets. */
  function Alternate(n: nat, max2Power: nat, fpHash: nat, pos: nat): int
    requires max2Power > 0
  {
    var delta := And(fpHash, max2Power - 1);
    var bias := delta;
    var p := if pos + bias >= n then pos + bias - n else pos + bias;
    var segmentLength := ShlW(1, FindHighestBit(Xor(p, n)));
    var t := if segmentLength > 0 then Offset(delta, segmentLength) else 1;
    var ret := Xor(p, t) - bias;
    if ret < 0 then ret + n else ret
  }

  /** What the sizes of a small filter satisfy: `init` makes `n` even, and the power of
      two stays below it. */
  ghost predicate SmallSizes(n: nat, max2Power: nat) {
    && 2 <= n < 1315800 && n % 2 == 0
    && max2Power < n && exists e: nat :: max2Power == Pow2(e)
  }

  lemma DeltaBound(fpHash: nat, max2Power: nat)
    requires exists e: nat :: max2Power == Pow2(e)
    ensures And(fpHash, max2Power - 1) < max2Power
  {
    hide And, Pow2;
    var e: nat :| max2Power == Pow2(e);
    Unpeel(fpHash, e);
  }

  /** The swap that `Alternate` performs on the rotated position. */
  function Swap(n: nat, delta: nat, q: nat): nat {
    Xor(q, Offset(delta, Pow2(Log2(Xor(q, n)))))
  }

  lemma SwapInvolutive(n: nat, delta: nat, q: nat)
    requires q < n && n % 2 == 0
    ensures Swap(n, delta, q) < n && Swap(n, delta, q) != q && Swap(n, delta, Swap(n, delta, q)) == q
  {
    var k := Log2(Xor(q, n));
    SegmentBit(q, n);
    assert k > 0;
    hide Bit, Xor, Log2;
    Unpeel(delta, k);
    assert 0 < Offset(delta, Pow2(k)) < Pow2(k) by {
      assert Pow2(k) >= 2;
    }
    SegmentStays(q, n, Offset(delta, Pow2(k)));
  }

  /** `Alternate` is rotation, swap, rotation back. */
  lemma AlternateForm(n: nat, max2Power: nat, fpHash: nat, pos: nat)
    requires SmallSizes(n, max2Power) && pos < n
    ensures var delta := And(fpHash, max2Power - 1);
            var p := if pos + delta >= n then pos + delta - n else pos + delta;
            && delta < n && p < n
            && Alternate(n, max2Power, fpHash, pos) ==
                 var r := Swap(n, delta, p) - delta; if r < 0 then r + n else r
  {
    hide Bit, Xor, And, Log2, FindHighestBit, Pow2;
    DeltaBound(fpHash, max2Power);
    var delta := And(fpHash, max2Power - 1);
    var p := if pos + delta >= n then pos + delta - n else pos + delta;
    SegmentBit(p, n);
    var x := Xor(p, n);
    XorBelow(p, n);
    FindHighestBitIsLog2(x);
    SmallShift(Log2(x));
  }

  lemma XorBelow(p: nat, n: nat)
    requires p < n < 1315800
    ensures Xor(p, n) < 0x20_0000 && Log2(Xor(p, n)) < 32
  {
    PowersHigh();
    SegmentBit(p, n);
    hide Bit, Xor, Pow2, Log2;
    forall j: nat | 21 <= j ensures !Bit(Xor(p, n), j) {
      BitXor(p, n, j);
      BitAbove(p, 21, j);
      BitAbove(n, 21, j);
    }
    BitsBound(Xor(p, n), 21);
    Below32(Xor(p, n));
  }

  lemma SmallShift(k: nat)
    requires k < 32
    ensures ShlW(1, k) == Pow2(k)
  {
    Pow2Of64();
    hide Pow2, Shl;
    ShlIsMul(1, k);
    Pow2Grows(k, 63);
    assert Pow2(63) < TWO64 by { Pow2Half(); }
  }

  lemma Pow2Half()
    ensures Pow2(64) == 2 * Pow2(63)
  {
  }

  /** The alternate position lies in the table, differs from the position, and leads back:
      the assertion of `lookup`. */
  lemma AlternateInvolutive(n: nat, max2Power: nat, fpHash: nat, pos: nat)
    requires SmallSizes(n, max2Power) && pos < n && max2Power > 0
    ensures var alt := Alternate(n, max2Power, fpHash, pos);
            0 <= alt < n && alt != pos && Alternate(n, max2Power, fpHash, alt) == pos
  {
    hide Alternate, Swap, And, SmallSizes, Log2, Xor, Pow2;
    AlternateForm(n, max2Power, fpHash, pos);
    EvenSize(n, max2Power);
    var delta := And(fpHash, max2Power - 1);
    var p := if pos + delta >= n then pos + delta - n else pos + delta;
    var r := Swap(n, delta, p);
    SwapInvolutive(n, delta, p);
    var alt := if r - delta < 0 then r - delta + n else r - delta;
    assert Alternate(n, max2Power, fpHash, pos) == alt;
    AlternateForm(n, max2Power, fpHash, alt);
    assert (if alt + delta >= n then alt + delta - n else alt + delta) == r;
  }

  lemma EvenSize(n: nat, max2Power: nat)
    requires SmallSizes(n, max2Power)
    ensures n % 2 == 0 && max2Power > 0
  {
  }

  // ---- What the alternate bucket depends on ----

  /** The hash has one of the digits below `k` that also lie below the power of two. */
  ghost predicate HasDigit(fpHash: nat, max2Power: nat, k: nat) {
    exists i: nat :: InSegment(fpHash, max2Power, k, i)
  }

  ghost predicate InSegment(fpHash: nat, max2Power: nat, k: nat, i: nat) {
    i < k && Pow2(i) < max2Power && Bit(fpHash, i)
  }

  /** Digits of the alternate position.  Both positions rotated by the hash modulo the power of
      two; `k` is the highest digit in which the first of them differs from the table size.  They
      differ exactly in the digits below `k` and below the power of two that the hash has, and in
      digit 0 if it has none of them. */
  lemma AlternateDigits(n: nat, max2Power: nat, fpHash: nat, pos: nat, p: nat, q: nat, k: nat)
    requires SmallSizes(n, max2Power) && pos < n && max2Power > 0
    requires p == (pos + fpHash % max2Power) % n && q == (Alternate(n, max2Power, fpHash, pos) + fpHash % max2Power) % n
    requires Bit(p, k) != Bit(n, k) && forall j: nat :: j > k ==> Bit(p, j) == Bit(n, j)
    ensures forall i: nat :: Bit(p, i) != Bit(q, i) <==>
              if HasDigit(fpHash, max2Power, k) then InSegment(fpHash, max2Power, k, i) else i == 0
  {
    hide Alternate, Swap, Offset, And, Bit, Xor, Pow2, Log2, SmallSizes, HasDigit, InSegment;
    RotatedSwap(n, max2Power, fpHash, pos);
    SegmentOf(p, n, k);
    forall i: nat
      ensures Bit(p, i) != Bit(q, i) <==>
                if HasDigit(fpHash, max2Power, k) then InSegment(fpHash, max2Power, k, i) else i == 0
    {
      SwapDigit(n, max2Power, fpHash, p, k, i);
    }
  }

  /** The rotated positions are swapped into each other. */
  lemma RotatedSwap(n: nat, max2Power: nat, fpHash: nat, pos: nat)
    requires SmallSizes(n, max2Power) && pos < n && max2Power > 0
    ensures Alternate(n, max2Power, fpHash, pos) >= 0 && exists e: nat :: max2Power == Pow2(e)
    ensures (Alternate(n, max2Power, fpHash, pos) + fpHash % max2Power) % n
         == Swap(n, And(fpHash, max2Power - 1), (pos + fpHash % max2Power) % n)
  {
    hide Alternate, Swap, And, Bit, Xor, Pow2, Log2, SmallSizes;
    var delta := And(fpHash, max2Power - 1);
    SmallPower(n, max2Power);
    PowerMask(fpHash, max2Power);
    AlternateForm(n, max2Power, fpHash, pos);
    AlternateInvolutive(n, max2Power, fpHash, pos);
    RotatedBy(pos, delta, n);
    SwapInvolutive(n, delta, (pos + delta) % n);
    RotatedBy(Alternate(n, max2Power, fpHash, pos), delta, n);
  }

  lemma SmallPower(n: nat, max2Power: nat)
    requires SmallSizes(n, max2Power)
    ensures max2Power < n && n % 2 == 0 && exists e: nat :: max2Power == Pow2(e)
  {
    hide Pow2;
  }

  lemma RotatedBy(pos: nat, delta: nat, n: nat)
    requires pos < n && delta < n
    ensures (pos + delta) % n == if pos + delta >= n then pos + delta - n else pos + delta
  {
    if pos + delta >= n { DivModUnique(pos + delta, n, 1, pos + delta - n); }
    else { DivModUnique(pos + delta, n, 0, pos + delta); }
  }

  /** A mask of low digits is a remainder. */
  lemma PowerMask(x: nat, power: nat)
    requires exists e: nat :: power == Pow2(e)
    ensures And(x, power - 1) == x % power
  {
    hide And, Shr, Shl, Pow2;
    var e: nat :| power == Pow2(e);
    Unpeel(x, e);
    ShlIsMul(Shr(x, e), e);
    DivModUnique(x, power, Shr(x, e), And(x, power - 1));
  }

  lemma SegmentOf(p: nat, n: nat, k: nat)
    requires Bit(p, k) != Bit(n, k) && forall j: nat :: j > k ==> Bit(p, j) == Bit(n, j)
    ensures Log2(Xor(p, n)) == k
  {
    hide Bit, Xor, Log2;
    forall j: nat ensures Bit(Xor(p, n), j) == (Bit(p, j) != Bit(n, j)) {
      BitXor(p, n, j);
    }
    Log2Is(Xor(p, n), k);
  }

  /** The digits of an offset: those of the hash in the segment, or digit 0. */
  lemma SwapDigit(n: nat, max2Power: nat, fpHash: nat, p: nat, k: nat, i: nat)
    requires exists e: nat :: max2Power == Pow2(e)
    requires Log2(Xor(p, n)) == k
    ensures Bit(p, i) != Bit(Swap(n, And(fpHash, max2Power - 1), p), i) <==>
              if HasDigit(fpHash, max2Power, k) then InSegment(fpHash, max2Power, k, i) else i == 0
  {
    hide And, Bit, Xor, Pow2, Log2;
    var e: nat :| max2Power == Pow2(e);
    var delta := And(fpHash, max2Power - 1);
    var t := And(delta, Pow2(k) - 1);
    forall j: nat ensures Bit(t, j) == InSegment(fpHash, max2Power, k, j) {
      BitAnd(delta, Pow2(k) - 1, j);
      BitAnd(fpHash, max2Power - 1, j);
      BitMask(k, j);
      BitMask(e, j);
      PowerBelow(j, e);
    }
    if t == 0 {
      forall j: nat ensures !InSegment(fpHash, max2Power, k, j) { BitZero(j); }
    } else {
      assert HasDigit(fpHash, max2Power, k) by {
        if forall j: nat :: !Bit(t, j) {
          forall j: nat ensures Bit(t, j) == Bit(0, j) { BitZero(j); }
          SameBits(t, 0);
        }
      }
    }
    BitXor(p, Offset(delta, Pow2(k)), i);
    OneDigit(i);
  }

  lemma OneDigit(i: nat)
    ensures Bit(1, i) <==> i == 0
  {
    if i > 0 { BitZero(i - 1); }
  }

  lemma PowerBelow(i: nat, e: nat)
    ensures Pow2(i) < Pow2(e) <==> i < e
  {
    hide Pow2;
    if i < e { Pow2Grows(i + 1, e); PowerDoubles(i); } else { Pow2Grows(e, i); }
  }

  lemma PowerDoubles(i: nat)
    ensures Pow2(i + 1) == 2 * Pow2(i) && Pow2(i) > 0
  {
  }
}
