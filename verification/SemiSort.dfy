/** The packed bucket store of the filter: four fingerprints of `fpLen` bits per bucket,
    sorted, their high nibbles coded as one 12-bit number, at an arbitrary bit offset of
    a vector of 64-bit words. */
module SemiSort {
  import opened Bits
  import opened PackedArray

  // ---- A bit field that may straddle two words ----

  /** Reading `len` bits from bit `start`, as `get_bucket` does. */
  function FieldGet(t: seq<nat>, start: nat, len: nat): nat
    requires 0 < len <= 60 && start + len <= WORD * |t|
  {
    var end := start + len - 1;
    var lower, upper := start % WORD, end % WORD;
    if start / WORD == end / WORD then
      Shr(And(t[start / WORD], Shr(TWO64 - 1, 63 - upper)), lower)
    else
      var t1 := Shr(t[start / WORD], lower);
      var t2 := ShlW(And(t[start / WORD + 1], Pow2(upper + 1) - 1), WORD - lower);
      t1 + t2
  }

  /** A word with its bits from `lower` to `upper` replaced. */
  function InnerWord(w: nat, lower: nat, upper: nat, v: nat): nat
    requires lower <= upper < 64
  {
    var keep := (Pow2(lower) - 1) + (TWO64 - 1 - Shr(TWO64 - 1, 63 - upper) % TWO64);
    And(w, keep) + ShlW(And(v, Pow2(upper - lower + 1) - 1), lower)
  }

  /** A word with its bits from `lower` on replaced. */
  function FirstWord(w: nat, lower: nat, v: nat): nat
    requires lower < 64
  {
    And(w, Pow2(lower) - 1) + ShlW(And(v, Pow2(WORD - lower) - 1), lower)
  }

  /** A word with its bits up to `upper` replaced by those of `v` from `k` on. */
  function SecondWord(w: nat, upper: nat, v: nat, k: nat): nat {
    ShlW(Shr(w, upper + 1), upper + 1) + Shr(v, k)
  }

  /** Writing them, as `set_bucket` does. */
  function FieldSet(t: seq<nat>, start: nat, len: nat, v: nat): (r: seq<nat>)
    requires 0 < len <= 60 && start + len <= WORD * |t|
    ensures |r| == |t|
  {
    var end := start + len - 1;
    var lower, upper := start % WORD, end % WORD;
    var q := start / WORD;
    if start / WORD == end / WORD then
      t[q := InnerWord(t[q], lower, upper, v)]
    else
      t[q := FirstWord(t[q], lower, v)][q + 1 := SecondWord(t[q + 1], upper, v, WORD - lower)]
  }

  lemma FullShift(k: nat, j: nat)
    requires k < 64
    ensures Bit(Shr(TWO64 - 1, k), j) == (j < 64 - k)
  {
    hide Bit, Shr;
    BitShr(TWO64 - 1, k, j);
    FullWordBits(j + k);
  }

  lemma FieldGetBits(t: seq<nat>, start: nat, len: nat, j: nat)
    requires 0 < len <= 60 && start + len <= WORD * |t| && Words(t)
    ensures Bit(FieldGet(t, start, len), j) == (j < len && WordBit(t, start + j))
  {
    hide Bit, And, Shr, Pow2, ShlW;
    var end := start + len - 1;
    var lower, upper, q := start % WORD, end % WORD, start / WORD;
    if q == end / WORD {
      var m := Shr(TWO64 - 1, 63 - upper);
      BitShr(And(t[q], m), lower, j);
      BitAnd(t[q], m, j + lower);
      FullShift(63 - upper, j + lower);
    } else {
      var t1 := Shr(t[q], lower);
      var x := And(t[q + 1], Pow2(upper + 1) - 1);
      var t2 := ShlW(x, WORD - lower);
      forall i: nat
        ensures Bit(t1, i) == (i + lower < WORD && Bit(t[q], i + lower))
        ensures Bit(t2, i) == (WORD - lower <= i < len && Bit(t[q + 1], i - (WORD - lower)))
      {
        BitShr(t[q], lower, i);
        if i + lower >= WORD { WordBits(t[q], i + lower); }
        BitShlW(x, WORD - lower, i);
        if i >= WORD - lower {
          BitAnd(t[q + 1], Pow2(upper + 1) - 1, i - (WORD - lower));
          BitMask(upper + 1, i - (WORD - lower));
        }
      }
      BitSum(t1, t2, j);
    }
  }

  lemma KeepMask(lower: nat, upper: nat, j: nat)
    requires lower <= upper < 64
    ensures Bit((Pow2(lower) - 1) + (TWO64 - 1 - Shr(TWO64 - 1, 63 - upper) % TWO64), j)
        == (j < lower || upper < j < 64)
  {
    hide Bit, Shr, Pow2;
    var a, b := Pow2(lower) - 1, NotW(Shr(TWO64 - 1, 63 - upper));
    forall i: nat
      ensures Bit(a, i) == (i < lower)
      ensures Bit(b, i) == (upper < i < 64)
    {
      BitMask(lower, i);
      BitNotW(Shr(TWO64 - 1, 63 - upper), i);
      FullShift(63 - upper, i);
    }
    BitSum(a, b, j);
  }

  lemma InnerWordBits(w: nat, lower: nat, upper: nat, v: nat, j: nat)
    requires lower <= upper < 64 && w < TWO64
    ensures Bit(InnerWord(w, lower, upper, v), j)
         == if lower <= j <= upper then Bit(v, j - lower) else Bit(w, j)
  {
    hide Bit, And, Shr, Pow2, ShlW;
    var keep := (Pow2(lower) - 1) + (TWO64 - 1 - Shr(TWO64 - 1, 63 - upper) % TWO64);
    var a, x := And(w, keep), And(v, Pow2(upper - lower + 1) - 1);
    var b := ShlW(x, lower);
    forall i: nat
      ensures Bit(a, i) == (Bit(w, i) && (i < lower || upper < i))
      ensures Bit(b, i) == (lower <= i <= upper && Bit(v, i - lower))
    {
      BitAnd(w, keep, i);
      KeepMask(lower, upper, i);
      if i >= 64 { WordBits(w, i); }
      BitShlW(x, lower, i);
      if i >= lower {
        BitAnd(v, Pow2(upper - lower + 1) - 1, i - lower);
        BitMask(upper - lower + 1, i - lower);
      }
    }
    BitSum(a, b, j);
  }

  lemma FirstWordBits(w: nat, lower: nat, v: nat, j: nat)
    requires lower < 64
    ensures Bit(FirstWord(w, lower, v), j)
         == if j < lower then Bit(w, j) else j < 64 && Bit(v, j - lower)
  {
    hide Bit, And, Shr, Pow2, ShlW;
    var a, x := And(w, Pow2(lower) - 1), And(v, Pow2(64 - lower) - 1);
    var b := ShlW(x, lower);
    forall i: nat
      ensures Bit(a, i) == (Bit(w, i) && i < lower)
      ensures Bit(b, i) == (lower <= i < 64 && Bit(v, i - lower))
    {
      BitAnd(w, Pow2(lower) - 1, i);
      BitMask(lower, i);
      BitShlW(x, lower, i);
      if i >= lower {
        BitAnd(v, Pow2(64 - lower) - 1, i - lower);
        BitMask(64 - lower, i - lower);
      }
    }
    BitSum(a, b, j);
  }

  lemma SecondWordBits(w: nat, upper: nat, v: nat, k: nat, j: nat)
    requires upper < 64 && w < TWO64 && v < Pow2(k + upper + 1)
    ensures Bit(SecondWord(w, upper, v, k), j)
         == if j <= upper then Bit(v, j + k) else Bit(w, j)
  {
    hide Bit, And, Shr, Pow2, ShlW;
    var a, b := ShlW(Shr(w, upper + 1), upper + 1), Shr(v, k);
    forall i: nat
      ensures Bit(a, i) == (Bit(w, i) && upper < i)
      ensures Bit(b, i) == (i <= upper && Bit(v, i + k))
    {
      BitShlW(Shr(w, upper + 1), upper + 1, i);
      if i > upper { BitShr(w, upper + 1, i - (upper + 1)); }
      if i >= 64 { WordBits(w, i); }
      BitShr(v, k, i);
      if i > upper { BitAbove(v, k + upper + 1, i + k); }
    }
    BitSum(a, b, j);
  }

  /** A field write changes exactly the bits of the field. */
  lemma FieldSetBits(t: seq<nat>, start: nat, len: nat, v: nat, i: nat)
    requires 0 < len <= 60 && start + len <= WORD * |t| && Words(t) && v < Pow2(len) && i < WORD * |t|
    ensures WordBit(FieldSet(t, start, len, v), i)
         == if start <= i < start + len then Bit(v, i - start) else WordBit(t, i)
  {
    hide Bit, Pow2, InnerWord, FirstWord, SecondWord;
    FieldSpan(start, len, |t|);
    var lower, upper, q := start % WORD, (start + len - 1) % WORD, start / WORD;
    if q == (start + len - 1) / WORD {
      if i / WORD == q { InnerWordBits(t[q], lower, upper, v, i % WORD); }
    } else {
      if i / WORD == q { FirstWordBits(t[q], lower, v, i % WORD); }
      if i / WORD == q + 1 { SecondWordBits(t[q + 1], upper, v, WORD - lower, i % WORD); }
    }
  }

  lemma FieldSetKeepsWords(t: seq<nat>, start: nat, len: nat, v: nat)
    requires 0 < len <= 60 && start + len <= WORD * |t| && Words(t) && v < Pow2(len)
    ensures Words(FieldSet(t, start, len, v))
  {
    hide Pow2, Words, InnerWord, FirstWord, SecondWord;
    FieldSpan(start, len, |t|);
    var lower, upper, q := start % WORD, (start + len - 1) % WORD, start / WORD;
    if q == (start + len - 1) / WORD {
      WordUpdated(t, q, InnerWord(t[q], lower, upper, v));
      InnerWordBound(t[q], lower, upper, v);
    } else {
      var first, second := FirstWord(t[q], lower, v), SecondWord(t[q + 1], upper, v, WORD - lower);
      WordUpdated(t, q, first);
      WordUpdated(t, q + 1, second);
      FirstWordBound(t[q], lower, v);
      SecondWordBound(t[q + 1], upper, v, WORD - lower);
      WordUpdated(t[q := first], q + 1, second);
    }
  }

  lemma WordUpdated(t: seq<nat>, q: nat, w: nat)
    requires Words(t) && q < |t|
    ensures t[q] < TWO64 && (w < TWO64 ==> Words(t[q := w]))
  {
  }

  /** The ends of a field that lies within a word, or straddles two. */
  lemma FieldSpan(start: nat, len: nat, words: nat)
    requires 0 < len <= 60 && start + len <= WORD * words
    ensures start / WORD < words
    ensures if start / WORD == (start + len - 1) / WORD then start % WORD <= (start + len - 1) % WORD
            else (start + len - 1) / WORD == start / WORD + 1 < words
                 && len == WORD - start % WORD + (start + len - 1) % WORD + 1
  {
  }

  lemma InnerWordBound(w: nat, lower: nat, upper: nat, v: nat)
    requires lower <= upper < 64 && w < TWO64
    ensures InnerWord(w, lower, upper, v) < TWO64
  {
    hide Bit, InnerWord;
    var r := InnerWord(w, lower, upper, v);
    forall j: nat | 64 <= j ensures !Bit(r, j) {
      WordBits(w, j);
      InnerWordBits(w, lower, upper, v, j);
    }
    WordFromBits(r);
  }

  lemma FirstWordBound(w: nat, lower: nat, v: nat)
    requires lower < 64
    ensures FirstWord(w, lower, v) < TWO64
  {
    hide Bit, FirstWord;
    var r := FirstWord(w, lower, v);
    forall j: nat | 64 <= j ensures !Bit(r, j) {
      FirstWordBits(w, lower, v, j);
    }
    WordFromBits(r);
  }

  lemma SecondWordBound(w: nat, upper: nat, v: nat, k: nat)
    requires upper < 64 && w < TWO64 && v < Pow2(k + upper + 1)
    ensures SecondWord(w, upper, v, k) < TWO64
  {
    hide Bit, SecondWord, Pow2;
    var r := SecondWord(w, upper, v, k);
    forall j: nat | 64 <= j ensures !Bit(r, j) {
      SecondWordBits(w, upper, v, k, j);
      WordBits(w, j);
    }
    WordFromBits(r);
  }

  /** Read after write, the same field and a disjoint one. */
  lemma FieldLaws(t: seq<nat>, start: nat, len: nat, v: nat, other: nat)
    requires 0 < len <= 60 && start + len <= WORD * |t| && other + len <= WORD * |t| && Words(t) && v < Pow2(len)
    requires other + len <= start || start + len <= other || other == start
    ensures FieldGet(FieldSet(t, start, len, v), other, len) == if other == start then v else FieldGet(t, other, len)
  {
    hide Bit, Pow2, FieldGet, FieldSet, WordBit, Words;
    FieldSetKeepsWords(t, start, len, v);
    var t' := FieldSet(t, start, len, v);
    var l := FieldGet(t', other, len);
    var r := if other == start then v else FieldGet(t, other, len);
    forall j: nat ensures Bit(l, j) == Bit(r, j) {
      FieldGetBits(t', other, len, j);
      FieldGetBits(t, other, len, j);
      if j < len {
        FieldSetBits(t, start, len, v, other + j);
      } else if other == start {
        BitAbove(v, len, j);
      }
    }
    SameBits(l, r);
  }

  // ---- The code of the high nibbles ----

  const TABLE := 0x1_0000

  /** Four nibbles in one 16-bit number. */
  function Plain(i: nat, j: nat, k: nat, l: nat): nat {
    i * 4096 + j * 256 + k * 16 + l
  }

  predicate Descending(i: nat, j: nat, k: nat, l: nat) {
    l <= k <= j <= i < 16
  }

  /** Lexicographically before. */
  predicate Before4(a: nat, b: nat, c: nat, d: nat, i: nat, j: nat, k: nat, l: nat) {
    a < i || (a == i && (b < j || (b == j && (c < k || (c == k && d < l)))))
  }

  /** The tables translate one tuple back and forth, with a code below `index`. */
  ghost predicate Coded(encode: seq<nat>, decode: seq<nat>, index: nat, a: nat, b: nat, c: nat, d: nat)
    requires |encode| == |decode| == TABLE && index <= TABLE && Descending(a, b, c, d)
  {
    var e := encode[Plain(a, b, c, d)];
    e == CodeOf(a, b, c, d) && e < index && decode[e] == Plain(a, b, c, d)
  }

  /** The codes are given out in lexicographic order. */
  function CodeOf(i: nat, j: nat, k: nat, l: nat): nat {
    Quads(i) + Triples(j) + Pairs(k) + l
  }

  predicate IsDescending(p: nat) {
    var q, r := p / 16, p / 16 / 16;
    Descending(r / 16, r % 16, q % 16, p % 16)
  }

  function NibbleCode(p: nat): nat {
    var q, r := p / 16, p / 16 / 16;
    CodeOf(r / 16, r % 16, q % 16, p % 16)
  }

  /** Apart from the codes given out so far, all below `bound`, the tables are zero. */
  ghost predicate NothingElse(encode: seq<nat>, decode: seq<nat>, index: nat, bound: nat) {
    && |encode| == |decode| == TABLE && index <= TABLE
    && (forall e :: 0 <= e < index ==>
        decode[e] < bound && IsDescending(decode[e]) && decode[e] < TABLE && encode[decode[e]] == e)
    && (forall e :: index <= e < TABLE ==> decode[e] == 0)
    && (forall p :: 0 <= p < TABLE && encode[p] != 0 ==> encode[p] < index && decode[encode[p]] == p)
  }

  lemma NothingElseNext(encode: seq<nat>, decode: seq<nat>, index: nat, p: nat)
    requires NothingElse(encode, decode, index, p) && p < TABLE && IsDescending(p) && index < TABLE
    ensures NothingElse(encode[p := index], decode[index := p], index + 1, p + 1)
  {
    hide IsDescending;
  }

  lemma PlainDescending(i: nat, j: nat, k: nat, l: nat)
    requires Descending(i, j, k, l)
    ensures Plain(i, j, k, l) < TABLE && IsDescending(Plain(i, j, k, l))
  {
    var r := i * 16 + j;
    var q := r * 16 + k;
    assert Plain(i, j, k, l) == q * 16 + l;
    DivModUnique(q * 16 + l, 16, q, l);
    DivModUnique(r * 16 + k, 16, r, k);
    DivModUnique(i * 16 + j, 16, i, j);
  }

  lemma NothingElseAbove(encode: seq<nat>, decode: seq<nat>, index: nat, bound: nat, bound': nat)
    requires NothingElse(encode, decode, index, bound) && bound <= bound'
    ensures NothingElse(encode, decode, index, bound')
  {
    hide IsDescending;
  }

  /** What `init` makes of the tables: there is only one such pair. */
  ghost predicate Tables(encode: seq<nat>, decode: seq<nat>) {
    TablesInverse(encode, decode) && NothingElse(encode, decode, 3876, TABLE)
  }

  lemma TablesUnique(encode: seq<nat>, decode: seq<nat>, encode': seq<nat>, decode': seq<nat>)
    requires Tables(encode, decode) && Tables(encode', decode')
    ensures encode == encode' && decode == decode'
  {
    forall p | 0 <= p < TABLE ensures encode[p] == encode'[p] {
      SameCode(encode, decode, encode', decode', p);
    }
    forall e | 0 <= e < TABLE ensures decode[e] == decode'[e] {
      if e < 3876 { SameCode(encode, decode, encode', decode', decode[e]); DecodedAt(encode', decode', decode[e]); }
    }
  }

  lemma SameCode(encode: seq<nat>, decode: seq<nat>, encode': seq<nat>, decode': seq<nat>, p: nat)
    requires Tables(encode, decode) && Tables(encode', decode') && p < TABLE
    ensures encode[p] == encode'[p]
  {
    if IsDescending(p) {
      DecodedAt(encode, decode, p);
      DecodedAt(encode', decode', p);
    }
  }

  lemma DecodedAt(encode: seq<nat>, decode: seq<nat>, p: nat)
    requires TablesInverse(encode, decode) && p < TABLE && IsDescending(p)
    ensures encode[p] == NibbleCode(p) < TABLE && decode[encode[p]] == p
  {
    var q, r := p / 16, p / 16 / 16;
    var i, j, k, l := r / 16, r % 16, q % 16, p % 16;
    assert Plain(i, j, k, l) == p;
    assert Coded(encode, decode, 3876, i, j, k, l);
  }

  /** All descending tuples before (i, j, k, l) are coded. */
  ghost predicate CodedBefore(encode: seq<nat>, decode: seq<nat>, index: nat, i: nat, j: nat, k: nat, l: nat) {
    && |encode| == |decode| == TABLE && index <= TABLE && (index == 0 ==> i + j + k + l == 0)
    && (index > 0 ==> i + j + k + l > 0 && encode[0] == 0 && decode[0] == 0)
    && forall a, b, c, d :: Descending(a, b, c, d) && Before4(a, b, c, d, i, j, k, l) ==>
        Coded(encode, decode, index, a, b, c, d)
  }

  /** The two tables are inverse on all descending nibble tuples, and codes fit 12 bits. */
  ghost predicate TablesInverse(encode: seq<nat>, decode: seq<nat>) {
    && |encode| == |decode| == TABLE
    && forall a, b, c, d :: Descending(a, b, c, d) ==> Coded(encode, decode, 3876, a, b, c, d)
  }

  /** How many descending pairs, triples, quadruples start below `n`. */
  function Pairs(n: nat): nat {
    if n == 0 then 0 else Pairs(n - 1) + n
  }

  function Triples(n: nat): nat {
    if n == 0 then 0 else Triples(n - 1) + Pairs(n)
  }

  function Quads(n: nat): nat {
    if n == 0 then 0 else Quads(n - 1) + Triples(n)
  }

  lemma {:induction false} CountsGrow(m: nat, n: nat)
    requires m <= n
    ensures Pairs(m) <= Pairs(n) && Triples(m) <= Triples(n) && Quads(m) <= Quads(n)
    decreases n
  {
    if m < n { CountsGrow(m, n - 1); }
  }

  lemma FourOn(n: nat, m: nat)
    requires m == n + 4
    ensures Pairs(m) == Pairs(n) + 4 * n + 10
    ensures Triples(m) == Triples(n) + 4 * Pairs(n) + 10 * n + 20
    ensures Quads(m) == Quads(n) + 4 * Triples(n) + 10 * Pairs(n) + 20 * n + 35
  {
    assert Pairs(n + 3) == Pairs(n) + 3 * n + 6;
    assert Triples(n + 3) == Triples(n) + 3 * Pairs(n) + 6 * n + 10;
  }

  lemma NoCounts()
    ensures Pairs(0) == 0 && Triples(0) == 0 && Quads(0) == 0
  {
  }

  lemma QuadCount()
    ensures Quads(16) == 3876
  {
    hide Quads, Triples, Pairs;
    NoCounts();
    FourOn(0, 4);
    FourOn(4, 8);
    FourOn(8, 12);
    FourOn(12, 16);
  }

  /** The running index never leaves the table. */
  lemma IndexBound(i: nat, j: nat, k: nat, l: nat)
    requires Descending(i, j, k, l)
    ensures CodeOf(i, j, k, l) < 3876
  {
    NextCounts(i, j, k);
    hide Quads, Triples, Pairs;
    QuadCount();
    CountsGrow(k + 1, j + 1);
    CountsGrow(j + 1, i + 1);
    CountsGrow(i + 1, 16);
  }

  lemma NextCounts(i: nat, j: nat, k: nat)
    ensures Pairs(k + 1) == Pairs(k) + k + 1 && Triples(j + 1) == Triples(j) + Pairs(j + 1)
        && Quads(i + 1) == Quads(i) + Triples(i + 1)
  {
  }

  lemma CodeOne(encode: seq<nat>, decode: seq<nat>, index: nat, i: nat, j: nat, k: nat, l: nat)
    requires CodedBefore(encode, decode, index, i, j, k, l) && Descending(i, j, k, l)
        && CodeOf(i, j, k, l) == index < TABLE
    ensures CodedBefore(encode[Plain(i, j, k, l) := index], decode[index := Plain(i, j, k, l)], index + 1, i, j, k,
        l + 1)
  {
    hide CodeOf;
    var p := Plain(i, j, k, l);
    var encode', decode' := encode[p := index], decode[index := p];
    forall a, b, c, d | Descending(a, b, c, d) && Before4(a, b, c, d, i, j, k, l + 1)
      ensures Coded(encode', decode', index + 1, a, b, c, d)
    {
      if Before4(a, b, c, d, i, j, k, l) {
        OlderCode(encode, decode, index, a, b, c, d, i, j, k, l);
      }
    }
  }

  /** A code given out earlier stays. */
  lemma OlderCode(encode: seq<nat>, decode: seq<nat>, index: nat, a: nat, b: nat, c: nat, d: nat, i: nat, j: nat,
      k: nat, l: nat)
    requires CodedBefore(encode, decode, index, i, j, k, l) && Descending(i, j, k, l) && index < TABLE
    requires Descending(a, b, c, d) && Before4(a, b, c, d, i, j, k, l)
    ensures Coded(encode[Plain(i, j, k, l) := index], decode[index := Plain(i, j, k, l)], index + 1, a, b, c, d)
  {
    PlainInjective(a, b, c, d, i, j, k, l);
    assert Coded(encode, decode, index, a, b, c, d);
    hide CodedBefore, CodeOf, Before4;
  }

  lemma PlainInjective(a: nat, b: nat, c: nat, d: nat, i: nat, j: nat, k: nat, l: nat)
    requires Descending(a, b, c, d) && Descending(i, j, k, l) && Before4(a, b, c, d, i, j, k, l)
    ensures Plain(a, b, c, d) < Plain(i, j, k, l)
  {
  }

  /** The table construction is at (i, j, k, l). */
  ghost predicate Building(encode: seq<nat>, decode: seq<nat>, index: nat, i: nat, j: nat, k: nat, l: nat) {
    && CodedBefore(encode, decode, index, i, j, k, l) && NothingElse(encode, decode, index, Plain(i, j, k, l))
    && index == CodeOf(i, j, k, l)
  }

  lemma BuildNext(encode: seq<nat>, decode: seq<nat>, index: nat, i: nat, j: nat, k: nat, l: nat)
    requires Building(encode, decode, index, i, j, k, l) && Descending(i, j, k, l)
    ensures |encode| == |decode| == TABLE && Plain(i, j, k, l) < TABLE && index < TABLE
    ensures Building(encode[Plain(i, j, k, l) := index], decode[index := Plain(i, j, k, l)], index + 1, i, j, k, l + 1)
  {
    hide CodedBefore, NothingElse, Coded, Before4, Quads, Triples, Pairs, IsDescending, Descending;
    IndexBound(i, j, k, l);
    PlainDescending(i, j, k, l);
    CodedSizes(encode, decode, index, i, j, k, l);
    CodeOne(encode, decode, index, i, j, k, l);
    NothingElseNext(encode, decode, index, Plain(i, j, k, l));
  }

  /** A loop variable at its end and the next round of the one before it stand for the same code. */
  lemma CarriedCode(i: nat, j: nat, k: nat)
    requires k <= j <= i < 16
    ensures CodeOf(i, j, k, k + 1) == CodeOf(i, j, k + 1, 0) && Plain(i, j, k, k + 1) <= Plain(i, j, k + 1, 0)
    ensures CodeOf(i, j, j + 1, 0) == CodeOf(i, j + 1, 0, 0) && Plain(i, j, j + 1, 0) <= Plain(i, j + 1, 0, 0)
    ensures CodeOf(i, i + 1, 0, 0) == CodeOf(i + 1, 0, 0, 0) && Plain(i, i + 1, 0, 0) <= Plain(i + 1, 0, 0, 0)
  {
  }

  lemma BuildCarryK(encode: seq<nat>, decode: seq<nat>, index: nat, i: nat, j: nat, k: nat)
    requires i < 16 && j <= i && k <= j
    ensures Building(encode, decode, index, i, j, k, k + 1) ==> Building(encode, decode, index, i, j, k + 1, 0)
  {
    hide CodedBefore, NothingElse, CodeOf, Plain;
    if Building(encode, decode, index, i, j, k, k + 1) {
      CarriedCode(i, j, k);
      Carry(encode, decode, index, i, j, k);
      NothingElseAbove(encode, decode, index, Plain(i, j, k, k + 1), Plain(i, j, k + 1, 0));
    }
  }

  lemma BuildCarryJ(encode: seq<nat>, decode: seq<nat>, index: nat, i: nat, j: nat)
    requires i < 16 && j <= i
    ensures Building(encode, decode, index, i, j, j + 1, 0) ==> Building(encode, decode, index, i, j + 1, 0, 0)
  {
    hide CodedBefore, NothingElse, CodeOf, Plain;
    if Building(encode, decode, index, i, j, j + 1, 0) {
      CarriedCode(i, j, j);
      CarryJ(encode, decode, index, i, j);
      NothingElseAbove(encode, decode, index, Plain(i, j, j + 1, 0), Plain(i, j + 1, 0, 0));
    }
  }

  lemma BuildCarryI(encode: seq<nat>, decode: seq<nat>, index: nat, i: nat)
    requires i < 16
    ensures Building(encode, decode, index, i, i + 1, 0, 0) ==> Building(encode, decode, index, i + 1, 0, 0, 0)
  {
    hide CodedBefore, NothingElse, CodeOf, Plain;
    if Building(encode, decode, index, i, i + 1, 0, 0) {
      CarriedCode(i, i, i);
      CarryI(encode, decode, index, i);
      NothingElseAbove(encode, decode, index, Plain(i, i + 1, 0, 0), Plain(i + 1, 0, 0, 0));
    }
  }

  ghost predicate AllZero(s: seq<nat>) {
    forall p :: 0 <= p < |s| ==> s[p] == 0
  }

  lemma BuildStart(encode: seq<nat>, decode: seq<nat>, z: nat)
    requires |encode| == |decode| == TABLE && z == 0
    requires AllZero(encode) && AllZero(decode)
    ensures Building(encode, decode, z, z, z, z, z)
  {
    hide CodedBefore, NothingElse, AllZero;
    NothingCoded(encode, decode);
    NothingElseYet(encode, decode, z, Plain(z, z, z, z));
  }

  lemma NothingElseYet(encode: seq<nat>, decode: seq<nat>, index: nat, bound: nat)
    requires |encode| == |decode| == TABLE && index == 0
    requires AllZero(encode) && AllZero(decode)
    ensures NothingElse(encode, decode, index, bound)
  {
    hide IsDescending;
  }

  lemma BuildEnd(encode: seq<nat>, decode: seq<nat>, index: nat)
    requires Building(encode, decode, index, 16, 0, 0, 0)
    ensures Tables(encode, decode) && encode[0] == 0 && decode[0] == 0
  {
    hide CodedBefore, TablesInverse, Coded, IsDescending, Quads, Triples, Pairs;
    QuadCount();
    NoCounts();
    AllCoded(encode, decode);
  }

  /** The two inner loops of the table construction. */
  method InitRow(encode0: seq<nat>, decode0: seq<nat>, index0: nat, i: nat, j: nat)
    returns (encode: seq<nat>, decode: seq<nat>, index: nat)
    requires j <= i < 16 && Building(encode0, decode0, index0, i, j, 0, 0)
    ensures Building(encode, decode, index, i, j + 1, 0, 0)
  {
    hide Building;
    encode, decode, index := encode0, decode0, index0;
    for k := 0 to if j == 0 then 1 else j + 1
      invariant Building(encode, decode, index, i, j, k, 0)
    {
      for l := 0 to if k == 0 then 1 else k + 1
        invariant Building(encode, decode, index, i, j, k, l)
      {
        BuildNext(encode, decode, index, i, j, k, l);
        var plainBit := Plain(i, j, k, l);
        encode := encode[plainBit := index];
        decode := decode[index := plainBit];
        index := index + 1;
      }
      BuildCarryK(encode, decode, index, i, j, k);
    }
    BuildCarryJ(encode, decode, index, i, j);
  }

  /** The table construction of `init`, on zeroed tables. */
  method InitTables() returns (encode: seq<nat>, decode: seq<nat>)
    ensures Tables(encode, decode) && encode[0] == 0 && decode[0] == 0
  {
    hide Building, Tables;
    encode, decode := seq(TABLE, _ => 0), seq(TABLE, _ => 0);
    var index := 0;
    BuildStart(encode, decode, 0);
    for i := 0 to 16
      invariant Building(encode, decode, index, i, 0, 0, 0)
    {
      for j := 0 to if i == 0 then 1 else i + 1
        invariant Building(encode, decode, index, i, j, 0, 0)
      {
        encode, decode, index := InitRow(encode, decode, index, i, j);
      }
      BuildCarryI(encode, decode, index, i);
    }
    BuildEnd(encode, decode, index);
  }

  lemma NothingCoded(encode: seq<nat>, decode: seq<nat>)
    requires |encode| == |decode| == TABLE
    ensures CodedBefore(encode, decode, 0, 0, 0, 0, 0)
  {
  }

  lemma CodedSizes(encode: seq<nat>, decode: seq<nat>, index: nat, i: nat, j: nat, k: nat, l: nat)
    requires CodedBefore(encode, decode, index, i, j, k, l)
    ensures |encode| == |decode| == TABLE
  {
  }

  lemma Carry(encode: seq<nat>, decode: seq<nat>, index: nat, i: nat, j: nat, k: nat)
    requires CodedBefore(encode, decode, index, i, j, k, k + 1)
    ensures CodedBefore(encode, decode, index, i, j, k + 1, 0)
  {
    hide Coded;
  }

  lemma CarryJ(encode: seq<nat>, decode: seq<nat>, index: nat, i: nat, j: nat)
    requires CodedBefore(encode, decode, index, i, j, j + 1, 0)
    ensures CodedBefore(encode, decode, index, i, j + 1, 0, 0)
  {
    hide Coded;
  }

  lemma CarryI(encode: seq<nat>, decode: seq<nat>, index: nat, i: nat)
    requires CodedBefore(encode, decode, index, i, i + 1, 0, 0)
    ensures CodedBefore(encode, decode, index, i + 1, 0, 0, 0)
  {
    hide Coded;
  }

  lemma AllCoded(encode: seq<nat>, decode: seq<nat>)
    requires CodedBefore(encode, decode, 3876, 16, 0, 0, 0)
    ensures TablesInverse(encode, decode) && encode[0] == 0 && decode[0] == 0
  {
    hide Coded;
  }

  // ---- Buckets ----

  /** The sorting network of `set_bucket`, largest first. */
  function SortPair(s: seq<nat>, i: nat, j: nat): (r: seq<nat>)
    requires |s| == 4 && i < 4 && j < 4
    ensures |r| == 4
  {
    if s[i] < s[j] then s[i := s[j]][j := s[i]] else s
  }

  function SortStore(s: seq<nat>): (r: seq<nat>)
    requires |s| == 4
    ensures |r| == 4
  {
    SortPair(SortPair(SortPair(SortPair(SortPair(s, 0, 2), 1, 3), 0, 1), 2, 3), 1, 2)
  }

  lemma NetworkOrders(s: seq<nat>)
    requires |s| == 4
    ensures var r := SortStore(s); r[0] >= r[1] >= r[2] >= r[3]
  {
  }

  /** The network sorts: descending, and the same fingerprints. */
  lemma NetworkSorts(s: seq<nat>)
    requires |s| == 4
    ensures var r := SortStore(s);
            r[0] >= r[1] >= r[2] >= r[3] && multiset(r) == multiset(s)
  {
    hide SortPair;
    NetworkOrders(s);
    var s1 := SortPair(s, 0, 2);
    var s2 := SortPair(s1, 1, 3);
    var s3 := SortPair(s2, 0, 1);
    var s4 := SortPair(s3, 2, 3);
    PairPermutes(s, 0, 2);
    PairPermutes(s1, 1, 3);
    PairPermutes(s2, 0, 1);
    PairPermutes(s3, 2, 3);
    PairPermutes(s4, 1, 2);
  }

  lemma PairPermutes(s: seq<nat>, i: nat, j: nat)
    requires |s| == 4 && i < j < 4
    ensures multiset(SortPair(s, i, j)) == multiset(s)
  {
  }

  function BucketBits(fpLen: nat): nat
    requires 4 <= fpLen
  {
    (fpLen - 1) * 4
  }

  /** The number that stands for a sorted bucket. */
  function EncodeBucket(encode: seq<nat>, fpLen: nat, s: seq<nat>): nat
    requires |encode| == TABLE && 4 <= fpLen && |s| == 4
  {
    var w := fpLen - 4;
    var m := Pow2(w) - 1;
    var lowBit := And(s[3], m) + Shl(And(s[2], m), w) + Shl(And(s[1], m), 2 * w) + Shl(And(s[0], m), 3 * w);
    var highBit := Plain(And(Shr(s[0], w), 15), And(Shr(s[1], w), 15), And(Shr(s[2], w), 15), And(Shr(s[3], w), 15));
    var highEncode := if highBit < TABLE then encode[highBit] else 0;
    Shl(highEncode, 4 * w) + lowBit
  }

  /** Back to the four fingerprints. */
  function DecodeBucket(decode: seq<nat>, fpLen: nat, result: nat): (s: seq<nat>)
    requires |decode| == TABLE && 4 <= fpLen && Shr(result, 4 * (fpLen - 4)) < TABLE
    ensures |s| == 4
  {
    var w := fpLen - 4;
    var m := Pow2(w) - 1;
    var d := decode[Shr(result, 4 * w)];
    [And(Shr(result, 3 * w), m) + Shl(And(Shr(d, 12), 15), w),
     And(Shr(result, 2 * w), m) + Shl(And(Shr(d, 8), 15), w),
     And(Shr(result, w), m) + Shl(And(Shr(d, 4), 15), w),
     And(result, m) + Shl(And(d, 15), w)]
  }

  /** A bucket of `fpLen`-bit fingerprints, largest first. */
  ghost predicate SortedBucket(fpLen: nat, s: seq<nat>) {
    |s| == 4 && s[0] < Pow2(fpLen) && s[0] >= s[1] >= s[2] >= s[3]
  }

  /** Four `w`-bit digit groups with `e` above them. */
  function Fields(w: nat, a: nat, b: nat, c: nat, d: nat, e: nat): nat {
    Shl(e, 4 * w) + (a + Shl(b, w) + Shl(c, 2 * w) + Shl(d, 3 * w))
  }

  /** They come apart again. */
  lemma PeelFour(w: nat, a: nat, b: nat, c: nat, d: nat, e: nat)
    requires a < Pow2(w) && b < Pow2(w) && c < Pow2(w) && d < Pow2(w)
    ensures var x, m := Fields(w, a, b, c, d, e), Pow2(w) - 1;
            && And(x, m) == a && And(Shr(x, w), m) == b && And(Shr(x, 2 * w), m) == c && And(Shr(x, 3 * w), m) == d
            && Shr(x, 4 * w) == e
  {
    hide *;
    NestedShifts(w, a, b, c, d, e);
    PeelNested(w, a, b, c, d, e, 2 * w, 3 * w, 4 * w, Fields(w, a, b, c, d, e));
  }

  lemma PeelNested(w: nat, a: nat, b: nat, c: nat, d: nat, e: nat, v: nat, u: nat, t: nat, x: nat)
    requires a < Pow2(w) && b < Pow2(w) && c < Pow2(w) && d < Pow2(w) && v == w + w && u == v + w && t == u + w
    requires x == a + Shl(b + Shl(c + Shl(d + Shl(e, w), w), w), w)
    ensures var m := Pow2(w) - 1;
            && And(x, m) == a && And(Shr(x, w), m) == b && And(Shr(x, v), m) == c && And(Shr(x, u), m) == d
            && Shr(x, t) == e
  {
    hide And, Shr, Shl, Pow2;
    var x3 := d + Shl(e, w);
    var x2 := c + Shl(x3, w);
    var x1 := b + Shl(x2, w);
    Peel(a, x1, w);
    Peel(b, x2, w);
    Peel(c, x3, w);
    Peel(d, e, w);
    ShrTwice(x, w, v);
    ShrTwice(x, v, u);
    ShrTwice(x, u, t);
  }

  lemma ShrTwice(x: nat, v: nat, u: nat)
    requires v <= u
    ensures Shr(x, u) == Shr(Shr(x, v), u - v)
  {
    hide Shr;
    ShrShr(x, v, u - v);
  }

  /** The digit groups side by side are one shift inside the other. */
  lemma NestedShifts(w: nat, a: nat, b: nat, c: nat, d: nat, e: nat)
    ensures Fields(w, a, b, c, d, e) == a + Shl(b + Shl(c + Shl(d + Shl(e, w), w), w), w)
  {
    hide Shl;
    var v, u, t := 2 * w, 3 * w, 4 * w;
    OneMore(w, d, e, w, v);
    OneMore(w, c, d + Shl(e, w), w, v);
    OneMore(w, b, c + Shl(d + Shl(e, w), w), w, v);
    OneMore(w, d, e, v, u);
    OneMore(w, c, d + Shl(e, w), v, u);
    OneMore(w, d, e, u, t);
  }

  lemma OneMore(w: nat, d: nat, e: nat, v: nat, u: nat)
    requires u == v + w
    ensures Shl(d + Shl(e, w), v) == Shl(d, v) + Shl(e, u)
  {
    hide Shl;
    ShlSum(d, Shl(e, w), v);
    ShlShl(e, w, v);
  }

  lemma ShlByFactor(a: nat, k: nat, p: nat)
    requires Pow2(k) == p
    ensures Shl(a, k) == a * p
  {
    ShlIsMul(a, k);
  }

  lemma PlainAsSum(w: nat, i: nat, j: nat, k: nat, l: nat)
    requires w == 4
    ensures Pow2(w) == 16
    ensures Plain(i, j, k, l) == Fields(w, l, k, j, i, 0)
  {
    assert Pow2(4) == 16 && Pow2(8) == 256 && Pow2(12) == 4096;
    hide Shl, Pow2;
    ShlByFactor(0, 4 * w, Pow2(4 * w));
    ShlByFactor(k, w, 16);
    ShlByFactor(j, 2 * w, 256);
    ShlByFactor(i, 3 * w, 4096);
  }

  lemma NibblesAt(w: nat, i: nat, j: nat, k: nat, l: nat)
    requires w == 4 && i < 16 && j < 16 && k < 16 && l < 16
    ensures var d := Plain(i, j, k, l);
            And(d, 15) == l && And(Shr(d, w), 15) == k && And(Shr(d, 2 * w), 15) == j && And(Shr(d, 3 * w), 15) == i
  {
    hide And, Shr, Shl, Pow2, Plain, Fields;
    PlainAsSum(w, i, j, k, l);
    PeelFour(w, l, k, j, i, 0);
  }

  lemma NibblesOfPlain(i: nat, j: nat, k: nat, l: nat)
    requires i < 16 && j < 16 && k < 16 && l < 16
    ensures var d := Plain(i, j, k, l);
            And(d, 15) == l && And(Shr(d, 4), 15) == k && And(Shr(d, 8), 15) == j && And(Shr(d, 12), 15) == i
  {
    hide And, Shr, Plain;
    NibblesAt(4, i, j, k, l);
  }

  lemma NibbleOf(fp: nat, fpLen: nat)
    requires 4 <= fpLen && fp < Pow2(fpLen)
    ensures var w := fpLen - 4;
            Shr(fp, w) < 16 && And(Shr(fp, w), 15) == Shr(fp, w)
  {
    var w := fpLen - 4;
    ShrBound(fp, w, 4);
    assert Pow2(4) == 16 && Shl(0, 4) == 0;
    hide And, Shr, Shl, Pow2;
    Peel(Shr(fp, w), 0, 4);
  }

  /** The high nibbles of a sorted bucket descend, so the tables know their code. */
  lemma HighNibbles(encode: seq<nat>, decode: seq<nat>, fpLen: nat, s: seq<nat>)
    requires TablesInverse(encode, decode) && 4 <= fpLen && SortedBucket(fpLen, s)
    ensures var w := fpLen - 4;
            && Descending(Shr(s[0], w), Shr(s[1], w), Shr(s[2], w), Shr(s[3], w))
            && Coded(encode, decode, 3876, Shr(s[0], w), Shr(s[1], w), Shr(s[2], w), Shr(s[3], w))
            && forall i :: 0 <= i < 4 ==> And(Shr(s[i], w), 15) == Shr(s[i], w)
  {
    hide And, Shr, Shl, Pow2, Coded;
    var w := fpLen - 4;
    forall i | 0 <= i < 4 ensures Shr(s[i], w) < 16 && And(Shr(s[i], w), 15) == Shr(s[i], w) {
      NibbleOf(s[i], fpLen);
    }
    ShrGrows(s[1], s[0], w);
    ShrGrows(s[2], s[1], w);
    ShrGrows(s[3], s[2], w);
  }

  /** The code of a sorted bucket: the table entry of its high nibbles over the low bits. */
  lemma CodeOfBucket(encode: seq<nat>, decode: seq<nat>, fpLen: nat, s: seq<nat>)
    requires TablesInverse(encode, decode) && 4 <= fpLen && SortedBucket(fpLen, s)
    ensures |encode| == |decode| == TABLE
    ensures var w := fpLen - 4;
            var m := Pow2(w) - 1;
            var p := Plain(Shr(s[0], w), Shr(s[1], w), Shr(s[2], w), Shr(s[3], w));
            && p < TABLE && encode[p] < 3876 && decode[encode[p]] == p
            && EncodeBucket(encode, fpLen, s)
                == Fields(w, And(s[3], m), And(s[2], m), And(s[1], m), And(s[0], m), encode[p])
  {
    hide And, Shr, Shl, Pow2;
    HighNibbles(encode, decode, fpLen, s);
  }

  lemma LowBits(fpLen: nat, s: seq<nat>)
    requires 4 <= fpLen && SortedBucket(fpLen, s)
    ensures var w := fpLen - 4;
            forall i :: 0 <= i < 4 ==>
                And(s[i], Pow2(w) - 1) < Pow2(w) && s[i] == And(s[i], Pow2(w) - 1) + Shl(Shr(s[i], w), w)
                && Shr(s[i], w) < 16
  {
    hide And, Shr, Shl, Pow2;
    forall i | 0 <= i < 4
      ensures And(s[i], Pow2(fpLen - 4) - 1) < Pow2(fpLen - 4)
      ensures s[i] == And(s[i], Pow2(fpLen - 4) - 1) + Shl(Shr(s[i], fpLen - 4), fpLen - 4) && Shr(s[i], fpLen - 4) < 16
    {
      Unpeel(s[i], fpLen - 4);
      NibbleOf(s[i], fpLen);
    }
  }

  /** Decoding undoes encoding on every sorted bucket. */
  lemma DecodeEncode(encode: seq<nat>, decode: seq<nat>, fpLen: nat, s: seq<nat>)
    requires TablesInverse(encode, decode) && 4 <= fpLen && SortedBucket(fpLen, s)
    ensures |decode| == TABLE
    ensures var x := EncodeBucket(encode, fpLen, s);
            Shr(x, 4 * (fpLen - 4)) < TABLE && DecodeBucket(decode, fpLen, x) == s
  {
    hide And, Shr, Shl, Pow2, EncodeBucket, TablesInverse, Plain, Fields;
    var w := fpLen - 4;
    var m := Pow2(w) - 1;
    CodeOfBucket(encode, decode, fpLen, s);
    LowBits(fpLen, s);
    var a, b, c, d := Shr(s[0], w), Shr(s[1], w), Shr(s[2], w), Shr(s[3], w);
    NibblesOfPlain(a, b, c, d);
    PeelFour(w, And(s[3], m), And(s[2], m), And(s[1], m), And(s[0], m), encode[Plain(a, b, c, d)]);
  }

  lemma FourBound(w: nat, a: nat, b: nat, c: nat, d: nat, e: nat)
    requires a < Pow2(w) && b < Pow2(w) && c < Pow2(w) && d < Pow2(w) && e < Pow2(12)
    ensures Fields(w, a, b, c, d, e) < Pow2(4 * w + 12)
  {
    hide *;
    NestedShifts(w, a, b, c, d, e);
    NestedBound(w, a, b, c, d, e, 12, 4 * w + 12);
  }

  lemma NestedBound(w: nat, a: nat, b: nat, c: nat, d: nat, e: nat, m: nat, m': nat)
    requires a < Pow2(w) && b < Pow2(w) && c < Pow2(w) && d < Pow2(w) && e < Pow2(m) && m' == m + w + w + w + w
    ensures a + Shl(b + Shl(c + Shl(d + Shl(e, w), w), w), w) < Pow2(m')
  {
    hide Shl, Pow2;
    var x3 := d + Shl(e, w);
    var x2 := c + Shl(x3, w);
    BoundOneMore(w, d, e, m, m + w);
    BoundOneMore(w, c, x3, m + w, m + w + w);
    BoundOneMore(w, b, x2, m + w + w, m + w + w + w);
    BoundOneMore(w, a, b + Shl(x2, w), m + w + w + w, m');
  }

  lemma BoundOneMore(w: nat, a: nat, q: nat, m: nat, m': nat)
    requires a < Pow2(w) && q < Pow2(m) && m' == w + m
    ensures a + Shl(q, w) < Pow2(m')
  {
    hide Shl, Pow2;
    JoinBound(a, q, w, m);
  }

  /** The code of a sorted bucket fits its field. */
  lemma EncodeFits(encode: seq<nat>, decode: seq<nat>, fpLen: nat, s: seq<nat>)
    requires TablesInverse(encode, decode) && 4 <= fpLen && SortedBucket(fpLen, s)
    ensures EncodeBucket(encode, fpLen, s) < Pow2(BucketBits(fpLen))
  {
    hide And, Shr, Shl, Pow2, EncodeBucket, TablesInverse, Plain, Fields;
    var w := fpLen - 4;
    var m := Pow2(w) - 1;
    CodeOfBucket(encode, decode, fpLen, s);
    LowBits(fpLen, s);
    var e := encode[Plain(Shr(s[0], w), Shr(s[1], w), Shr(s[2], w), Shr(s[3], w))];
    CodeBelow(e);
    FourBound(w, And(s[3], m), And(s[2], m), And(s[1], m), And(s[0], m), e);
  }

  lemma CodeBelow(e: nat)
    requires e < 3876
    ensures e < Pow2(12)
  {
  }

  /** Bucket `pos` lies inside the words `t`. */
  predicate BucketFits(t: seq<nat>, fpLen: nat, pos: nat) {
    4 <= fpLen <= 16 && pos * BucketBits(fpLen) + BucketBits(fpLen) <= WORD * |t|
  }

  lemma FieldGetBound(t: seq<nat>, start: nat, len: nat)
    requires 0 < len <= 60 && start + len <= WORD * |t| && Words(t)
    ensures FieldGet(t, start, len) < Pow2(len)
  {
    hide Bit, FieldGet, Pow2, WordBit;
    forall j: nat | len <= j ensures !Bit(FieldGet(t, start, len), j) {
      FieldGetBits(t, start, len, j);
    }
    BitsBound(FieldGet(t, start, len), len);
  }

  lemma CodeInTable(x: nat, fpLen: nat)
    requires 4 <= fpLen && x < Pow2(BucketBits(fpLen))
    ensures Shr(x, 4 * (fpLen - 4)) < TABLE
  {
    ShrBound(x, 4 * (fpLen - 4), 12);
    assert Pow2(12) == 4096;
  }

  /** `get_bucket`: the four fingerprints of a bucket. */
  function GetBucket(t: seq<nat>, decode: seq<nat>, fpLen: nat, pos: nat): (s: seq<nat>)
    requires |decode| == TABLE && Words(t) && BucketFits(t, fpLen, pos)
    ensures |s| == 4
  {
    FieldGetBound(t, pos * BucketBits(fpLen), BucketBits(fpLen));
    CodeInTable(FieldGet(t, pos * BucketBits(fpLen), BucketBits(fpLen)), fpLen);
    DecodeBucket(decode, fpLen, FieldGet(t, pos * BucketBits(fpLen), BucketBits(fpLen)))
  }

  /** `set_bucket`: sort, code, write. */
  function SetBucket(t: seq<nat>, encode: seq<nat>, fpLen: nat, pos: nat, s: seq<nat>): (r: seq<nat>)
    requires |encode| == TABLE && BucketFits(t, fpLen, pos) && |s| == 4
    ensures |r| == |t|
  {
    FieldSet(t, pos * BucketBits(fpLen), BucketBits(fpLen), EncodeBucket(encode, fpLen, SortStore(s)))
  }

  ghost predicate Fingerprints(fpLen: nat, s: seq<nat>) {
    |s| == 4 && forall i :: 0 <= i < 4 ==> s[i] < Pow2(fpLen)
  }

  lemma SortedFits(fpLen: nat, s: seq<nat>)
    requires Fingerprints(fpLen, s)
    ensures SortedBucket(fpLen, SortStore(s))
  {
    hide Pow2;
    NetworkOrders(s);
  }

  /** Reading after writing: the sorted fingerprints in the bucket written, every other
      bucket as it was, whether or not the bucket straddles two words. */
  lemma BucketLaws(t: seq<nat>, encode: seq<nat>, decode: seq<nat>, fpLen: nat, pos: nat, s: seq<nat>, other: nat)
    requires Tables(encode, decode) && Words(t) && |s| == 4 && Fingerprints(fpLen, s)
    requires BucketFits(t, fpLen, pos) && BucketFits(t, fpLen, other)
    ensures var t' := SetBucket(t, encode, fpLen, pos, s);
            && Words(t')
            && GetBucket(t', decode, fpLen, other) == if other == pos then SortStore(s)
                else GetBucket(t, decode, fpLen, other)
  {
    hide FieldGet, FieldSet, Words, Pow2, SortStore, EncodeBucket, DecodeBucket, Fingerprints, TablesInverse, Tables;
    hide Shr;
    TableSizes(encode, decode);
    var bits := BucketBits(fpLen);
    var x := EncodeBucket(encode, fpLen, SortStore(s));
    SortedFits(fpLen, s);
    EncodeFits(encode, decode, fpLen, SortStore(s));
    if pos != other { Spread(bits, pos, other); }
    FieldSetKeepsWords(t, pos * bits, bits, x);
    FieldLaws(t, pos * bits, bits, x, other * bits);
    DecodeEncode(encode, decode, fpLen, SortStore(s));
  }

  lemma TableSizes(encode: seq<nat>, decode: seq<nat>)
    requires Tables(encode, decode)
    ensures |encode| == |decode| == TABLE && TablesInverse(encode, decode)
  {
  }

  /** Zeroed memory holds empty buckets. */
  lemma ZeroBucket(t: seq<nat>, decode: seq<nat>, fpLen: nat, pos: nat)
    requires |decode| == TABLE && decode[0] == 0 && Words(t) && BucketFits(t, fpLen, pos)
    requires forall i :: 0 <= i < |t| ==> t[i] == 0
    ensures GetBucket(t, decode, fpLen, pos) == [0, 0, 0, 0]
  {
    hide FieldGet, Bit, Pow2, Shr, Shl, And;
    ZeroField(t, pos * BucketBits(fpLen), BucketBits(fpLen));
    ZeroOps(fpLen - 4);
  }

  lemma ZeroField(t: seq<nat>, start: nat, len: nat)
    requires Words(t) && 0 < len <= 60 && start + len <= WORD * |t| && forall i :: 0 <= i < |t| ==> t[i] == 0
    ensures FieldGet(t, start, len) == 0
  {
    hide FieldGet, Bit, Words;
    forall j: nat ensures Bit(FieldGet(t, start, len), j) == Bit(0, j) {
      FieldGetBits(t, start, len, j);
      BitZero(j);
      BitZero((start + j) % WORD);
    }
    SameBits(FieldGet(t, start, len), 0);
  }

  lemma {:induction false} ZeroOps(w: nat)
    ensures Shr(0, w) == 0 && Shr(0, 2 * w) == 0 && Shr(0, 3 * w) == 0 && Shr(0, 4 * w) == 0 && Shl(0, w) == 0
    ensures And(0, Pow2(w) - 1) == 0 && And(0, 15) == 0
    ensures Shr(0, 4) == 0 && Shr(0, 8) == 0 && Shr(0, 12) == 0
  {
    hide And, Shr, Shl, Pow2;
    ZeroShr(w);
    ZeroShr(2 * w);
    ZeroShr(3 * w);
    ZeroShr(4 * w);
    ZeroShr(4);
    ZeroShr(8);
    ZeroShr(12);
    ShlIsMul(0, w);
    ZeroAnd(Pow2(w) - 1);
    ZeroAnd(15);
  }

  lemma {:induction false} ZeroShr(k: nat)
    ensures Shr(0, k) == 0
  {
    if k > 0 { ZeroShr(k - 1); }
  }

  lemma {:induction false} ZeroAnd(m: nat)
    ensures And(0, m) == 0
  {
    if m > 0 { ZeroAnd(m / 2); }
  }

  // ---- The layout of tables and buckets ----

  lemma CodesAscend(a: nat, b: nat, c: nat, d: nat, i: nat, j: nat, k: nat, l: nat)
    requires Descending(a, b, c, d) && Descending(i, j, k, l) && Before4(a, b, c, d, i, j, k, l)
    ensures CodeOf(a, b, c, d) < CodeOf(i, j, k, l)
  {
    hide Quads, Triples, Pairs;
    NextCounts(a, b, c);
    NextCounts(b, b, b);
    NextCounts(a, a, a);
    CountsGrow(c, b);
    CountsGrow(b, a);
    if a < i { CountsGrow(a + 1, i); }
    else if b < j { CountsGrow(b + 1, j); }
    else if c < k { CountsGrow(c + 1, k); }
  }

  lemma NibblesOrder(p: nat, p': nat)
    requires p < p'
    ensures var (q, r, q', r') := (p / 16, p / 16 / 16, p' / 16, p' / 16 / 16);
            Before4(r / 16, r % 16, q % 16, p % 16, r' / 16, r' % 16, q' % 16, p' % 16)
  {
  }

  lemma NumbersOrder(p: nat, p': nat)
    requires IsDescending(p) && IsDescending(p') && p < p'
    ensures NibbleCode(p) < NibbleCode(p')
  {
    hide CodeOf;
    NibblesOrder(p, p');
    CodesAscend(p / 16 / 16 / 16, p / 16 / 16 % 16, p / 16 % 16, p % 16,
                p' / 16 / 16 / 16, p' / 16 / 16 % 16, p' / 16 % 16, p' % 16);
  }

  lemma DecodedCode(encode: seq<nat>, decode: seq<nat>, e: nat)
    requires Tables(encode, decode) && e < 3876
    ensures decode[e] < TABLE && IsDescending(decode[e]) && encode[decode[e]] == e == NibbleCode(decode[e])
  {
    hide TablesInverse, IsDescending, NibbleCode;
    DecodedAt(encode, decode, decode[e]);
  }

  /** The codes 0 .. 3875 name the 16-bit numbers with descending nibbles in ascending order. */
  lemma TablesAscend(encode: seq<nat>, decode: seq<nat>, e: nat, e': nat)
    requires Tables(encode, decode) && e < e' < 3876
    ensures decode[e] < decode[e'] < 0x1_0000 && encode[decode[e]] == e && encode[decode[e']] == e'
    ensures decode[e] % 16 <= decode[e] / 16 % 16 <= decode[e] / 16 / 16 % 16 <= decode[e] / 16 / 16 / 16
  {
    DecodedCode(encode, decode, e);
    DecodedCode(encode, decode, e');
    hide Tables, NibbleCode;
    if decode[e'] < decode[e] { NumbersOrder(decode[e'], decode[e]); }
  }

  /** Digits of a group that lies `k` up. */
  lemma GroupDigit(x: nat, y: nat, k: nat, w: nat, m: nat, j: nat)
    requires m == Pow2(w) - 1 && And(Shr(x, k), m) == And(y, m) && j < w
    ensures Bit(x, k + j) == Bit(y, j)
  {
    hide Bit, And, Shr, Pow2;
    BitShr(x, k, j);
    BitAnd(Shr(x, k), m, j);
    BitAnd(y, m, j);
    BitMask(w, j);
  }

  /** The number that stands for a sorted bucket: the low digits of the four fingerprints, the last
      one lowest, and above them the code whose nibbles are their high digits. */
  lemma CodeLayout(encode: seq<nat>, decode: seq<nat>, fpLen: nat, s: seq<nat>, i: nat, j: nat)
    requires TablesInverse(encode, decode) && 4 <= fpLen && SortedBucket(fpLen, s) && i < 4
    ensures |decode| == TABLE
    ensures var (x, w) := (EncodeBucket(encode, fpLen, s), fpLen - 4);
            && (j < w ==> Bit(x, (3 - i) * w + j) == Bit(s[i], j))
            && Shr(x, 4 * w) < 3876
            && (j < 4 ==> Bit(decode[Shr(x, 4 * w)], 4 * (3 - i) + j) == Bit(s[i], w + j))
  {
    hide Bit, And, Shr, Shl, Pow2, EncodeBucket, TablesInverse, Plain, Fields;
    var w := fpLen - 4;
    var m := Pow2(w) - 1;
    CodeOfBucket(encode, decode, fpLen, s);
    LowBits(fpLen, s);
    var a, b, c, d := Shr(s[0], w), Shr(s[1], w), Shr(s[2], w), Shr(s[3], w);
    NibblesOfPlain(a, b, c, d);
    PeelFour(w, And(s[3], m), And(s[2], m), And(s[1], m), And(s[0], m), encode[Plain(a, b, c, d)]);
    var x := EncodeBucket(encode, fpLen, s);
    if j < w {
      ShrNone(x);
      GroupDigit(x, s[i], (3 - i) * w, w, m, j);
    }
    if j < 4 {
      ShrNone(Plain(a, b, c, d));
      assert And(Shr(Plain(a, b, c, d), 4 * (3 - i)), 15) == Shr(s[i], w);
      NibbleDigit(Plain(a, b, c, d), Shr(s[i], w), 4 * (3 - i), j);
      BitShr(s[i], w, j);
    }
  }

  lemma ShrNone(x: nat)
    ensures Shr(x, 0) == x
  {
  }

  lemma NibbleDigit(p: nat, y: nat, k: nat, j: nat)
    requires And(Shr(p, k), 15) == y && j < 4
    ensures Bit(p, k + j) == Bit(y, j)
  {
    assert Pow2(4) == 16;
    hide Bit, And, Shr, Pow2;
    BitShr(p, k, j);
    BitAnd(Shr(p, k), 15, j);
    BitMask(4, j);
  }

  /** From bit `start` on lies the bucket `r`: digit `j` of its slot `i`, and digit `j` of the code
      of the high digits. */
  ghost predicate BucketLaid(t: seq<nat>, start: nat, w: nat, decode: seq<nat>, r: seq<nat>, code: nat, i: nat, j: nat)
    requires |r| == 4 && i < 4 && |decode| == TABLE && code < 3876 && start + 4 * w + 12 <= WORD * |t|
  {
    && (j < w ==> (3 - i) * w + j < 4 * w && WordBit(t, start + (3 - i) * w + j) == Bit(r[i], j))
    && (j < 12 ==> WordBit(t, start + 4 * w + j) == Bit(code, j))
    && (j < 4 ==> Bit(decode[code], 4 * (3 - i) + j) == Bit(r[i], w + j))
  }

  /** Where a bucket lies in memory: `fpLen - 1` bits for each of its slots, sorted fingerprints as
      `CodeLayout` says. */
  lemma BucketLayout(t: seq<nat>, encode: seq<nat>, decode: seq<nat>, fpLen: nat, pos: nat, start: nat, s: seq<nat>,
      i: nat, j: nat) returns (code: nat)
    requires Tables(encode, decode) && Words(t) && |s| == 4 && Fingerprints(fpLen, s) && BucketFits(t, fpLen, pos)
    requires i < 4 && start == pos * ((fpLen - 1) * 4)
    ensures |encode| == |decode| == TABLE && code < 3876
    ensures start + (fpLen - 1) * 4 <= WORD * |t|
    ensures BucketLaid(SetBucket(t, encode, fpLen, pos, s), start, fpLen - 4, decode, SortStore(s), code, i, j)
  {
    hide Bit, FieldSet, Words, Pow2, SortStore, EncodeBucket, Fingerprints, TablesInverse, Shr, WordBit, And;
    TableSizes(encode, decode);
    var bits, w, r := BucketBits(fpLen), fpLen - 4, SortStore(s);
    var x := EncodeBucket(encode, fpLen, r);
    SortedFits(fpLen, s);
    EncodeFits(encode, decode, fpLen, r);
    CodeLayout(encode, decode, fpLen, r, i, j);
    code := Shr(x, 4 * w);
    if j < w {
      GroupWithin(i, j, w);
      FieldSetBits(t, start, bits, x, start + ((3 - i) * w + j));
    }
    if j < 12 {
      FieldSetBits(t, start, bits, x, start + (4 * w + j));
      BitShr(x, 4 * w, j);
    }
  }

  lemma GroupWithin(i: nat, j: nat, w: nat)
    requires i < 4 && j < w
    ensures (3 - i) * w + j < 4 * w
  {
    MulGap(3 - i, 4, w);
  }
}
