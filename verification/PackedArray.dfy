/** The bit-packed cell array both Othello planes keep in `mem`: cell `index` of width
    `vdl` occupies `vdl` consecutive bits of a vector of 64-bit words and may straddle
    two of them.  Also the flip lists that carry changes of the one-bit array. */
module PackedArray {
  import opened Bits

  const WORD := 64
  const WRAP32 := 0x1_0000_0000

  /** Every entry fits a 64-bit word. */
  ghost predicate Words(mem: seq<nat>) {
    forall i :: 0 <= i < |mem| ==> mem[i] < TWO64
  }

  /** Bit `i` of the whole vector. */
  predicate WordBit(mem: seq<nat>, i: nat)
    requires i < WORD * |mem|
  {
    Bit(mem[i / WORD], i % WORD)
  }

  /** First bit of a cell; the product is a 32-bit one. */
  function Start(vdl: nat, index: nat): nat {
    index * vdl % WRAP32
  }

  /** Number of words `memResize` allocates for `cells` cells, in 32-bit arithmetic. */
  function WordsFor(vdl: nat, cells: nat): nat {
    (cells * vdl + WORD - 1) % WRAP32 / WORD
  }

  /** The cell and, when it straddles, its second word lie inside the vector. */
  predicate Fits(mem: seq<nat>, vdl: nat, index: nat) {
    Start(vdl, index) + vdl <= WORD * |mem|
  }

  function MemSet(mem: seq<nat>, vdl: nat, index: nat, value: nat): (r: seq<nat>)
    requires 1 <= vdl <= 60 && Fits(mem, vdl, index)
    ensures |r| == |mem|
  {
    var v := And(value, Pow2(vdl) - 1);
    var start := Start(vdl, index) / WORD;
    var offset := Start(vdl, index) % WORD;
    var left := offset + vdl - WORD;
    var mask := NotW(ShlW(Pow2(vdl) - 1, offset));
    var mem1 := mem[start := Or(And(mem[start], mask), ShlW(v, offset))];
    if left > 0 then
      var mask1 := ShlW(TWO64 - 1, left);
      mem1[start + 1 := Or(And(mem1[start + 1], mask1), Shr(v, vdl - left))]
    else
      mem1
  }

  function MemGet(mem: seq<nat>, vdl: nat, index: nat): nat
    requires 1 <= vdl <= 60 && Fits(mem, vdl, index)
  {
    var start := Start(vdl, index) / WORD;
    var offset := Start(vdl, index) % WORD;
    var left := if offset + vdl - WORD < 0 then 0 else offset + vdl - WORD;
    var result := And(Shr(mem[start], offset), Pow2(vdl - left) - 1);
    if left > 0 then
      Or(result, ShlW(And(mem[start + 1], Pow2(left) - 1), vdl - left))
    else
      result
  }

  lemma MaskedWordBit(w: nat, m: nat, offset: nat, v: nat, j: nat)
    requires j < WORD
    ensures Bit(Or(And(w, NotW(ShlW(m, offset))), ShlW(v, offset)), j)
         == ((Bit(w, j) && !(j >= offset && Bit(m, j - offset))) || (j >= offset && Bit(v, j - offset)))
  {
    hide Bit, And, Or, Shr, ShlW, NotW;
    var s := ShlW(m, offset);
    BitShlW(m, offset, j);
    BitNotW(s, j);
    BitAnd(w, NotW(s), j);
    BitShlW(v, offset, j);
    BitOr(And(w, NotW(s)), ShlW(v, offset), j);
  }

  lemma TailWordBit(w: nat, left: nat, v: nat, k: nat, j: nat)
    requires j < WORD
    ensures Bit(Or(And(w, ShlW(TWO64 - 1, left)), Shr(v, k)), j)
         == ((Bit(w, j) && j >= left) || Bit(v, j + k))
  {
    hide Bit, And, Or, Shr, ShlW, NotW;
    var mask1 := ShlW(TWO64 - 1, left);
    BitShlW(TWO64 - 1, left, j);
    if j >= left { FullWordBits(j - left); }
    BitAnd(w, mask1, j);
    BitShr(v, k, j);
    BitOr(And(w, mask1), Shr(v, k), j);
  }

  /** `memSet` writes the masked value into the bits of its cell and nothing else. */
  lemma MemSetBits(mem: seq<nat>, vdl: nat, index: nat, value: nat, i: nat)
    requires 1 <= vdl <= 60 && Fits(mem, vdl, index) && i < WORD * |mem|
    ensures var p := Start(vdl, index);
            WordBit(MemSet(mem, vdl, index, value), i)
            == if p <= i < p + vdl then Bit(value, i - p) else WordBit(mem, i)
  {
    hide Bit, Xor, And, Or, Shr, Shl, Low, Pow2;
    var p := Start(vdl, index);
    var v := And(value, Pow2(vdl) - 1);
    var start, offset := p / WORD, p % WORD;
    var left := offset + vdl - WORD;
    var j := i % WORD;
    if i / WORD == start {
      MaskedWordBit(mem[start], Pow2(vdl) - 1, offset, v, j);
      if j >= offset {
        BitMask(vdl, j - offset);
        BitAnd(value, Pow2(vdl) - 1, j - offset);
      }
    } else if left > 0 && i / WORD == start + 1 {
      TailWordBit(mem[start + 1], left, v, vdl - left, j);
      BitAnd(value, Pow2(vdl) - 1, j + vdl - left);
      BitMask(vdl, j + vdl - left);
    }
  }

  /** `memGet` reads the bits of its cell. */
  lemma MemGetBits(mem: seq<nat>, vdl: nat, index: nat, j: nat)
    requires 1 <= vdl <= 60 && Fits(mem, vdl, index)
    ensures Bit(MemGet(mem, vdl, index), j) == (j < vdl && WordBit(mem, Start(vdl, index) + j))
  {
    hide Bit, Xor, And, Or, Shr, Shl, Low, Pow2;
    var p := Start(vdl, index);
    var start, offset := p / WORD, p % WORD;
    var left := if offset + vdl - WORD < 0 then 0 else offset + vdl - WORD;
    var low := And(Shr(mem[start], offset), Pow2(vdl - left) - 1);
    BitMask(vdl - left, j);
    BitShr(mem[start], offset, j);
    BitAnd(Shr(mem[start], offset), Pow2(vdl - left) - 1, j);
    if left > 0 {
      var tail := And(mem[start + 1], Pow2(left) - 1);
      var k := vdl - left;
      BitOr(low, ShlW(tail, k), j);
      BitShlW(tail, k, j);
      if j >= k {
        BitMask(left, j - k);
        BitAnd(mem[start + 1], Pow2(left) - 1, j - k);
      }
    }
  }

  /** Read after write: the value truncated to the cell width. */
  lemma GetAfterSet(mem: seq<nat>, vdl: nat, index: nat, value: nat)
    requires 1 <= vdl <= 60 && Fits(mem, vdl, index)
    ensures MemGet(MemSet(mem, vdl, index, value), vdl, index) == Low(value, vdl)
  {
    hide Bit, Xor, And, Or, Shr, Shl, Low, Pow2;
    var mem' := MemSet(mem, vdl, index, value);
    forall j: nat ensures Bit(MemGet(mem', vdl, index), j) == Bit(Low(value, vdl), j) {
      MemGetBits(mem', vdl, index, j);
      BitLow(value, vdl, j);
      if j < vdl { MemSetBits(mem, vdl, index, value, Start(vdl, index) + j); }
    }
    SameBits(MemGet(mem', vdl, index), Low(value, vdl));
  }

  lemma NoWrap(vdl: nat, cells: nat, index: nat)
    requires 1 <= vdl <= 60 && index < cells && cells * vdl + WORD - 1 < WRAP32
    ensures Start(vdl, index) == index * vdl
    ensures Start(vdl, index) + vdl <= WORD * WordsFor(vdl, cells)
  {
    MulGap(index, cells, vdl);
    WholeWords(cells * vdl, index * vdl, vdl);
  }

  lemma WholeWords(total: nat, start: nat, vdl: nat)
    requires start + vdl <= total && total + WORD - 1 < WRAP32 && vdl > 0
    ensures start % WRAP32 == start && start + vdl <= WORD * ((total + WORD - 1) % WRAP32 / WORD)
  {
  }

  /** Writing one cell changes no other cell, for every width and every pair of cells
      of an array sized by `memResize`. */
  lemma SetKeepsOthers(mem: seq<nat>, vdl: nat, cells: nat, index: nat, other: nat, value: nat)
    requires 1 <= vdl <= 60 && cells * vdl + WORD - 1 < WRAP32
    requires index < cells && other < cells && index != other && |mem| == WordsFor(vdl, cells)
    ensures Fits(mem, vdl, index) && Fits(mem, vdl, other)
    ensures MemGet(MemSet(mem, vdl, index, value), vdl, other) == MemGet(mem, vdl, other)
  {
    hide Bit, Xor, And, Or, Shr, Shl, Low, Pow2;
    NoWrap(vdl, cells, index);
    NoWrap(vdl, cells, other);
    Spread(vdl, index, other);
    var mem' := MemSet(mem, vdl, index, value);
    forall j: nat ensures Bit(MemGet(mem', vdl, other), j) == Bit(MemGet(mem, vdl, other), j) {
      MemGetBits(mem', vdl, other, j);
      MemGetBits(mem, vdl, other, j);
      if j < vdl { MemSetBits(mem, vdl, index, value, Start(vdl, other) + j); }
    }
    SameBits(MemGet(mem', vdl, other), MemGet(mem, vdl, other));
  }

  lemma Spread(vdl: nat, i: nat, j: nat)
    requires i != j
    ensures i * vdl + vdl <= j * vdl || j * vdl + vdl <= i * vdl
  {
    MulGap(i, j, vdl);
    MulGap(j, i, vdl);
  }

  /** The allocation covers every cell exactly when the 32-bit size computation does
      not wrap around. */
  lemma AllocationCovers(vdl: nat, cells: nat)
    requires 1 <= vdl <= 60 && 1 <= cells < WRAP32
    ensures (forall index :: 0 <= index < cells ==> Start(vdl, index) + vdl <= WORD * WordsFor(vdl, cells))
       <==> cells * vdl + WORD - 1 < WRAP32
  {
    if cells * vdl + WORD - 1 < WRAP32 {
      forall index | 0 <= index < cells
        ensures Start(vdl, index) + vdl <= WORD * WordsFor(vdl, cells)
      {
        NoWrap(vdl, cells, index);
      }
    } else {
      var index := LastBeforeWrap(vdl, cells);
      assert Start(vdl, index) + vdl > WORD * WordsFor(vdl, cells);
    }
  }

  /** When the size wraps, some cell lies past the allocation: the last one when the cells end
      just short of 2^32, else the one that covers bit 2^32 - 1. */
  lemma LastBeforeWrap(vdl: nat, cells: nat) returns (index: nat)
    requires 1 <= vdl <= 60 && 1 <= cells < WRAP32
    requires cells * vdl + WORD - 1 >= WRAP32
    ensures index < cells && Start(vdl, index) + vdl > WORD * WordsFor(vdl, cells)
  {
    if cells * vdl < WRAP32 {
      index := cells - 1;
      JustShort(vdl, cells);
    } else {
      index := (WRAP32 - 1) / vdl;
      CoversTop(vdl, cells);
    }
  }

  lemma JustShort(vdl: nat, cells: nat)
    requires 1 <= vdl <= 60 && 1 <= cells < WRAP32 && WRAP32 - WORD < cells * vdl < WRAP32
    ensures Start(vdl, cells - 1) + vdl > WORD * WordsFor(vdl, cells)
  {
    assert (cells - 1) * vdl == cells * vdl - vdl;
    assert WordsFor(vdl, cells) == 0;
  }

  lemma CoversTop(vdl: nat, cells: nat)
    requires 1 <= vdl <= 60 && 1 <= cells < WRAP32 <= cells * vdl
    ensures var index := (WRAP32 - 1) / vdl;
            index < cells && Start(vdl, index) + vdl > WORD * WordsFor(vdl, cells)
  {
    var index := (WRAP32 - 1) / vdl;
    TopCell(WRAP32 - 1, vdl, index);
    if index > cells { MulGap(cells, index, vdl); }
    WordsBelowWrap(cells * vdl + WORD - 1);
  }

  lemma TopCell(x: nat, d: nat, q: nat)
    requires d > 0 && q == x / d
    ensures q * d <= x < q * d + d
  {
    assert x == q * d + x % d;
  }

  lemma WordsBelowWrap(n: nat)
    ensures WORD * (n % WRAP32 / WORD) < WRAP32
  {
  }

  // ---- The one-bit array and its flip lists ----

  /** Word and position inside the word of a flip code. */
  predicate CodeFits(mem: seq<nat>, code: nat) {
    code / WORD < |mem|
  }

  function FlipAt(mem: seq<nat>, code: nat): (r: seq<nat>)
    requires CodeFits(mem, code)
    ensures |r| == |mem|
  {
    mem[code / WORD := Xor(mem[code / WORD], ShlW(1, code % WORD))]
  }

  ghost predicate CodesFit(mem: seq<nat>, codes: seq<nat>) {
    forall k :: 0 <= k < |codes| ==> CodeFits(mem, codes[k])
  }

  /** What `mem_value_flipping` leaves behind: the codes are toggled one after the other. */
  ghost function Replay(mem: seq<nat>, codes: seq<nat>): (r: seq<nat>)
    requires CodesFit(mem, codes)
    ensures |r| == |mem|
    decreases |codes|
  {
    if codes == [] then mem
    else
      var last := |codes| - 1;
      FlipAt(Replay(mem, codes[..last]), codes[last])
  }

  lemma FlipAtBits(mem: seq<nat>, code: nat, i: nat)
    requires CodeFits(mem, code) && i < WORD * |mem|
    ensures WordBit(FlipAt(mem, code), i) == (WordBit(mem, i) != (i == code))
  {
    hide Bit, Xor, Shl, Low, Pow2;
    if i / WORD == code / WORD {
      var j, k := i % WORD, code % WORD;
      BitXor(mem[i / WORD], ShlW(1, k), j);
      BitShlW(1, k, j);
      OneBit(j - k);
    }
  }

  lemma OneBit(j: int)
    ensures j >= 0 ==> Bit(1, j) == (j == 0)
  {
    if j > 0 { BitZero(j - 1); }
  }

  lemma FlipKeepsWords(mem: seq<nat>, code: nat)
    requires Words(mem) && CodeFits(mem, code)
    ensures Words(FlipAt(mem, code))
  {
    hide Bit, Xor, Shl, Low, Pow2;
    var w, m := mem[code / WORD], ShlW(1, code % WORD);
    forall j: nat | WORD <= j ensures !Bit(Xor(w, m), j) {
      BitXor(w, m, j);
      WordBits(w, j);
      BitShlW(1, code % WORD, j);
    }
    WordFromBits(Xor(w, m));
  }

  /** Two word vectors with the same bits are the same vector. */
  lemma SameWords(a: seq<nat>, b: seq<nat>)
    requires |a| == |b| && Words(a) && Words(b)
    requires forall i :: 0 <= i < WORD * |a| ==> WordBit(a, i) == WordBit(b, i)
    ensures a == b
  {
    hide Bit, Pow2;
    forall i | 0 <= i < |a| ensures a[i] == b[i] {
      forall j: nat ensures Bit(a[i], j) == Bit(b[i], j) {
        if j < WORD {
          assert WordBit(a, i * WORD + j) == WordBit(b, i * WORD + j);
        } else {
          WordBits(a[i], j);
          WordBits(b[i], j);
        }
      }
      SameBits(a[i], b[i]);
    }
  }

  lemma MemSetKeepsWords(mem: seq<nat>, vdl: nat, index: nat, value: nat)
    requires 1 <= vdl <= 60 && Fits(mem, vdl, index) && Words(mem)
    ensures Words(MemSet(mem, vdl, index, value))
  {
    hide Bit, Xor, And, Or, Shr, Shl, Low, Pow2;
    var r := MemSet(mem, vdl, index, value);
    var v := And(value, Pow2(vdl) - 1);
    var start, offset := Start(vdl, index) / WORD, Start(vdl, index) % WORD;
    var mask := NotW(ShlW(Pow2(vdl) - 1, offset));
    var first := Or(And(mem[start], mask), ShlW(v, offset));
    forall j: nat | WORD <= j ensures !Bit(first, j) {
      BitOr(And(mem[start], mask), ShlW(v, offset), j);
      BitAnd(mem[start], mask, j);
      WordBits(mem[start], j);
      BitShlW(v, offset, j);
    }
    WordFromBits(first);
    var left := offset + vdl - WORD;
    if left > 0 {
      var mask1 := ShlW(TWO64 - 1, left);
      var second := Or(And(mem[start + 1], mask1), Shr(v, vdl - left));
      forall j: nat | WORD <= j ensures !Bit(second, j) {
        BitOr(And(mem[start + 1], mask1), Shr(v, vdl - left), j);
        BitAnd(mem[start + 1], mask1, j);
        WordBits(mem[start + 1], j);
        BitShr(v, vdl - left, j);
        BitAnd(value, Pow2(vdl) - 1, j + vdl - left);
        BitMask(vdl, j + vdl - left);
      }
      WordFromBits(second);
    }
  }

  /** On the one-bit array a `memSet` either changes nothing or is one flip. */
  lemma MemSetIsFlip(mem: seq<nat>, index: nat, value: nat)
    requires Words(mem) && index < WORD * |mem| <= WRAP32
    ensures Fits(mem, 1, index)
    ensures MemSet(mem, 1, index, value)
         == if Bit(value, 0) == WordBit(mem, index) then mem else FlipAt(mem, index)
  {
    hide Bit, Xor, And, Or, Shr, Shl, Low, Pow2;
    var l := MemSet(mem, 1, index, value);
    var r := if Bit(value, 0) == WordBit(mem, index) then mem else FlipAt(mem, index);
    MemSetKeepsWords(mem, 1, index, value);
    FlipKeepsWords(mem, index);
    forall i | 0 <= i < WORD * |mem| ensures WordBit(l, i) == WordBit(r, i) {
      MemSetBits(mem, 1, index, value, i);
      FlipAtBits(mem, index, i);
    }
    SameWords(l, r);
  }

  lemma MemGetIsBit(mem: seq<nat>, index: nat)
    requires index < WORD * |mem| <= WRAP32
    ensures Fits(mem, 1, index)
    ensures MemGet(mem, 1, index) == Digit(WordBit(mem, index))
  {
    hide Xor, And, Or, Shr, Shl, Low, Pow2;
    var g := MemGet(mem, 1, index);
    forall j: nat ensures Bit(g, j) == Bit(Digit(WordBit(mem, index)), j) {
      MemGetBits(mem, 1, index, j);
      OneBit(j);
      BitZero(j);
    }
    SameBits(g, Digit(WordBit(mem, index)));
  }

  /** A one-bit cell. */
  function BitGet(mem: seq<nat>, index: nat): (v: nat)
    requires index < WORD * |mem| <= WRAP32
    ensures v == Digit(WordBit(mem, index))
  {
    MemGetIsBit(mem, index);
    MemGet(mem, 1, index)
  }

  /** Everything one cell write of the one-bit array does. */
  lemma CellWrite(mem: seq<nat>, index: nat, value: nat)
    requires Words(mem) && index < WORD * |mem| <= WRAP32
    ensures Fits(mem, 1, index)
    ensures var r := MemSet(mem, 1, index, value);
            && Words(r) && |r| == |mem|
            && r == (if Bit(value, 0) == WordBit(mem, index) then mem else FlipAt(mem, index))
            && forall i :: 0 <= i < WORD * |mem| ==>
                 WordBit(r, i) == if i == index then Bit(value, 0) else WordBit(mem, i)
  {
    hide Bit, Xor, And, Or, Shr, Shl, WordBit, FlipAt;
    MemSetIsFlip(mem, index, value);
    MemSetKeepsWords(mem, 1, index, value);
    forall i | 0 <= i < WORD * |mem|
      ensures WordBit(MemSet(mem, 1, index, value), i) == if i == index then Bit(value, 0) else WordBit(mem, i)
    {
      MemSetBits(mem, 1, index, value, i);
    }
  }

  /** Xoring a value with a cell, as `fillSingle` and `fixSingle` do before writing. */
  lemma XorCell(mem: seq<nat>, v: nat, index: nat)
    requires index < WORD * |mem| <= WRAP32
    ensures Fits(mem, 1, index)
    ensures Bit(Xor(v, MemGet(mem, 1, index)), 0) == (Bit(v, 0) != WordBit(mem, index))
  {
    MemGetIsBit(mem, index);
    hide MemGet, Xor, WordBit;
    BitXor(v, MemGet(mem, 1, index), 0);
  }

  /** `after` is `before` with the codes appended since `flips` replayed. */
  ghost predicate Patched(before: seq<nat>, flips: seq<nat>, after: seq<nat>, flips': seq<nat>) {
    && flips <= flips'
    && CodesFit(before, flips'[|flips|..])
    && after == Replay(before, flips'[|flips|..])
  }

  lemma PatchNone(mem: seq<nat>, flips: seq<nat>)
    ensures Patched(mem, flips, mem, flips)
  {
  }

  lemma PatchOne(before: seq<nat>, flips: seq<nat>, after: seq<nat>, flips': seq<nat>, code: nat)
    requires Patched(before, flips, after, flips') && CodeFits(before, code)
    ensures CodeFits(after, code) && Patched(before, flips, FlipAt(after, code), flips' + [code])
  {
    hide FlipAt, Replay, CodesFit;
    assert (flips' + [code])[|flips|..] == flips'[|flips|..] + [code];
    ReplayAppend(before, flips'[|flips|..], code);
  }

  lemma PatchTrans(m0: seq<nat>, f0: seq<nat>, m1: seq<nat>, f1: seq<nat>, m2: seq<nat>, f2: seq<nat>)
    requires Patched(m0, f0, m1, f1) && Patched(m1, f1, m2, f2)
    ensures Patched(m0, f0, m2, f2)
  {
    hide FlipAt, Replay;
    assert f2[|f0|..] == f1[|f0|..] + f2[|f1|..];
    assert forall k :: 0 <= k < |f2[|f1|..]| ==> CodeFits(m1, f2[|f1|..][k]) ==> CodeFits(m0, f2[|f1|..][k]);
    ReplayConcat(m0, f1[|f0|..], f2[|f1|..]);
  }

  /** Replaying the flips on the earlier words yields the later ones. */
  ghost predicate Replays(before: seq<nat>, flips: seq<nat>, after: seq<nat>) {
    CodesFit(before, flips) && after == Replay(before, flips)
  }

  lemma PatchedFromEmpty(before: seq<nat>, after: seq<nat>, flips: seq<nat>)
    ensures Patched(before, [], after, flips) <==> Replays(before, flips, after)
  {
    hide CodesFit, Replay;
    assert flips[0..] == flips;
  }

  lemma ReplayAppend(mem: seq<nat>, codes: seq<nat>, code: nat)
    requires CodesFit(mem, codes) && CodeFits(mem, code)
    ensures CodesFit(mem, codes + [code])
    ensures Replay(mem, codes + [code]) == FlipAt(Replay(mem, codes), code)
  {
    hide FlipAt;
    assert (codes + [code])[..|codes|] == codes;
  }

  /** Replaying two lists in turn is replaying their concatenation. */
  lemma {:induction false} ReplayConcat(mem: seq<nat>, c1: seq<nat>, c2: seq<nat>)
    requires CodesFit(mem, c1) && CodesFit(mem, c2)
    ensures CodesFit(mem, c1 + c2)
    ensures Replay(mem, c1 + c2) == Replay(Replay(mem, c1), c2)
    decreases |c2|
  {
    hide FlipAt;
    if c2 == [] {
      assert c1 + c2 == c1;
    } else {
      var last := |c2| - 1;
      ReplayConcat(mem, c1, c2[..last]);
      assert c1 + c2 == (c1 + c2[..last]) + [c2[last]];
      ReplayAppend(mem, c1 + c2[..last], c2[last]);
    }
  }

  /** A replayed bit is toggled once per occurrence of its code, repeats included. */
  lemma {:induction false} ReplayBits(mem: seq<nat>, codes: seq<nat>, i: nat)
    requires CodesFit(mem, codes) && i < WORD * |mem|
    ensures WordBit(Replay(mem, codes), i) == (WordBit(mem, i) != (multiset(codes)[i] % 2 == 1))
    decreases |codes|
  {
    hide Bit, FlipAt;
    if codes != [] {
      var last := |codes| - 1;
      ReplayBits(mem, codes[..last], i);
      FlipAtBits(Replay(mem, codes[..last]), codes[last], i);
      assert codes == codes[..last] + [codes[last]];
    }
  }

  /** Every cell is named an even number of times. */
  predicate Cancels(codes: seq<nat>) {
    forall c :: c in codes ==> multiset(codes)[c] % 2 == 0
  }

  /** Replaying a list changes nothing exactly when its codes cancel out. */
  lemma ReplayCancels(mem: seq<nat>, codes: seq<nat>)
    requires Words(mem) && CodesFit(mem, codes)
    ensures Replay(mem, codes) == mem <==> Cancels(codes)
  {
    hide WordBit, Replay, Words;
    forall i | 0 <= i < WORD * |mem|
      ensures WordBit(Replay(mem, codes), i) == (WordBit(mem, i) != (multiset(codes)[i] % 2 == 1))
    {
      ReplayBits(mem, codes, i);
    }
    if Cancels(codes) {
      ReplayKeepsWords(mem, codes);
      forall i | 0 <= i < WORD * |mem| ensures WordBit(Replay(mem, codes), i) == WordBit(mem, i) {
        assert i in codes <==> multiset(codes)[i] > 0;
      }
      SameWords(Replay(mem, codes), mem);
    }
    if Replay(mem, codes) == mem {
      forall c | c in codes ensures multiset(codes)[c] % 2 == 0 {
        assert CodeFits(mem, c);
      }
    }
  }

  lemma {:induction false} ReplayKeepsWords(mem: seq<nat>, codes: seq<nat>)
    requires Words(mem) && CodesFit(mem, codes)
    ensures Words(Replay(mem, codes))
    decreases |codes|
  {
    if codes != [] {
      var last := |codes| - 1;
      ReplayKeepsWords(mem, codes[..last]);
      FlipKeepsWords(Replay(mem, codes[..last]), codes[last]);
    }
  }

  // ---- Difference of two states of the array ----

  /** Ascending list of exactly the bits below `bound` in which `pre` and `post` differ. */
  ghost predicate DiffUpTo(pre: seq<nat>, post: seq<nat>, bound: nat, codes: seq<nat>)
    requires |pre| == |post| && bound <= WORD * |pre|
  {
    && (forall i, j :: 0 <= i < j < |codes| ==> codes[i] < codes[j])
    && (forall c :: c in codes ==> c < bound && WordBit(pre, c) != WordBit(post, c))
    && (forall c :: 0 <= c < bound && WordBit(pre, c) != WordBit(post, c) ==> c in codes)
  }

  /** The list `othello_flipped_indexes` computes: ascending, without repeats, and
      replaying it on the first vector gives the second one. */
  method OthelloFlippedIndexes(pre: seq<nat>, post: seq<nat>) returns (codes: seq<nat>)
    requires |pre| == |post| < 0x400_0000 && Words(pre) && Words(post)
    ensures forall i, j :: 0 <= i < j < |codes| ==> codes[i] < codes[j]
    ensures CodesFit(pre, codes) && Replay(pre, codes) == post
  {
    hide Pow2, Xor, And, Shr;
    codes := [];
    for i := 0 to |pre|
      invariant DiffUpTo(pre, post, WORD * i, codes)
    {
      codes := WordDiff(pre, post, i, codes);
    }
    DiffReplays(pre, post, codes);
  }

  /** The inner loop: shift the difference of one word out digit by digit. */
  method WordDiff(pre: seq<nat>, post: seq<nat>, i: nat, before: seq<nat>) returns (codes: seq<nat>)
    requires i < |pre| == |post| < 0x400_0000 && Words(pre) && Words(post)
    requires DiffUpTo(pre, post, WORD * i, before)
    ensures DiffUpTo(pre, post, WORD * (i + 1), codes)
  {
    hide Pow2, Xor, Bit, Shr, DiffUpTo;
    codes := before;
    var d := Xor(pre[i], post[i]);
    var diff, index := d, 0;
    ShrStep(d, 0);
    while diff > 0
      invariant index <= WORD && diff == Shr(d, index)
      invariant DiffUpTo(pre, post, WORD * i + index, codes)
      decreases diff
    {
      ShrStep(d, index);
      BitXor(pre[i], post[i], index);
      XorWordSpan(pre[i], post[i], index);
      assert WordBit(pre, WORD * i + index) == Bit(pre[i], index);
      assert WordBit(post, WORD * i + index) == Bit(post[i], index);
      DiffStep(pre, post, WORD * i + index, codes);
      var lastBit := diff % 2;
      if lastBit == 1 {
        codes := codes + [i * WORD + index];
      }
      index := index + 1;
      diff := diff / 2;
    }
    forall c | WORD * i + index <= c < WORD * (i + 1)
      ensures WordBit(pre, c) == WordBit(post, c)
    {
      var j := c - WORD * i;
      ShrStep(d, index);
      BitShr(d, index, j - index);
      BitZero(j - index);
      BitXor(pre[i], post[i], j);
    }
    DiffExtend(pre, post, WORD * i + index, WORD * (i + 1), codes);
  }

  lemma DiffExtend(pre: seq<nat>, post: seq<nat>, b: nat, bound: nat, codes: seq<nat>)
    requires |pre| == |post| && b <= bound <= WORD * |pre| && DiffUpTo(pre, post, b, codes)
    requires forall c :: b <= c < bound ==> WordBit(pre, c) == WordBit(post, c)
    ensures DiffUpTo(pre, post, bound, codes)
  {
    hide WordBit;
  }

  lemma ShrStep(a: nat, k: nat)
    ensures Shr(a, k) % 2 == Digit(Bit(a, k)) && Shr(a, k + 1) == Shr(a, k) / 2 && Shr(a, 0) == a
    decreases k
  {
    if k > 0 { ShrStep(a / 2, k - 1); }
  }

  /** The difference of two words is used up after 64 shifts. */
  lemma XorWordSpan(a: nat, b: nat, k: nat)
    requires a < TWO64 && b < TWO64 && Shr(Xor(a, b), k) > 0
    ensures k < WORD
  {
    hide Pow2, Xor, Bit, Shr;
    if k >= WORD {
      forall j: nat ensures Bit(Shr(Xor(a, b), k), j) == Bit(0, j) {
        BitShr(Xor(a, b), k, j);
        BitXor(a, b, j + k);
        WordBits(a, j + k);
        WordBits(b, j + k);
        BitZero(j);
      }
      SameBits(Shr(Xor(a, b), k), 0);
    }
  }

  lemma DiffStep(pre: seq<nat>, post: seq<nat>, c: nat, codes: seq<nat>)
    requires |pre| == |post| && c < WORD * |pre| && DiffUpTo(pre, post, c, codes)
    ensures DiffUpTo(pre, post, c + 1, if WordBit(pre, c) != WordBit(post, c) then codes + [c] else codes)
  {
    hide WordBit;
    var codes' := if WordBit(pre, c) != WordBit(post, c) then codes + [c] else codes;
    forall b | 0 <= b < c + 1 && WordBit(pre, b) != WordBit(post, b) ensures b in codes' {
      if b == c { assert codes'[|codes|] == c; }
    }
    forall i, j | 0 <= i < j < |codes'| ensures codes'[i] < codes'[j] {
      assert codes'[i] in codes;
    }
  }

  lemma DiffReplays(pre: seq<nat>, post: seq<nat>, codes: seq<nat>)
    requires |pre| == |post| && Words(pre) && Words(post)
    requires DiffUpTo(pre, post, WORD * |pre|, codes)
    ensures CodesFit(pre, codes) && Replay(pre, codes) == post
  {
    hide Bit, Pow2, WordBit, Replay;
    assert CodesFit(pre, codes) by {
      assert forall k :: 0 <= k < |codes| ==> codes[k] in codes;
    }
    ReplayKeepsWords(pre, codes);
    forall i | 0 <= i < WORD * |pre| ensures WordBit(Replay(pre, codes), i) == WordBit(post, i) {
      ReplayBits(pre, codes, i);
      AscendingCount(codes, i);
    }
    SameWords(Replay(pre, codes), post);
  }

  lemma {:induction false} AscendingCount(codes: seq<nat>, c: nat)
    requires forall i, j :: 0 <= i < j < |codes| ==> codes[i] < codes[j]
    ensures multiset(codes)[c] == Digit(c in codes)
  {
    if codes != [] {
      var last := |codes| - 1;
      assert codes == codes[..last] + [codes[last]];
      AscendingCount(codes[..last], c);
    }
  }
}
