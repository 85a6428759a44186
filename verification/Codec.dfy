/** The bytes of full and delta updates.  `None` stands for reading past the end, or for an
    exception. */
module Codec {
  import opened Wrappers
  import opened Bits
  import opened PackedArray

  type Bytes = seq<uint8>

  // ---- Numbers, most significant byte first ----

  function BigEndian(x: nat, n: nat): (r: Bytes)
    ensures |r| == n
    decreases n
  {
    LowByte(x);
    if n == 0 then [] else BigEndian(Shr(x, 8), n - 1) + [And(x, 255)]
  }

  lemma LowByte(x: nat)
    ensures And(x, 255) < 256
  {
    assert Pow2(8) == 256;
    hide And, Pow2, Shr, Shl;
    Unpeel(x, 8);
  }

  /** `split_uint_t`: the bytes of `x` go to the end of `v`. */
  method SplitUint(x: nat, n: nat, v: Bytes) returns (r: Bytes)
    ensures r == v + BigEndian(x, n)
    ensures v == [] ==> r == BigEndian(x, n)
  {
    hide And, Shr, BigEndian;
    r := v;
    var i: nat := n;
    SplitStart(x, n);
    while i > 0
      invariant i <= n && r == v + BigEndian(Shr(x, 8 * i), n - i)
      decreases i
    {
      i := i - 1;
      SplitStep(x, n, i);
      var temp := And(Shr(x, 8 * i), 255);
      r := r + [temp];
    }
  }

  lemma SplitStart(x: nat, n: nat)
    ensures BigEndian(Shr(x, 8 * n), 0) == [] && Shr(x, 0) == x
  {
  }

  lemma SplitStep(x: nat, n: nat, i: nat)
    requires i < n
    ensures And(Shr(x, 8 * i), 255) < 256
    ensures BigEndian(Shr(x, 8 * i), n - i) == BigEndian(Shr(x, 8 * (i + 1)), n - i - 1) + [And(Shr(x, 8 * i), 255)]
  {
    hide And, Shr;
    LowByte(Shr(x, 8 * i));
    ShrShr(x, 8 * i, 8);
  }

  function EachByte(xs: seq<nat>, n: nat): Bytes {
    if xs == [] then [] else BigEndian(xs[0], n) + EachByte(xs[1..], n)
  }

  /** `split_uint_t_vector`. */
  method SplitVector(xs: seq<nat>, n: nat, v: Bytes) returns (r: Bytes)
    ensures r == v + EachByte(xs, n)
    ensures v == [] ==> r == EachByte(xs, n)
  {
    hide EachByte, BigEndian;
    r := v;
    NoBytes(n);
    for i := 0 to |xs|
      invariant r == v + EachByte(xs[..i], n)
    {
      r := SplitUint(xs[i], n, r);
      EachNext(xs, n, i);
    }
    assert xs[..|xs|] == xs;
  }

  lemma NoBytes(n: nat)
    ensures forall xs: seq<nat> :: EachByte(xs[..0], n) == []
    ensures EachByte([], n) == []
  {
  }

  lemma {:induction false} EachNext(xs: seq<nat>, n: nat, i: nat)
    requires i < |xs|
    ensures EachByte(xs[..i + 1], n) == EachByte(xs[..i], n) + BigEndian(xs[i], n)
  {
    hide BigEndian;
    if i == 0 {
      assert xs[..1][1..] == [];
    } else {
      EachNext(xs[1..], n, i - 1);
      assert xs[..i + 1][1..] == xs[1..][..i] && xs[..i][1..] == xs[1..][..i - 1];
    }
  }

  /** The number that bytes stand for. */
  function Number(s: Bytes): nat {
    if s == [] then 0 else Shl(Number(s[..|s| - 1]), 8) + s[|s| - 1]
  }

  /** Splitting loses nothing of a number that fits. */
  lemma {:induction false} NumberOfBytes(x: nat, n: nat)
    requires x < Pow2(8 * n)
    ensures Number(BigEndian(x, n)) == x
    decreases n
  {
    hide And, Shr, Shl, Pow2;
    if n == 0 {
      assert Pow2(0) == 1 by { NoShift(); }
    } else {
      ShrBound(x, 8, 8 * (n - 1));
      NumberOfBytes(Shr(x, 8), n - 1);
      Eight();
      Unpeel(x, 8);
      LowByte(x);
      var b := BigEndian(x, n);
      assert b[..|b| - 1] == BigEndian(Shr(x, 8), n - 1);
    }
  }

  lemma NoShift()
    ensures Pow2(0) == 1
  {
  }

  lemma Eight()
    ensures Pow2(8) == 256
  {
  }

  /** `combine_chars_as_uint32_t`. */
  function Combine32(data: Bytes, begin: nat): nat
    requires begin + 4 <= |data|
  {
    Shl(data[begin], 24) + Shl(data[begin + 1], 16) + Shl(data[begin + 2], 8) + data[begin + 3]
  }

  /** `combine_chars_as_uint64_t`. */
  function Combine64(data: Bytes, begin: nat): nat
    requires begin + 8 <= |data|
  {
    Shl(data[begin], 56) + Shl(data[begin + 1], 48) + Shl(data[begin + 2], 40) + Shl(data[begin + 3], 32)
    + Shl(data[begin + 4], 24) + Shl(data[begin + 5], 16) + Shl(data[begin + 6], 8) + data[begin + 7]
  }

  lemma NumberNext(data: Bytes, begin: nat, n: nat)
    requires begin + n < |data|
    ensures Number(data[begin..begin + n + 1]) == Shl(Number(data[begin..begin + n]), 8) + data[begin + n]
  {
    hide Shl;
    var s := data[begin..begin + n + 1];
    assert s[..n] == data[begin..begin + n];
  }

  lemma ShlMore(a: nat, b: nat, k: nat, k': nat)
    requires k' == k + 8
    ensures Shl(Shl(a, 8) + b, k) == Shl(a, k') + Shl(b, k)
  {
    hide Shl;
    ShlSum(Shl(a, 8), b, k);
    ShlShl(a, 8, k);
  }

  lemma Combine32IsNumber(data: Bytes, begin: nat)
    requires begin + 4 <= |data|
    ensures Combine32(data, begin) == Number(data[begin..begin + 4])
  {
    hide Shl;
    NumberOfOne(data, begin);
    NumberNext(data, begin, 1);
    NumberNext(data, begin, 2);
    NumberNext(data, begin, 3);
    var a, b, c := data[begin], data[begin + 1], data[begin + 2];
    ShlMore(a, b, 8, 16);
    ShlMore(Shl(a, 8) + b, c, 8, 16);
    ShlMore(a, b, 16, 24);
  }

  lemma NumberOfOne(data: Bytes, begin: nat)
    requires begin < |data|
    ensures Number(data[begin..begin + 1]) == data[begin]
  {
    ShlZero(8);
    hide Shl;
    NumberNext(data, begin, 0);
  }

  lemma ShlZero(k: nat)
    ensures Shl(0, k) == 0
  {
    ShlIsMul(0, k);
  }

  lemma Combine64IsNumber(data: Bytes, begin: nat)
    requires begin + 8 <= |data|
    ensures Combine64(data, begin) == Number(data[begin..begin + 8])
  {
    hide Shl, Combine32;
    Combine32IsNumber(data, begin);
    Combine32IsNumber(data, begin + 4);
    NumberSplits(data, begin, 4, 4);
    Combine64Splits(data, begin);
  }

  lemma Combine64Splits(data: Bytes, begin: nat)
    requires begin + 8 <= |data|
    ensures Combine64(data, begin) == Shl(Combine32(data, begin), 32) + Combine32(data, begin + 4)
  {
    hide Shl;
    var a, b, c, d := data[begin], data[begin + 1], data[begin + 2], data[begin + 3];
    ShlSum(Shl(a, 24) + Shl(b, 16) + Shl(c, 8), d, 32);
    ShlSum(Shl(a, 24) + Shl(b, 16), Shl(c, 8), 32);
    ShlSum(Shl(a, 24), Shl(b, 16), 32);
    ShlShl(a, 24, 32);
    ShlShl(b, 16, 32);
    ShlShl(c, 8, 32);
  }

  /** A number read in two parts. */
  lemma {:induction false} NumberSplits(data: Bytes, begin: nat, m: nat, n: nat)
    requires begin + m + n <= |data|
    ensures Number(data[begin..begin + m + n]) == Shl(Number(data[begin..begin + m]), 8 * n)
        + Number(data[begin + m..begin + m + n])
    decreases n
  {
    hide Shl, Number;
    if n == 0 {
      ShlNone(Number(data[begin..begin + m]));
      NumberOfNone();
      assert data[begin + m..begin + m + n] == [];
    } else {
      NumberSplits(data, begin, m, n - 1);
      NumberNext(data, begin, m + n - 1);
      NumberNext(data, begin + m, n - 1);
      ShlSum(Shl(Number(data[begin..begin + m]), 8 * (n - 1)), Number(data[begin + m..begin + m + n - 1]), 8);
      ShlShl(Number(data[begin..begin + m]), 8 * (n - 1), 8);
    }
  }

  lemma NumberOfNone()
    ensures Number([]) == 0
  {
  }

  lemma ShlNone(a: nat)
    ensures Shl(a, 0) == a
  {
  }

  // ---- Full updates ----

  /** Everything a full update carries. */
  datatype Image = Image(mem: seq<nat>, ma: nat, mb: nat, hab: nat, hd: nat,
                         memoryConsumption: nat, e: nat, n: nat, m: nat, filledCell: int, maxKickSteps: nat,
                             max2Power: nat,
                         bigSeg: nat, isSmall: bool, len: seq<nat>, fpLen: nat, t: seq<nat>)

  /** The fields are within their C++ types, and `t` has as many whole units as the source sends. */
  ghost predicate Encodable(g: Image) {
    && |g.mem| < WRAP32 && FitsIn(g.mem, TWO64)
    && g.ma < WRAP32 && g.mb < WRAP32 && g.hab < TWO64 && g.hd < WRAP32
    && g.memoryConsumption < TWO64 && |Decimal(g.e)| < WRAP32 && g.n < TWO64 && g.m < WRAP32
    && -0x8000_0000 <= g.filledCell < 0x8000_0000
    && g.maxKickSteps < WRAP32 && g.max2Power < WRAP32 && g.bigSeg < WRAP32
    && |g.len| == 4 && FitsIn(g.len, WRAP32) && g.fpLen < WRAP32
    && |g.t| == g.memoryConsumption / 4 && FitsIn(g.t, WRAP32)
  }

  ghost predicate FitsIn(xs: seq<nat>, bound: nat) {
    forall i :: 0 <= i < |xs| ==> xs[i] < bound
  }

  /** The engine state as text. */
  function Decimal(x: nat): (r: Bytes)
    ensures |r| > 0 && forall i :: 0 <= i < |r| ==> 48 <= r[i] < 58
  {
    if x < 10 then [48 + x] else Decimal(x / 10) + [48 + x % 10]
  }

  function ParseDecimal(s: seq<nat>): nat {
    if s == [] then 0
    else ParseDecimal(s[..|s| - 1]) * 10 + (if s[|s| - 1] < 48 then 0 else s[|s| - 1] - 48)
  }

  lemma {:induction false} ParseText(x: nat)
    ensures ParseDecimal(Decimal(x)) == x
  {
    if x >= 10 {
      ParseText(x / 10);
      var d := Decimal(x);
      assert d[..|d| - 1] == Decimal(x / 10);
    } else {
      assert Decimal(x)[..0] == [];
    }
  }

  /** A number below a power of ten has at most so many digits. */
  lemma {:induction false} ShortText(x: nat, digits: nat)
    requires digits > 0 && x < Pow10(digits)
    ensures |Decimal(x)| <= digits
    decreases digits
  {
    if x >= 10 { ShortText(x / 10, digits - 1); }
  }

  function Pow10(n: nat): nat {
    if n == 0 then 1 else 10 * Pow10(n - 1)
  }

  /** An `int` sent as `uint32_t`, and back. */
  function ToUnsigned(x: int): (r: nat)
    requires -0x8000_0000 <= x < 0x8000_0000
    ensures r < WRAP32 && ToSigned(r) == x
  {
    if x < 0 then x + WRAP32 else x
  }

  function ToSigned(r: nat): int {
    if r < 0x8000_0000 then r else r - WRAP32
  }

  /** The parts of a full update, in order. */
  ghost function Parts(g: Image): seq<Bytes>
    requires Encodable(g)
  {
    [BigEndian(|g.mem|, 4), EachByte(g.mem, 8), BigEndian(g.ma, 4), BigEndian(g.mb, 4), BigEndian(g.hab, 8),
        BigEndian(g.hd, 4),
     BigEndian(g.memoryConsumption, 8), BigEndian(|Decimal(g.e)|, 4), EachByte(Decimal(g.e), 1),
     BigEndian(g.n, 8), BigEndian(g.m, 4), BigEndian(ToUnsigned(g.filledCell), 4), BigEndian(g.maxKickSteps, 4),
     BigEndian(g.max2Power, 4), BigEndian(g.bigSeg, 4), BigEndian(Digit(g.isSmall), 1), EachByte(g.len, 4),
         BigEndian(g.fpLen, 4),
     EachByte(g.t, 4)]
  }

  /** Chunks or parts one after the other, from the `k`-th on. */
  function Joined(parts: seq<Bytes>, k: nat): Bytes
    requires k <= |parts|
    decreases |parts| - k
  {
    if k == |parts| then [] else parts[k] + Joined(parts, k + 1)
  }

  /** One number at the reading position, or nothing when the data end before. */
  method Read(data: Bytes, offset: nat, n: nat) returns (v: Option<nat>, offset': nat)
    requires n == 1 || n == 4 || n == 8
    ensures v == if offset + n <= |data| then Some(Number(data[offset..offset + n])) else None
    ensures offset' == offset + n
  {
    hide Combine32, Combine64, Number;
    offset' := offset + n;
    if offset' > |data| {
      return None, offset';
    }
    if n == 8 {
      Combine64IsNumber(data, offset);
      v := Some(Combine64(data, offset));
    } else if n == 4 {
      Combine32IsNumber(data, offset);
      v := Some(Combine32(data, offset));
    } else {
      NumberOfOne(data, offset);
      v := Some(data[offset]);
    }
  }

  /** What reading finds where a number has been written. */
  lemma ReadBack(data: Bytes, offset: nat, n: nat, x: nat, more: Bytes)
    requires Follows(data, offset, BigEndian(x, n) + more) && x < Pow2(8 * n)
    ensures NumberAt(data, offset, n, x) && Follows(data, offset + n, more)
  {
    hide BigEndian, Number, Pow2;
    NumberOfBytes(x, n);
    assert |data[offset..]| >= n;
    assert data[offset..offset + n] == data[offset..][..n] == BigEndian(x, n);
    assert data[offset + n..] == data[offset..][n..];
  }

  /** Below which a number has `n` bytes. */
  function Limit(n: nat): nat {
    if n == 1 then 256 else if n == 4 then WRAP32 else TWO64
  }

  lemma LimitIsPower(n: nat)
    requires n == 1 || n == 4 || n == 8
    ensures Limit(n) == Pow2(8 * n)
  {
    Capacities();
  }

  /** What is ahead of the reader. */
  ghost predicate Follows(data: Bytes, offset: nat, bytes: Bytes) {
    offset <= |data| && data[offset..] == bytes
  }

  // ---- The layout of a full update ----

  /** `n` bytes at `offset` stand for `x`. */
  ghost predicate NumberAt(data: Bytes, offset: nat, n: nat, x: nat) {
    offset + n <= |data| && Number(data[offset..offset + n]) == x
  }

  /** From `offset` on, one number of `n` bytes after the other. */
  ghost predicate NumbersAt(data: Bytes, offset: nat, n: nat, xs: seq<nat>) {
    offset + n * |xs| <= |data| && forall i :: 0 <= i < |xs| ==> NumberAt(data, offset + n * i, n, xs[i])
  }

  /** Number of words, words, sizes of the arrays A and B, hash seed, digest seed. */
  ghost predicate OthelloLaid(data: Bytes, o: nat, g: Image) {
    var c := |g.mem|;
    && NumberAt(data, o, 4, c) && NumbersAt(data, o + 4, 8, g.mem)
    && NumberAt(data, o + 4 + 8 * c, 4, g.ma) && NumberAt(data, o + 8 + 8 * c, 4, g.mb)
    && NumberAt(data, o + 12 + 8 * c, 8, g.hab) && NumberAt(data, o + 20 + 8 * c, 4, g.hd)
  }

  /** Bytes allocated, length of the text of the engine state, text. */
  ghost predicate EngineLaid(data: Bytes, o: nat, g: Image) {
    && NumberAt(data, o, 8, g.memoryConsumption) && NumberAt(data, o + 8, 4, |Decimal(g.e)|)
    && NumbersAt(data, o + 12, 1, Decimal(g.e))
  }

  /** The fields of the filter, and its memory. */
  ghost predicate FilterLaid(data: Bytes, o: nat, g: Image)
    requires Encodable(g)
  {
    && NumberAt(data, o, 8, g.n) && NumberAt(data, o + 8, 4, g.m)
    && NumberAt(data, o + 12, 4, if g.filledCell < 0 then g.filledCell + 0x1_0000_0000 else g.filledCell)
    && NumberAt(data, o + 16, 4, g.maxKickSteps) && NumberAt(data, o + 20, 4, g.max2Power)
    && NumberAt(data, o + 24, 4, g.bigSeg) && NumberAt(data, o + 28, 1, if g.isSmall then 1 else 0)
    && NumbersAt(data, o + 29, 4, g.len) && NumberAt(data, o + 45, 4, g.fpLen) && NumbersAt(data, o + 49, 4, g.t)
  }

  /** A full update of `g` from `o` on, field by field. */
  ghost predicate Laid(data: Bytes, o: nat, g: Image) {
    && Encodable(g) && OthelloLaid(data, o, g) && EngineLaid(data, o + 24 + 8 * |g.mem|, g)
    && FilterLaid(data, o + 36 + 8 * |g.mem| + |Decimal(g.e)|, g)
  }

  /** As many numbers as asked for. */
  method ReadMany(data: Bytes, offset: nat, count: nat, n: nat) returns (r: Option<seq<nat>>, offset': nat)
    requires n == 1 || n == 4 || n == 8
    ensures r.Some? <==> offset + n * count <= |data| || count == 0
    ensures r.Some? ==> |r.value| == count && offset' == offset + n * count
    ensures r.Some? ==> forall i :: 0 <= i < count ==> NumberAt(data, offset + n * i, n, r.value[i])
  {
    hide Number;
    var s: seq<nat> := [];
    offset' := offset;
    for j := 0 to count
      invariant |s| == j && offset' == offset + n * j && (j > 0 ==> offset' <= |data|)
      invariant forall i :: 0 <= i < j ==> NumberAt(data, offset + n * i, n, s[i])
    {
      var v;
      v, offset' := Read(data, offset', n);
      if v == None {
        MoreBytes(n, j + 1, count);
        return None, offset';
      }
      s := s + [v.value];
    }
    r := Some(s);
  }

  lemma MoreBytes(n: nat, i: nat, j: nat)
    requires i <= j
    ensures n * i <= n * j
  {
  }

  lemma SameNumbers(data: Bytes, offset: nat, n: nat, xs: seq<nat>, ys: seq<nat>)
    requires NumbersAt(data, offset, n, xs) && |ys| == |xs|
    requires forall i :: 0 <= i < |ys| ==> NumberAt(data, offset + n * i, n, ys[i])
    ensures ys == xs
  {
    hide Number;
    forall i | 0 <= i < |xs| ensures ys[i] == xs[i] {
      assert NumberAt(data, offset + n * i, n, xs[i]);
    }
  }

  /** What comes after a full update does not matter. */
  lemma LaidBefore(data: Bytes, o: nat, g: Image, tail: Bytes)
    requires Laid(data, o, g)
    ensures Laid(data + tail, o, g)
  {
    hide Number, Decimal, Encodable;
    forall offset: nat, n: nat, x: nat | NumberAt(data, offset, n, x) ensures NumberAt(data + tail, offset, n, x) {
      assert (data + tail)[offset..offset + n] == data[offset..offset + n];
    }
    forall offset: nat, n: nat, xs: seq<nat> | NumbersAt(data, offset, n, xs)
      ensures NumbersAt(data + tail, offset, n, xs)
    {
      forall i | 0 <= i < |xs| ensures NumberAt(data + tail, offset + n * i, n, xs[i]) {
        assert NumberAt(data, offset + n * i, n, xs[i]);
      }
    }
    hide NumberAt, NumbersAt;
  }

  // ---- Encoding ----

  lemma JoinedStep(parts: seq<Bytes>, k: nat, tail: Bytes)
    requires k < |parts|
    ensures Joined(parts, k) + tail == parts[k] + (Joined(parts, k + 1) + tail)
  {
  }

  /** From `k` and `k'` on, both hold the same. */
  ghost predicate SameFrom(v: seq<Bytes>, parts: seq<Bytes>, k: nat, k': nat) {
    k <= |v| && k' <= |parts| && v[k..] == parts[k'..]
  }

  lemma {:induction false} JoinedSame(v: seq<Bytes>, parts: seq<Bytes>, k: nat, k': nat)
    requires SameFrom(v, parts, k, k')
    ensures k <= |v| && k' <= |parts| && Joined(v, k) == Joined(parts, k')
    decreases |v| - k
  {
    assert |v[k..]| == |parts[k'..]|;
    if k < |v| {
      assert v[k..][0] == parts[k'..][0] && v[k..][1..] == parts[k'..][1..];
      JoinedSame(v, parts, k + 1, k' + 1);
    }
  }

  /** Sending two parts as one chunk does not change the bytes. */
  lemma {:induction false} JoinedMerged(v: seq<Bytes>, parts: seq<Bytes>, j: nat, k: nat)
    requires k <= j < |v| && j + 1 < |parts| && v[k..j] == parts[k..j]
    requires v[j] == parts[j] + parts[j + 1] && SameFrom(v, parts, j + 1, j + 2)
    ensures Joined(v, k) == Joined(parts, k)
    decreases j - k
  {
    if k < j {
      assert v[k..j][0] == parts[k..j][0] && v[k..j][1..] == parts[k..j][1..];
      JoinedMerged(v, parts, j, k + 1);
    } else {
      JoinedSame(v, parts, j + 1, j + 2);
      ConcatAssoc(parts[j], parts[j + 1], Joined(parts, j + 2));
    }
  }

  lemma ConcatAssoc(a: Bytes, b: Bytes, c: Bytes)
    ensures a + b + c == a + (b + c)
  {
  }

  /** `encode_full`. */
  method EncodeFull(g: Image) returns (v: seq<Bytes>)
    requires Encodable(g)
    ensures Joined(v, 0) == Joined(Parts(g), 0) && Laid(Joined(v, 0), 0, g)
    ensures |Joined(v, 0)| == 85 + 8 * |g.mem| + |Decimal(g.e)| + 4 * |g.t|
  {
    hide BigEndian, EachByte, Decimal, Joined, FitsIn, Laid;
    var memSizeV := SplitUint(|g.mem|, 4, []);
    var memV := SplitVector(g.mem, 8, []);
    var maV := SplitUint(g.ma, 4, []);
    var mbV := SplitUint(g.mb, 4, []);
    var habV := SplitUint(g.hab, 8, []);
    var hdV := SplitUint(g.hd, 4, []);
    var vfMemSizeV := SplitUint(g.memoryConsumption, 8, []);
    var text := Decimal(g.e);
    var eV := SplitUint(|text|, 4, []);
    eV := SplitVector(text, 1, eV);
    var nV := SplitUint(g.n, 8, []);
    var mV := SplitUint(g.m, 4, []);
    var filledCellV := SplitUint(ToUnsigned(g.filledCell), 4, []);
    var maxKickStepsV := SplitUint(g.maxKickSteps, 4, []);
    var max2PowerV := SplitUint(g.max2Power, 4, []);
    var bigSegV := SplitUint(g.bigSeg, 4, []);
    var isSmallV := SplitUint(Digit(g.isSmall), 1, []);
    var lenV := SplitVector(g.len, 4, []);
    var fpLenV := SplitUint(g.fpLen, 4, []);
    var tV := SplitVector(g.t, 4, []);
    v := [memSizeV, memV, maV, mbV, habV, hdV, vfMemSizeV, eV, nV, mV, filledCellV, maxKickStepsV, max2PowerV, bigSegV,
          isSmallV, lenV, fpLenV, tV];
    ghost var parts := Parts(g);
    JoinedMerged(v, parts, 7, 0);
    PartsLaid(Joined(v, 0), 0, g, []);
  }

  lemma Capacities()
    ensures Pow2(8) == 256 && Pow2(32) == WRAP32 && Pow2(64) == TWO64
  {
    Pow2Of64();
    assert Pow2(8) == 256;
    assert Pow2(16) == 0x1_0000;
    assert Pow2(24) == 0x100_0000;
    assert Pow2(32) == WRAP32;
  }

  /** What is ahead of the reader: the parts from the `k`-th on. */
  ghost predicate Ahead(data: Bytes, offset: nat, parts: seq<Bytes>, k: nat, tail: Bytes) {
    offset <= |data| && k <= |parts| && data[offset..] == Joined(parts, k) + tail
  }

  /** A part that is one number. */
  lemma PartLaid(data: Bytes, offset: nat, n: nat, x: nat, parts: seq<Bytes>, k: nat, tail: Bytes)
    requires n == 1 || n == 4 || n == 8
    requires Ahead(data, offset, parts, k, tail) && k < |parts| && parts[k] == BigEndian(x, n) && x < Limit(n)
    ensures NumberAt(data, offset, n, x) && Ahead(data, offset + n, parts, k + 1, tail)
  {
    hide BigEndian, Joined, Pow2, Number, Limit;
    LimitIsPower(n);
    JoinedStep(parts, k, tail);
    ReadBack(data, offset, n, x, Joined(parts, k + 1) + tail);
  }

  /** Several numbers one after the other. */
  lemma {:induction false} EachLaid(data: Bytes, offset: nat, n: nat, xs: seq<nat>, i: nat, more: Bytes)
    requires n == 1 || n == 4 || n == 8
    requires i <= |xs| && FitsIn(xs, Limit(n)) && Follows(data, offset + n * i, EachByte(xs[i..], n) + more)
    ensures offset + n * |xs| <= |data| && Follows(data, offset + n * |xs|, more)
    ensures forall j :: i <= j < |xs| ==> NumberAt(data, offset + n * j, n, xs[j])
    decreases |xs| - i
  {
    hide BigEndian, Pow2, Number, Limit, EachByte;
    if i == |xs| {
      EachNone(xs[i..], n, more);
    } else {
      LimitIsPower(n);
      EachFirst(xs[i..], n, more);
      assert xs[i..][1..] == xs[i + 1..];
      ReadBack(data, offset + n * i, n, xs[i], EachByte(xs[i + 1..], n) + more);
      assert n * i + n == n * (i + 1);
      EachLaid(data, offset, n, xs, i + 1, more);
    }
  }

  lemma EachFirst(xs: seq<nat>, n: nat, more: Bytes)
    requires xs != []
    ensures EachByte(xs, n) + more == BigEndian(xs[0], n) + (EachByte(xs[1..], n) + more)
  {
    hide BigEndian;
  }

  lemma EachNone(xs: seq<nat>, n: nat, more: Bytes)
    requires xs == []
    ensures EachByte(xs, n) + more == more
  {
  }

  /** A part that is several numbers. */
  lemma NumbersLaid(data: Bytes, offset: nat, n: nat, xs: seq<nat>, parts: seq<Bytes>, k: nat, tail: Bytes)
    requires n == 1 || n == 4 || n == 8
    requires Ahead(data, offset, parts, k, tail) && k < |parts| && parts[k] == EachByte(xs, n) && FitsIn(xs, Limit(n))
    ensures NumbersAt(data, offset, n, xs) && Ahead(data, offset + n * |xs|, parts, k + 1, tail)
  {
    hide Joined, Number, Limit, EachByte, FitsIn;
    JoinedStep(parts, k, tail);
    assert xs[0..] == xs;
    EachLaid(data, offset, n, xs, 0, Joined(parts, k + 1) + tail);
  }

  /** The parts one after the other are a full update. */
  lemma PartsLaid(data: Bytes, o: nat, g: Image, tail: Bytes)
    requires Encodable(g) && Follows(data, o, Joined(Parts(g), 0) + tail)
    ensures Laid(data, o, g)
    ensures tail == [] ==> |data| == o + 85 + 8 * |g.mem| + |Decimal(g.e)| + 4 * |g.t|
  {
    hide BigEndian, EachByte, Decimal, Joined, FitsIn, NumberAt, NumbersAt, Limit;
    OthelloParts(data, o, g, tail);
    EngineParts(data, o + 24 + 8 * |g.mem|, g, tail);
    FilterParts(data, o + 36 + 8 * |g.mem| + |Decimal(g.e)|, g, tail);
    JoinedEnd(Parts(g), tail);
  }

  lemma JoinedEnd(parts: seq<Bytes>, tail: Bytes)
    ensures Joined(parts, |parts|) + tail == tail
  {
  }

  lemma OthelloParts(data: Bytes, o: nat, g: Image, tail: Bytes)
    requires Encodable(g) && Ahead(data, o, Parts(g), 0, tail)
    ensures OthelloLaid(data, o, g) && Ahead(data, o + 24 + 8 * |g.mem|, Parts(g), 6, tail)
  {
    hide BigEndian, EachByte, Decimal, Joined, FitsIn, NumberAt, NumbersAt, Ahead;
    var parts, c := Parts(g), |g.mem|;
    PartLaid(data, o, 4, c, parts, 0, tail);
    NumbersLaid(data, o + 4, 8, g.mem, parts, 1, tail);
    PartLaid(data, o + 4 + 8 * c, 4, g.ma, parts, 2, tail);
    PartLaid(data, o + 8 + 8 * c, 4, g.mb, parts, 3, tail);
    PartLaid(data, o + 12 + 8 * c, 8, g.hab, parts, 4, tail);
    PartLaid(data, o + 20 + 8 * c, 4, g.hd, parts, 5, tail);
  }

  lemma EngineParts(data: Bytes, o: nat, g: Image, tail: Bytes)
    requires Encodable(g) && Ahead(data, o, Parts(g), 6, tail)
    ensures EngineLaid(data, o, g) && Ahead(data, o + 12 + |Decimal(g.e)|, Parts(g), 9, tail)
  {
    hide BigEndian, EachByte, Decimal, Joined, FitsIn, NumberAt, NumbersAt, Ahead;
    var parts := Parts(g);
    TextFits(g.e);
    PartLaid(data, o, 8, g.memoryConsumption, parts, 6, tail);
    PartLaid(data, o + 8, 4, |Decimal(g.e)|, parts, 7, tail);
    NumbersLaid(data, o + 12, 1, Decimal(g.e), parts, 8, tail);
  }

  lemma FilterParts(data: Bytes, o: nat, g: Image, tail: Bytes)
    requires Encodable(g) && Ahead(data, o, Parts(g), 9, tail)
    ensures FilterLaid(data, o, g) && Ahead(data, o + 49 + 4 * |g.t|, Parts(g), 19, tail)
  {
    hide BigEndian, EachByte, Decimal, Joined, FitsIn, NumberAt, NumbersAt, Ahead;
    var parts := Parts(g);
    PartLaid(data, o, 8, g.n, parts, 9, tail);
    PartLaid(data, o + 8, 4, g.m, parts, 10, tail);
    PartLaid(data, o + 12, 4, ToUnsigned(g.filledCell), parts, 11, tail);
    PartLaid(data, o + 16, 4, g.maxKickSteps, parts, 12, tail);
    PartLaid(data, o + 20, 4, g.max2Power, parts, 13, tail);
    PartLaid(data, o + 24, 4, g.bigSeg, parts, 14, tail);
    PartLaid(data, o + 28, 1, Digit(g.isSmall), parts, 15, tail);
    NumbersLaid(data, o + 29, 4, g.len, parts, 16, tail);
    PartLaid(data, o + 45, 4, g.fpLen, parts, 17, tail);
    NumbersLaid(data, o + 49, 4, g.t, parts, 18, tail);
  }

  // ---- Decoding ----

  /** The Othello fields of `decode_full`. */
  method DecodeOthello(data: Bytes, ghost g: Image)
    returns (r: Option<(seq<nat>, nat, nat, nat, nat)>, offset: nat)
    ensures OthelloLaid(data, 1, g) ==>
              r == Some((g.mem, g.ma, g.mb, g.hab, g.hd)) && offset == 25 + 8 * |g.mem|
  {
    hide Number;
    offset := 1;
    var memSize, ma, mb, habPara, hdPara;
    var mem;
    memSize, offset :- Read(data, offset, 4);
    mem, offset :- ReadMany(data, offset, memSize, 8);
    if OthelloLaid(data, 1, g) { SameNumbers(data, 5, 8, g.mem, mem); }
    ma, offset :- Read(data, offset, 4);
    mb, offset :- Read(data, offset, 4);
    habPara, offset :- Read(data, offset, 8);
    hdPara, offset :- Read(data, offset, 4);
    r := Some((mem, ma, mb, habPara, hdPara));
  }

  /** The bytes allocated and the engine state. */
  method DecodeEngine(data: Bytes, offset: nat, ghost g: Image) returns (r: Option<(nat, nat)>, offset': nat)
    ensures EngineLaid(data, offset, g) ==>
              r == Some((g.memoryConsumption, g.e)) && offset' == offset + 12 + |Decimal(g.e)|
  {
    hide Number, ParseDecimal, Decimal;
    ParseText(g.e);
    offset' := offset;
    var memoryConsumption, essLength;
    var eState;
    memoryConsumption, offset' :- Read(data, offset', 8);
    essLength, offset' :- Read(data, offset', 4);
    eState, offset' :- ReadMany(data, offset', essLength, 1);
    if EngineLaid(data, offset, g) { SameNumbers(data, offset + 12, 1, Decimal(g.e), eState); }
    r := Some((memoryConsumption, ParseDecimal(eState)));
  }

  /** `decode_full`: on a full update of any `g`, whatever follows it, the result is `g`. */
  method DecodeFull(data: Bytes, ghost g: Image) returns (r: Option<Image>)
    ensures Laid(data, 1, g) ==> r == Some(g)
  {
    hide Number, Decimal, FitsIn;
    ghost var laid := Laid(data, 1, g);
    var offset;
    var o: (seq<nat>, nat, nat, nat, nat);
    var c: (nat, nat);
    o, offset :- DecodeOthello(data, g);
    c, offset :- DecodeEngine(data, offset, g);
    ghost var start := offset;
    var n, m, filledCell, maxKickSteps, max2Power, bigSeg, isSmall, fpLen;
    var len, t;
    n, offset :- Read(data, offset, 8);
    m, offset :- Read(data, offset, 4);
    filledCell, offset :- Read(data, offset, 4);
    maxKickSteps, offset :- Read(data, offset, 4);
    max2Power, offset :- Read(data, offset, 4);
    bigSeg, offset :- Read(data, offset, 4);
    isSmall, offset :- Read(data, offset, 1);
    len, offset :- ReadMany(data, offset, 4, 4);
    if laid { SameNumbers(data, start + 29, 4, g.len, len); }
    fpLen, offset :- Read(data, offset, 4);
    t, offset :- ReadMany(data, offset, c.0 / 4, 4);
    if laid { SameNumbers(data, start + 49, 4, g.t, t); }
    r := Some(Image(o.0, o.1, o.2, o.3, o.4, c.0, c.1, n, m, ToSigned(filledCell), maxKickSteps, max2Power, bigSeg,
                    isSmall != 0, len, fpLen, t));
  }

  lemma TextFits(e: nat)
    ensures FitsIn(Decimal(e), 256)
  {
  }

  // ---- Delta updates ----

  /** A key with its value and what was done to it. */
  datatype Change = Change(action: uint8, k: uint64, v: uint32)

  const ADD_ACTION: uint8 := 0
  const UNREVOKE_ACTION: uint8 := 2
  const REVOKE_ACTION: uint8 := 3

  /** What the client gets to see of a change. */
  datatype Record = Record(change: Change, flips: seq<nat>)

  /** The flips a client gets to see: their number is sent in one byte. */
  function Sent(flips: seq<nat>): (r: seq<nat>)
    ensures r <= flips
  {
    flips[..|flips| % 256]
  }

  function Dropped(flips: seq<nat>): seq<nat> {
    flips[|flips| % 256..]
  }

  /** One summary: action, key, value, number of flips in one byte, flips. */
  function SummaryBytes(c: Change, flips: seq<nat>): Bytes {
    [c.action] + BigEndian(c.k, 8) + BigEndian(c.v, 4) + [|flips| % 256] + EachByte(flips, 4)
  }

  function ChangesBytes(cs: seq<Change>, flips: seq<nat>): Bytes {
    if cs == [] then [] else ChangesBytes(cs[..|cs| - 1], flips) + SummaryBytes(cs[|cs| - 1], flips)
  }

  function BatchBytes(cs: seq<Change>, flips: seq<nat>): Bytes {
    [|cs| % 256] + ChangesBytes(cs, flips)
  }

  /** `encode_summary`. */
  method EncodeSummary(c: Change, flips: seq<nat>) returns (encoded: Bytes)
    ensures encoded == SummaryBytes(c, flips)
  {
    hide BigEndian, EachByte;
    encoded := [c.action];
    encoded := SplitUint(c.k, 8, encoded);
    encoded := SplitUint(c.v, 4, encoded);
    encoded := encoded + [|flips| % 256];
    encoded := SplitVector(flips, 4, encoded);
  }

  /** `encode_batch_summary`; `None` stands for the exception on lists of different length. */
  method EncodeBatchSummary(pairs: seq<(uint64, uint32)>, actions: seq<uint8>, flips: seq<nat>)
      returns (r: Option<Bytes>)
    ensures r == if |pairs| != |actions| then None else Some(BatchBytes(Changes(pairs, actions), flips))
  {
    hide SummaryBytes;
    if |pairs| != |actions| {
      return None;
    }
    ghost var cs := Changes(pairs, actions);
    var encoded := [|actions| % 256];
    for i := 0 to |actions|
      invariant encoded == [|cs| % 256] + ChangesBytes(cs[..i], flips)
    {
      assert cs[..i + 1][..i] == cs[..i];
      var sub := EncodeSummary(Change(actions[i], pairs[i].0, pairs[i].1), flips);
      encoded := encoded + sub;
    }
    assert cs[..|cs|] == cs;
    r := Some(encoded);
  }

  function Changes(pairs: seq<(uint64, uint32)>, actions: seq<uint8>): seq<Change>
    requires |pairs| == |actions|
  {
    seq(|pairs|, i requires 0 <= i < |pairs| => Change(actions[i], pairs[i].0, pairs[i].1))
  }

  function ParseFlips(data: Bytes, offset: nat, count: nat): (r: seq<nat>)
    requires offset + 4 * count <= |data|
    ensures |r| == count
  {
    if count == 0 then [] else ParseFlips(data, offset, count - 1) + [Combine32(data, offset + 4 * (count - 1))]
  }

  /** One summary at `offset`, and where the next one starts; `None` when the data end before. */
  function ParseSummary(data: Bytes, offset: nat): Option<(Record, nat)> {
    if offset + 14 > |data| then None
    else
      var count: nat := data[offset + 13];
      if offset + 14 + 4 * count > |data| then None
      else
        var c := Change(data[offset], Key64(data, offset + 1), Value32(data, offset + 9));
        Some((Record(c, ParseFlips(data, offset + 14, count)), offset + 14 + 4 * count))
  }

  function Key64(data: Bytes, offset: nat): uint64
    requires offset + 8 <= |data|
  {
    Combine64Below(data, offset);
    Combine64(data, offset)
  }

  function Value32(data: Bytes, offset: nat): uint32
    requires offset + 4 <= |data|
  {
    Combine32Below(data, offset);
    Combine32(data, offset)
  }

  lemma {:induction false} NumberBelow(s: Bytes)
    ensures Number(s) < Pow2(8 * |s|)
  {
    hide Shl, Pow2;
    if s == [] {
      NoShift();
    } else {
      NumberBelow(s[..|s| - 1]);
      Eight();
      JoinBound(s[|s| - 1], Number(s[..|s| - 1]), 8, 8 * (|s| - 1));
    }
  }

  lemma Combine64Below(data: Bytes, offset: nat)
    requires offset + 8 <= |data|
    ensures Combine64(data, offset) < TWO64
  {
    hide Combine64, Number, Pow2;
    Capacities();
    Combine64IsNumber(data, offset);
    NumberBelow(data[offset..offset + 8]);
  }

  lemma Combine32Below(data: Bytes, offset: nat)
    requires offset + 4 <= |data|
    ensures Combine32(data, offset) < WRAP32
  {
    hide Combine32, Number, Pow2;
    Capacities();
    Combine32IsNumber(data, offset);
    NumberBelow(data[offset..offset + 4]);
  }

  function ParseSummaries(data: Bytes, offset: nat, count: nat): Option<(seq<Record>, nat)>
    decreases count
  {
    if count == 0 then Some(([], offset))
    else
      match ParseSummaries(data, offset, count - 1)
      case None => None
      case Some((rs, next)) =>
        match ParseSummary(data, next)
        case None => None
        case Some((r, end)) => Some((rs + [r], end))
  }

  /** All records of a batch, and how many bytes they took. */
  function ParseBatch(data: Bytes): Option<(seq<Record>, nat)> {
    if data == [] then None else ParseSummaries(data, 1, data[0])
  }

  /** `decode_sub_summary` up to the dispatch on the action. */
  method DecodeSubSummary(data: Bytes, offset: nat) returns (r: Option<(Record, nat)>)
    ensures r == ParseSummary(data, offset)
  {
    hide Combine32, Combine64;
    if offset + 14 > |data| {
      return None;
    }
    var action := data[offset];
    var k := Key64(data, offset + 1);
    var v := Value32(data, offset + 9);
    var flippedIndexesSize := data[offset + 13];
    var next := offset + 14;
    var flips: seq<nat> := [];
    for i := 0 to flippedIndexesSize
      invariant next == offset + 14 + 4 * i && next <= |data|
      invariant flips == ParseFlips(data, offset + 14, i)
    {
      if next + 4 > |data| {
        return None;
      }
      flips := flips + [Combine32(data, next)];
      next := next + 4;
    }
    r := Some((Record(Change(action, k, v), flips), next));
  }

  /** `decode_batch_summary` as far as reading is concerned. */
  method DecodeBatchSummary(data: Bytes) returns (r: Option<(seq<Record>, nat)>)
    ensures r == ParseBatch(data)
  {
    hide ParseSummary;
    if data == [] {
      return None;
    }
    var numActions := data[0];
    var records: seq<Record>, offset: nat := [], 1;
    for i := 0 to numActions
      invariant ParseSummaries(data, 1, i) == Some((records, offset))
    {
      var sub := DecodeSubSummary(data, offset);
      if sub == None {
        ParseStuck(data, 1, i + 1, numActions);
        return None;
      }
      records := records + [sub.value.0];
      offset := sub.value.1;
    }
    r := Some((records, offset));
  }

  lemma {:induction false} ParseStuck(data: Bytes, offset: nat, i: nat, n: nat)
    requires i <= n && ParseSummaries(data, offset, i) == None
    ensures ParseSummaries(data, offset, n) == None
    decreases n
  {
    hide ParseSummary;
    if i < n { ParseStuck(data, offset, i, n - 1); }
  }

  // ---- Delta round trip ----

  /** What the client should see of a batch. */
  function Records(cs: seq<Change>, flips: seq<nat>): (r: seq<Record>)
    ensures |r| == |cs|
  {
    seq(|cs|, i requires 0 <= i < |cs| => Record(cs[i], flips))
  }

  lemma {:induction false} ParseFlipsBack(data: Bytes, offset: nat, flips: seq<nat>, count: nat)
    requires FitsIn(flips, WRAP32) && count <= |flips|
    requires offset <= |data| && EachByte(flips, 4) <= data[offset..]
    ensures offset + 4 * count <= |data| && ParseFlips(data, offset, count) == flips[..count]
  {
    hide Combine32, EachByte, FitsIn;
    if count > 0 {
      ParseFlipsBack(data, offset, flips, count - 1);
      FlipBack(data, offset, flips, count - 1);
    }
  }

  /** Number `i` is read back. */
  lemma FlipBack(data: Bytes, offset: nat, flips: seq<nat>, i: nat)
    requires FitsIn(flips, WRAP32) && i < |flips|
    requires offset <= |data| && EachByte(flips, 4) <= data[offset..]
    ensures offset + 4 * i + 4 <= |data| && Combine32(data, offset + 4 * i) == flips[i]
  {
    hide BigEndian, Combine32, EachByte, Number, Pow2, FitsIn;
    EachAt(flips, i);
    BytesWithin(data, offset, EachByte(flips, 4), 4 * i, 4);
    Combine32IsNumber(data, offset + 4 * i);
    FourBytes(flips, i);
  }

  lemma FourBytes(flips: seq<nat>, i: nat)
    requires FitsIn(flips, WRAP32) && i < |flips|
    ensures Number(BigEndian(flips[i], 4)) == flips[i]
  {
    hide BigEndian, Number, Pow2;
    Capacities();
    NumberOfBytes(flips[i], 4);
  }

  lemma BytesWithin(data: Bytes, offset: nat, s: Bytes, i: nat, n: nat)
    requires offset <= |data| && s <= data[offset..] && i + n <= |s|
    ensures offset + i + n <= |data| && data[offset + i..offset + i + n] == s[i..i + n]
  {
    assert data[offset..][i..i + n] == s[i..i + n];
  }

  /** Number `i` of a list sits at byte `4 * i`. */
  lemma {:induction false} EachAt(xs: seq<nat>, i: nat)
    requires i < |xs|
    ensures 4 * i + 4 <= |EachByte(xs, 4)| && EachByte(xs, 4)[4 * i..4 * i + 4] == BigEndian(xs[i], 4)
  {
    hide BigEndian;
    if i > 0 {
      EachAt(xs[1..], i - 1);
      var rest := EachByte(xs[1..], 4);
      assert EachByte(xs, 4)[4 * i..4 * i + 4] == rest[4 * (i - 1)..4 * (i - 1) + 4];
    }
  }

  lemma {:induction false} EachLength(xs: seq<nat>)
    ensures |EachByte(xs, 4)| == 4 * |xs|
  {
    hide BigEndian;
    if xs != [] { EachLength(xs[1..]); }
  }

  /** The fixed part of a summary. */
  lemma HeadBack(data: Bytes, offset: nat, c: Change, flips: seq<nat>)
    requires offset <= |data| && SummaryBytes(c, flips) <= data[offset..]
    ensures offset + 14 + 4 * |flips| <= |data| && data[offset] == c.action && data[offset + 13] == |flips| % 256
    ensures Combine64(data, offset + 1) == c.k && Combine32(data, offset + 9) == c.v
    ensures |SummaryBytes(c, flips)| == 14 + 4 * |flips| && EachByte(flips, 4) <= data[offset + 14..]
  {
    hide BigEndian, Combine32, Combine64, EachByte, Number, Pow2;
    EachLength(flips);
    Capacities();
    NumberOfBytes(c.k, 8);
    NumberOfBytes(c.v, 4);
    var s := SummaryBytes(c, flips);
    assert s[1..9] == BigEndian(c.k, 8) && s[9..13] == BigEndian(c.v, 4);
    BytesWithin(data, offset, s, 1, 8);
    BytesWithin(data, offset, s, 9, 4);
    Combine64IsNumber(data, offset + 1);
    Combine32IsNumber(data, offset + 9);
    assert data[offset..][0] == s[0] && data[offset..][13] == s[13];
    assert data[offset + 14..] == data[offset..][14..];
  }

  /** A summary is read back, but for the flips beyond what its counter says. */
  lemma ParseSummaryBack(data: Bytes, offset: nat, c: Change, flips: seq<nat>)
    requires offset <= |data| && SummaryBytes(c, flips) <= data[offset..] && FitsIn(flips, WRAP32)
    ensures var count := |flips| % 256;
            ParseSummary(data, offset) == Some((Record(c, Sent(flips)), offset + 14 + 4 * count))
    ensures |SummaryBytes(c, flips)| == 14 + 4 * |flips|
  {
    hide BigEndian, Combine32, Combine64, EachByte, ParseFlips, SummaryBytes;
    HeadBack(data, offset, c, flips);
    ParseFlipsBack(data, offset + 14, flips, |flips| % 256);
  }

  /** Reading `count` summaries back, one by one. */
  lemma {:induction false} ParseSummariesBack(data: Bytes, offset: nat, cs: seq<Change>, flips: seq<nat>, count: nat)
    requires FitsIn(flips, WRAP32) && |flips| <= 255 && count <= |cs|
    requires offset <= |data| && ChangesBytes(cs, flips) <= data[offset..]
    ensures ParseSummaries(data, offset, count)
        == Some((Records(cs[..count], flips), offset + |ChangesBytes(cs[..count], flips)|))
    decreases count
  {
    hide SummaryBytes, ParseSummary;
    if count > 0 {
      var i := count - 1;
      ParseSummariesBack(data, offset, cs, flips, i);
      ChangesSplit(cs, flips, i);
      assert cs[..count][..i] == cs[..i];
      var before, sub := ChangesBytes(cs[..i], flips), SummaryBytes(cs[i], flips);
      SummaryAhead(data, offset, ChangesBytes(cs, flips), before, sub);
      ParseSummaryBack(data, offset + |before|, cs[i], flips);
      assert Sent(flips) == flips;
      assert ChangesBytes(cs[..count], flips) == before + sub;
      assert Records(cs[..count], flips) == Records(cs[..i], flips) + [Record(cs[i], flips)];
    }
  }

  lemma SummaryAhead(data: Bytes, offset: nat, all: Bytes, before: Bytes, sub: Bytes)
    requires offset <= |data| && all <= data[offset..] && before + sub <= all
    ensures offset + |before| + |sub| <= |data| && sub <= data[offset + |before|..]
  {
    assert data[offset + |before|..] == data[offset..][|before|..];
    assert data[offset..][..|before + sub|] == before + sub;
    assert sub == (before + sub)[|before|..];
  }

  lemma {:induction false} ChangesSplit(cs: seq<Change>, flips: seq<nat>, i: nat)
    requires i < |cs|
    ensures ChangesBytes(cs[..i], flips) + SummaryBytes(cs[i], flips) <= ChangesBytes(cs, flips)
    decreases |cs|
  {
    hide SummaryBytes;
    var n := |cs| - 1;
    if i < n {
      ChangesSplit(cs[..n], flips, i);
      assert cs[..n][..i] == cs[..i];
    }
  }

  /** A batch, field by field: the number of changes in one byte, then for each of them action, key,
      value, the number of flips in one byte, and the flips, which all changes have in common. */
  lemma BatchLayout(cs: seq<Change>, flips: seq<nat>, i: nat, o: nat)
    requires i < |cs| && o == 1 + i * (14 + 4 * |flips|)
    ensures var b := BatchBytes(cs, flips);
            && o + 14 + 4 * |flips| <= |b| && b[0] == |cs| % 0x100
            && b[o] == cs[i].action && NumberAt(b, o + 1, 8, cs[i].k) && NumberAt(b, o + 9, 4, cs[i].v)
            && b[o + 13] == |flips| % 0x100
            && (FitsIn(flips, WRAP32) ==> NumbersAt(b, o + 14, 4, flips))
  {
    hide SummaryBytes, FitsIn, Combine32, Combine64, Number, EachByte;
    var b := BatchBytes(cs, flips);
    assert b[1..] == ChangesBytes(cs, flips);
    ChangesSplit(cs, flips, i);
    ChangesLength(cs[..i], flips);
    SummaryAhead(b, 1, ChangesBytes(cs, flips), ChangesBytes(cs[..i], flips), SummaryBytes(cs[i], flips));
    HeadBack(b, o, cs[i], flips);
    Combine64IsNumber(b, o + 1);
    Combine32IsNumber(b, o + 9);
    if FitsIn(flips, WRAP32) {
      forall j | 0 <= j < |flips| ensures NumberAt(b, o + 14 + 4 * j, 4, flips[j]) {
        FlipBack(b, o + 14, flips, j);
        Combine32IsNumber(b, o + 14 + 4 * j);
      }
    }
  }

  lemma {:induction false} ChangesLength(cs: seq<Change>, flips: seq<nat>)
    ensures |ChangesBytes(cs, flips)| == |cs| * (14 + 4 * |flips|)
  {
    hide SummaryBytes;
    if cs != [] {
      ChangesLength(cs[..|cs| - 1], flips);
      SummaryLength(cs[|cs| - 1], flips);
      assert |cs| * (14 + 4 * |flips|) == (|cs| - 1) * (14 + 4 * |flips|) + (14 + 4 * |flips|);
    }
  }

  lemma SummaryLength(c: Change, flips: seq<nat>)
    ensures |SummaryBytes(c, flips)| == 14 + 4 * |flips|
  {
    hide BigEndian, EachByte;
    EachLength(flips);
  }

  /** Delta round trip: the client recovers exactly the changes and flips of a batch, whatever
      follows it, and consumes exactly its bytes, if and only if the two one-byte counters
      suffice. */
  lemma DeltaRoundTrip(cs: seq<Change>, flips: seq<nat>, tail: Bytes)
    requires FitsIn(flips, WRAP32)
    ensures ParseBatch(BatchBytes(cs, flips) + tail) == Some((Records(cs, flips), |BatchBytes(cs, flips)|))
            <==> |cs| <= 255 && (cs == [] || |flips| <= 255)
  {
    hide SummaryBytes, ParseSummary;
    var data := BatchBytes(cs, flips) + tail;
    assert data[1..] == ChangesBytes(cs, flips) + tail;
    if |cs| <= 255 && |flips| <= 255 {
      ParseSummariesBack(data, 1, cs, flips, |cs|);
      assert cs[..|cs|] == cs;
    } else if |cs| <= 255 && cs != [] {
      FirstFlipsLost(data, cs, flips);
    } else {
      ParseCount(data, 1, data[0]);
    }
  }

  /** A single change reaches the client with any number of flips, but the client gets to see only
      as many of them as the last byte of their number says. */
  lemma SingleDelta(cs: seq<Change>, flips: seq<nat>, tail: Bytes)
    requires |cs| == 1 && FitsIn(flips, WRAP32)
    ensures ReadsOne(ParseBatch(BatchBytes(cs, flips) + tail), Record(cs[0], Sent(flips)))
  {
    hide SummaryBytes, ParseSummary;
    var data := BatchBytes(cs, flips) + tail;
    assert data[1..] == ChangesBytes(cs, flips) + tail;
    ChangesSplit(cs, flips, 0);
    SummaryAhead(data, 1, ChangesBytes(cs, flips), [], SummaryBytes(cs[0], flips));
    ParseSummaryBack(data, 1, cs[0], flips);
    ParseOne(data, 1, 1);
  }

  ghost predicate ReadsOne(read: Option<(seq<Record>, nat)>, r: Record) {
    read.Some? && read.value.0 == [r]
  }

  lemma ParseOne(data: Bytes, offset: nat, count: nat)
    requires count == 1 && ParseSummary(data, offset).Some?
    ensures ReadsOne(ParseSummaries(data, offset, count), ParseSummary(data, offset).value.0)
  {
    hide ParseSummary;
    assert ParseSummaries(data, offset, count - 1) == Some(([], offset));
  }

  lemma {:induction false} ParseCount(data: Bytes, offset: nat, count: nat)
    ensures ParseSummaries(data, offset, count) != None ==> |ParseSummaries(data, offset, count).value.0| == count
    decreases count
  {
    hide ParseSummary;
    if count > 0 { ParseCount(data, offset, count - 1); }
  }

  /** The first record of whatever is read. */
  lemma {:induction false} ParseFirst(data: Bytes, offset: nat, count: nat)
    requires count > 0
    ensures ParseSummaries(data, offset, count) != None ==>
              && ParseSummary(data, offset) != None
              && |ParseSummaries(data, offset, count).value.0| == count
              && ParseSummaries(data, offset, count).value.0[0] == ParseSummary(data, offset).value.0
    decreases count
  {
    hide ParseSummary;
    ParseCount(data, offset, count - 1);
    if count > 1 { ParseFirst(data, offset, count - 1); }
  }

  lemma FirstFlipsLost(data: Bytes, cs: seq<Change>, flips: seq<nat>)
    requires FitsIn(flips, WRAP32) && 0 < |cs| <= 255 && |flips| > 255
    requires |data| > 0 && data[0] == |cs| && ChangesBytes(cs, flips) <= data[1..]
    ensures ParseBatch(data) != None ==> ParseBatch(data).value.0 != Records(cs, flips)
  {
    hide SummaryBytes, ParseSummary, ParseSummaries;
    ChangesSplit(cs, flips, 0);
    assert ChangesBytes(cs[..0], flips) == [];
    SummaryAhead(data, 1, ChangesBytes(cs, flips), [], SummaryBytes(cs[0], flips));
    ParseSummaryBack(data, 1, cs[0], flips);
    ParseFirst(data, 1, |cs|);
  }
}
