/** The vacuum filter as a value: what `insert`, `lookup` and `del` compute, and what that
    means for the fingerprints stored.  The generator state is part of the value, so two
    filters in the same state stay in the same state. */
module FilterModel {
  import opened Bits
  import opened PackedArray
  import opened SemiSort
  import opened Segments

  /** The hash functions and the random engine, which are not modelled further:
      `mix` scrambles an element, `tag` hashes it for the fingerprint, `spread` hashes a
      fingerprint, and the engine goes from state to state with `next`, giving `out`. */
  datatype Hashes = Hashes(mix: Key -> uint64, tag: uint64 -> uint64, spread: nat -> uint32, next: uint64 -> uint64,
      out: uint64 -> nat)

  datatype Filter = Filter(n: nat, fpLen: nat, maxKickSteps: nat, max2Power: nat,
                           encode: seq<nat>, decode: seq<nat>,
                           t: seq<nat>, e: uint64, filledCell: int)
  {
    /** Sizes and tables are those `init` sets up. */
    ghost predicate Shape() {
      && SmallSizes(n, max2Power) && 4 <= fpLen <= 16 && max2Power > 0
      && Words(t) && n * BucketBits(fpLen) <= WORD * |t|
      && Tables(encode, decode)
    }

    /** Every bucket holds sorted fingerprints of the right width. */
    ghost predicate Ok() {
      Shape() && forall p: nat :: p < n ==> SortedBucket(fpLen, Raw(p))
    }

    lemma Fits(p: nat)
      requires Shape() && p < n
      ensures BucketFits(t, fpLen, p) && |decode| == |encode| == TABLE
    {
      hide SmallSizes, Words, Tables, BucketBits;
      MulGap(p, n, BucketBits(fpLen));
      TableSizes(encode, decode);
    }

    function Raw(p: nat): (s: seq<nat>)
      requires Shape() && p < n
      ensures |s| == 4
    {
      Fits(p);
      hide Tables, SmallSizes, FieldGet, DecodeBucket;
      GetBucket(t, decode, fpLen, p)
    }

    /** `get_bucket` on bucket `p`. */
    function Take(p: nat): (s: seq<nat>)
      requires Ok() && p < n
      ensures |s| == 4
    {
      hide Raw;
      Raw(p)
    }

    lemma TakeSorted(p: nat)
      requires Ok() && p < n
      ensures SortedBucket(fpLen, Take(p)) && 4 <= fpLen
    {
    }

    /** `set_bucket` on bucket `p`. */
    function Put(p: nat, s: seq<nat>): (f: Filter)
      requires Ok() && p < n && Fingerprints(fpLen, s)
      ensures f == this.(t := f.t) && f.Ok()
      ensures forall q: nat :: q < n ==> f.Take(q) == if q == p then SortStore(s) else Take(q)
    {
      hide Shape, Ok, Take, Raw, SetBucket, Fingerprints;
      PutEffect(p, s);
      this.(t := SetBucket(t, encode, fpLen, p, s))
    }

    lemma PutEffect(p: nat, s: seq<nat>)
      requires Ok() && p < n && Fingerprints(fpLen, s)
      ensures BucketFits(t, fpLen, p) && |encode| == TABLE && |s| == 4
      ensures var f := this.(t := SetBucket(t, encode, fpLen, p, s));
              && f.Ok()
              && forall q: nat :: q < n ==> f.Take(q) == if q == p then SortStore(s) else Take(q)
    {
      Fits(p);
      var f := this.(t := SetBucket(t, encode, fpLen, p, s));
      SortedFits(fpLen, s);
      hide SetBucket, GetBucket, SortStore, SortedBucket, Words, Tables, SmallSizes;
      BucketLaws(t, encode, decode, fpLen, p, s, p);
      forall q: nat | q < n ensures f.Raw(q) == (if q == p then SortStore(s) else Raw(q)) {
        Fits(q);
        BucketLaws(t, encode, decode, fpLen, p, s, q);
      }
    }

    /** The same buckets with another engine state and cell count. */
    function With(e': uint64, filledCell': int): (f: Filter)
      requires Ok()
      ensures f == this.(e := e', filledCell := filledCell') && f.Ok()
      ensures forall q: nat :: q < n ==> f.Take(q) == Take(q)
    {
      hide Ok, Shape, Take;
      WithEffect(e', filledCell');
      this.(e := e', filledCell := filledCell')
    }

    lemma WithEffect(e': uint64, filledCell': int)
      requires Ok()
      ensures var f := this.(e := e', filledCell := filledCell');
              f.Ok() && forall q: nat :: q < n ==> f.Take(q) == Take(q)
    {
      hide SortedBucket, Words, Tables, SmallSizes, GetBucket, BucketBits;
      var f := this.(e := e', filledCell := filledCell');
      forall q: nat | q < n ensures f.Raw(q) == Raw(q) && SortedBucket(fpLen, f.Raw(q)) {
        assert SortedBucket(fpLen, Raw(q));
      }
    }

    // ---- Where an element belongs ----

    function Fingerprint(h: Hashes, x: uint64): (fp: nat)
      requires fpLen >= 4
      ensures 0 < fp < Pow2(fpLen)
    {
      h.tag(x) % (Pow2(fpLen) - 1) + 1
    }

    /** Two elements have the same fingerprint exactly when their hashes are congruent, and small
        hashes are told apart: the fingerprint is the hash plus 1. */
    lemma FingerprintByTag(h: Hashes, x: uint64, y: uint64)
      requires fpLen >= 4
      ensures Pow2(fpLen) > 1
      ensures Fingerprint(h, x) == Fingerprint(h, y) <==> (h.tag(x) - h.tag(y)) % (Pow2(fpLen) - 1) == 0
      ensures h.tag(x) < Pow2(fpLen) - 1 ==> Fingerprint(h, x) == h.tag(x) + 1
    {
      LongPrints();
      hide Pow2;
      Congruent(h.tag(x), h.tag(y), Pow2(fpLen) - 1);
      if h.tag(x) < Pow2(fpLen) - 1 { DivModUnique(h.tag(x), Pow2(fpLen) - 1, 0, h.tag(x)); }
    }

    lemma LongPrints()
      requires fpLen >= 4
      ensures Pow2(fpLen) > 1
    {
    }

    /** The bucket of an element is congruent to it as a signed number. */
    lemma PositionCongruent(x: uint64)
      requires n > 0
      ensures var ele := if x < 0x8000_0000_0000_0000 then x else x - 0x1_0000_0000_0000_0000;
              (ele - Position(x)) % n == 0
    {
      var ele := if x < 0x8000_0000_0000_0000 then x else x - TWO64;
      var rem := if ele >= 0 then ele % n else -((-ele) % n);
      var p := Position(x);
      assert p == (rem + n) % n;
      hide Filter.Position;
      WholeMultiple(ele, rem, n);
      Reduced(rem, n);
      SumOfMultiples(ele - rem, rem - p, n);
    }

    /** `position_hash`: the element as a signed number, reduced with C++ `%`. */
    function Position(x: uint64): (p: nat)
      requires n > 0
      ensures p < n
    {
      var ele := if x < 0x8000_0000_0000_0000 then x else x - TWO64;
      var rem := if ele >= 0 then ele % n else -((-ele) % n);
      (rem + n) % n
    }

    /** `alternate`. */
    function Alt(h: Hashes, p: nat, fp: nat): (q: nat)
      requires Ok() && p < n
      ensures q < n
    {
      hide Alternate, SmallSizes, Words, Tables, SortedBucket;
      AlternateInvolutive(n, max2Power, h.spread(fp), p);
      Alternate(n, max2Power, h.spread(fp), p)
    }

    lemma AltBack(h: Hashes, p: nat, fp: nat)
      requires Ok() && p < n
      ensures Alt(h, p, fp) != p && Alt(h, Alt(h, p, fp), fp) == p
    {
      hide Alternate, SmallSizes, Words, Tables, SortedBucket;
      AlternateInvolutive(n, max2Power, h.spread(fp), p);
    }

    /** What the alternate bucket of a fingerprint has to do with its hash: see `AlternateDigits`. */
    lemma AltDigits(h: Hashes, pos: nat, fp: nat, p: nat, q: nat, k: nat)
      requires Ok() && pos < n && max2Power > 0
      requires p == (pos + h.spread(fp) % max2Power) % n && q == (Alt(h, pos, fp) + h.spread(fp) % max2Power) % n
      requires Bit(p, k) != Bit(n, k) && forall j: nat :: j > k ==> Bit(p, j) == Bit(n, j)
      ensures forall i: nat :: Bit(p, i) != Bit(q, i) <==>
                if HasDigit(h.spread(fp), max2Power, k) then InSegment(h.spread(fp), max2Power, k, i) else i == 0
    {
      hide Alternate, SmallSizes, Words, Tables, SortedBucket, Bit, HasDigit, InSegment;
      AlternateDigits(n, max2Power, h.spread(fp), pos, p, q, k);
    }

    lemma Sizes()
      requires Ok()
      ensures n >= 2 && 4 <= fpLen
    {
      hide Words, Tables, SortedBucket;
    }
  }

  // ---- The operations ----

  /** Number of occupied slots: `store[4]`. */
  function Count(s: seq<nat>): (c: nat)
    requires |s| == 4
    ensures c <= 4
  {
    Digit(s[0] != 0) + Digit(s[1] != 0) + Digit(s[2] != 0) + Digit(s[3] != 0)
  }

  /** First slot of `s` from `j` on whose fingerprint has room in its other bucket; 4 if none. */
  function FindRoom(h: Hashes, f: Filter, alt: nat, s: seq<nat>, j: nat): (k: nat)
    requires f.Ok() && alt < f.n && |s| == 4 && j <= 4
    ensures j <= k <= 4 && (k < 4 ==> Count(f.Take(f.Alt(h, alt, s[k]))) < 4)
    decreases 4 - j
  {
    hide Filter.Ok, Filter.Take, Filter.Alt, Count;
    if j == 4 then 4
    else if Count(f.Take(f.Alt(h, alt, s[j]))) < 4 then j
    else FindRoom(h, f, alt, s, j + 1)
  }

  /** A real fingerprint: 0 marks an empty slot. */
  ghost predicate IsPrint(f: Filter, fp: nat) {
    0 < fp < Pow2(f.fpLen)
  }

  lemma SlotFits(f: Filter, p: nat, i: nat, fp: nat)
    requires f.Ok() && p < f.n && i < 4 && fp < Pow2(f.fpLen)
    ensures Fingerprints(f.fpLen, f.Take(p)[i := fp])
  {
    hide Filter.Ok, Filter.Take, Pow2;
    f.TakeSorted(p);
  }

  /** Overwrites slot `i` of bucket `p`. */
  function Overwrite(f: Filter, p: nat, i: nat, fp: nat): (r: Filter)
    requires f.Ok() && p < f.n && i < 4 && fp < Pow2(f.fpLen)
    ensures r.Ok() && r == f.(t := r.t)
    ensures forall q: nat :: q < f.n ==> r.Take(q) == if q == p then SortStore(f.Take(p)[i := fp]) else f.Take(q)
  {
    hide Filter.Ok, Filter.Take, Filter.Put, SortStore, Pow2, Fingerprints;
    SlotFits(f, p, i, fp);
    f.Put(p, f.Take(p)[i := fp])
  }

  /** `insert_to_bucket` and `set_bucket`: a new fingerprint in the free last slot. */
  function Place(f: Filter, p: nat, fp: nat): (r: Filter)
    requires f.Ok() && p < f.n && IsPrint(f, fp)
    ensures r.Ok() && r == f.(t := r.t, filledCell := f.filledCell + 1)
    ensures forall q: nat :: q < f.n ==> r.Take(q) == if q == p then SortStore(f.Take(p)[3 := fp]) else f.Take(q)
  {
    hide Filter.Ok, Filter.Take, Filter.With, Overwrite, SortStore, Pow2;
    Overwrite(f.With(f.e, f.filledCell + 1), p, 3, fp)
  }

  lemma FullSlots(f: Filter, p: nat, i: nat)
    requires f.Ok() && p < f.n && i < 4 && Count(f.Take(p)) == 4
    ensures IsPrint(f, f.Take(p)[i])
  {
    hide Filter.Ok, Filter.Take, Pow2;
    f.TakeSorted(p);
  }

  /** The kick chain: `tmp` looks for a place in bucket `alt`, with `steps` kicks left. */
  function KickLoop(h: Hashes, f: Filter, alt: nat, tmp: nat, steps: nat): (r: (Filter, nat))
    requires f.Ok() && alt < f.n && IsPrint(f, tmp)
    ensures r.0.Ok()
    decreases steps
  {
    hide Filter.Ok, Filter.Take, Filter.With, Filter.Alt, Overwrite, Place, SortStore, Count, Pow2, FindRoom;
    if steps == 0 then (f, 1)
    else if Count(f.Take(alt)) < 4 then (Place(f, alt, tmp), 0)
    else
      var s := f.Take(alt);
      var j := FindRoom(h, f, alt, s, 0);
      if j < 4 then
        FullSlots(f, alt, j);
        (Overwrite(Place(f, f.Alt(h, alt, s[j]), s[j]), alt, j, tmp), 0)
      else
        var e1 := h.next(f.e);
        var rk := h.out(e1) % 4;
        FullSlots(f, alt, rk);
        KickLoop(h, Overwrite(f.With(e1, f.filledCell), alt, rk, tmp), f.Alt(h, alt, s[rk]), s[rk], steps - 1)
  }

  /** Both buckets full: a random victim of a random one of them is kicked out. */
  function Kick(h: Hashes, f: Filter, cur1: nat, cur2: nat, fp: nat): (r: (Filter, nat))
    requires f.Ok() && cur1 < f.n && cur2 < f.n && IsPrint(f, fp)
    requires Count(f.Take(cur1)) == 4 && Count(f.Take(cur2)) == 4
    ensures r.0.Ok()
  {
    hide Filter.Ok, Filter.Take, Filter.With, Filter.Alt, Overwrite, SortStore, Count, Pow2, KickLoop;
    var e1 := h.next(f.e);
    var rk := h.out(e1) % 4;
    var e2 := h.next(e1);
    var cur := if h.out(e2) % 2 == 1 then cur1 else cur2;
    var tmp := f.Take(cur)[rk];
    FullSlots(f, cur, rk);
    KickLoop(h, Overwrite(f.With(e2, f.filledCell), cur, rk, fp), f.Alt(h, cur, tmp), tmp, f.maxKickSteps)
  }

  /** The emptier of the two buckets takes the fingerprint; full ones start a kick chain. */
  function InsertAt(h: Hashes, f: Filter, cur1: nat, fp: nat): (r: (Filter, nat))
    requires f.Ok() && cur1 < f.n && IsPrint(f, fp)
    ensures r.0.Ok()
  {
    hide Filter.Ok, Filter.Take, Filter.Alt, Place, Count, Pow2, Kick, IsPrint;
    var cur2 := f.Alt(h, cur1, fp);
    var c1, c2 := Count(f.Take(cur1)), Count(f.Take(cur2));
    if c1 <= c2 && c1 < 4 then (Place(f, cur1, fp), 0)
    else if c1 > c2 then (Place(f, cur2, fp), 0)
    else Kick(h, f, cur1, cur2, fp)
  }

  /** `insert`: the new filter, and 0 for success or 1 for failure. */
  function Insert(h: Hashes, f: Filter, ele: Key): (r: (Filter, nat))
    requires f.Ok()
    ensures r.0.Ok()
  {
    hide Filter.Ok, Filter.Fingerprint, Filter.Position, Pow2, InsertAt;
    f.Sizes();
    var x := h.mix(ele);
    InsertAt(h, f, f.Position(x), f.Fingerprint(h, x))
  }

  predicate InBucket(f: Filter, p: nat, fp: nat)
    requires f.Ok() && p < f.n
  {
    fp in f.Take(p)
  }

  /** `lookup`. */
  predicate Lookup(h: Hashes, f: Filter, ele: Key)
    requires f.Ok()
  {
    hide Filter.Ok, Filter.Alt, Filter.Fingerprint, Filter.Position, InBucket;
    f.Sizes();
    var x := h.mix(ele);
    var fp := f.Fingerprint(h, x);
    InBucket(f, f.Position(x), fp) || InBucket(f, f.Alt(h, f.Position(x), fp), fp)
  }

  /** First slot holding `fp`, 4 if none. */
  function FindSlot(s: seq<nat>, fp: nat, i: nat): (k: nat)
    requires |s| == 4 && i <= 4
    ensures i <= k <= 4 && (k < 4 ==> s[k] == fp) && forall j :: i <= j < k ==> s[j] != fp
    decreases 4 - i
  {
    if i == 4 || s[i] == fp then i else FindSlot(s, fp, i + 1)
  }

  /** `del_in_bucket`. */
  function DeleteAt(f: Filter, p: nat, fp: nat): (r: (Filter, bool))
    requires f.Ok() && p < f.n
    ensures r.0.Ok()
  {
    hide Filter.Ok, Filter.Take, Filter.With, Overwrite, SortStore, FindSlot, Pow2;
    var i := FindSlot(f.Take(p), fp, 0);
    if i < 4 then
      (Overwrite(f.With(f.e, f.filledCell - 1), p, i, 0), true)
    else (f, false)
  }

  /** `del`: one copy, from the first bucket if it is there. */
  function Delete(h: Hashes, f: Filter, ele: Key): (r: (Filter, bool))
    requires f.Ok()
    ensures r.0.Ok()
  {
    hide Filter.Ok, Filter.Alt, Filter.Fingerprint, Filter.Position, DeleteAt;
    f.Sizes();
    var x := h.mix(ele);
    var fp := f.Fingerprint(h, x);
    var first := DeleteAt(f, f.Position(x), fp);
    if first.1 then first else DeleteAt(f, f.Alt(h, f.Position(x), fp), fp)
  }
}
