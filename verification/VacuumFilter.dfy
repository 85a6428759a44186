/** The vacuum filter as the object the program changes in place.  Every method computes the
    operation of `FilterModel` on the filter's value. */
module VacuumFilters {
  import opened Bits
  import opened PackedArray
  import opened SemiSort
  import opened Segments
  import opened FilterModel
  import opened FilterEntries
  import KT = KickTrails

  /** Slots per bucket. */
  const SLOTS := 4

  class VacuumFilter {
    const h: Hashes
    var n: nat
    var fpLen: nat
    var maxKickSteps: nat
    var max2Power: nat
    var memoryConsumption: nat
    var encode: seq<nat>
    var decode: seq<nat>
    var t: seq<nat>
    var e: uint64
    var filledCell: int

    /** The value of the object. */
    function View(): Filter
      reads this
    {
      Filter(n, fpLen, maxKickSteps, max2Power, encode, decode, t, e, filledCell)
    }

    ghost predicate Ok()
      reads this
    {
      View().Ok()
    }

    /** The sizes `init` sets: the bytes allocated, the words that lie wholly within them, and a
        number of kick steps that is an `int`. */
    predicate Sized()
      reads this
    {
      && fpLen >= 4 && memoryConsumption == Consumption(n, fpLen) && |t| == memoryConsumption / 8
      && maxKickSteps < 0x8000_0000
    }

    /** A filter before `init`: nothing but its fixed-size tables. */
    constructor (h: Hashes)
      ensures this.h == h
    {
      this.h := h;
      n, fpLen, maxKickSteps, max2Power, memoryConsumption, e, filledCell := 0, 0, 0, 0, 0, 0, 0;
      encode, decode, t := seq(TABLE, _ => 0), seq(TABLE, _ => 0), [];
    }

    /** `init` for small filters with four slots per bucket. */
    method Init(buckets: nat, steps: nat, fpLength: nat)
      requires 2 <= buckets + buckets % 2 < 1315800 && 4 <= fpLength <= 16 && steps < 0x8000_0000
      modifies this
      ensures Ok() && n == buckets + buckets % 2 && fpLen == fpLength && maxKickSteps == steps && e == 1
      ensures Entries(h, View()) == multiset{} && filledCell == 0
      ensures Sized() && Pristine(View(), n, fpLen, steps)
    {
      hide Tables, EntriesUpTo, Pow2, Filter.Ok, Consumption, SmallSizes;
      fpLen := fpLength;
      n := buckets + buckets % 2;
      maxKickSteps := steps;
      filledCell := 0;
      memoryConsumption := Consumption(n, fpLen);
      max2Power := LargestPowerBelow(n);
      t := seq(memoryConsumption / 8, _ => 0);
      assert IsPowerBelow(max2Power, n);
      encode, decode := InitTables();
      e := 1;
      TableSizes(encode, decode);
      SizesAreSmall(n, max2Power);
      EmptyFilter(h, View());
    }

    /** `init_with_params`, from 32-bit units as they lie in memory. */
    method InitWithParams(mc: nat, e: uint64, n: nat, filledCell: int, steps: nat, max2Power: nat, fpLen: nat,
        units: seq<nat>)
      requires |units| == mc / 4
      modifies this
      ensures View() == Filter(n, fpLen, steps, max2Power, encode, decode, WordsOf(units, mc / 8), e, filledCell)
      ensures Tables(encode, decode) && memoryConsumption == mc && |t| == mc / 8
    {
      hide Tables;
      this.e, memoryConsumption, this.n, this.filledCell, maxKickSteps := e, mc, n, filledCell, steps;
      this.max2Power, this.fpLen := max2Power, fpLen;
      t := WordsOf(units, mc / 8);
      encode, decode := InitTables();
    }

    /** `operator=`. */
    method Assign(obj: VacuumFilter)
      requires obj.h == h
      modifies this
      ensures View() == old(obj.View()) && memoryConsumption == old(obj.memoryConsumption)
    {
      n, fpLen, maxKickSteps, max2Power := obj.n, obj.fpLen, obj.maxKickSteps, obj.max2Power;
      memoryConsumption, encode, decode, t := obj.memoryConsumption, obj.encode, obj.decode, obj.t;
      e, filledCell := obj.e, obj.filledCell;
    }

    /** Reads bucket `p`. */
    method GetBucket(p: nat) returns (store: seq<nat>)
      requires Ok() && p < n
      ensures store == View().Take(p) && |store| == SLOTS
    {
      View().Fits(p);
      hide Tables, SmallSizes, FieldGet, DecodeBucket, SemiSort.GetBucket;
      store := SemiSort.GetBucket(t, decode, fpLen, p);
    }

    /** Sorts and writes bucket `p`. */
    method SetBucket(p: nat, store: seq<nat>)
      requires Ok() && p < n && Fingerprints(fpLen, store)
      modifies this`t
      ensures |t| == old(|t|)
      ensures View() == old(View()).Put(p, store)
    {
      View().PutEffect(p, store);
      hide Filter.Ok, Filter.Take, SemiSort.SetBucket, Fingerprints;
      t := SemiSort.SetBucket(t, encode, fpLen, p, store);
    }

    /** `lookup_in_bucket`: 1 found, 2 not found in a full bucket, 3 not found. */
    method LookupInBucket(p: nat, fp: nat) returns (r: nat)
      requires Ok() && p < n
      ensures r == if fp in View().Take(p) then 1 else if 0 in View().Take(p) then 3 else 2
    {
      hide Filter.Ok, Filter.Take;
      var store := GetBucket(p);
      var isFull := true;
      for i := 0 to SLOTS
        invariant fp !in store[..i] && (isFull <==> 0 !in store[..i])
      {
        assert store[..i + 1] == store[..i] + [store[i]];
        if store[i] == fp { return 1; }
        isFull := isFull && store[i] != 0;
      }
      assert store[..SLOTS] == store;
      r := if isFull then 2 else 3;
    }

    /** `lookup`, with its assertion that the two positions lead to each other. */
    method Lookup(ele: Key) returns (found: bool)
      requires Ok()
      ensures found == FilterModel.Lookup(h, View(), ele)
    {
      hide Filter.Ok, Filter.Take, Filter.Alt, Filter.Fingerprint, Filter.Position;
      View().Sizes();
      var x := h.mix(ele);
      var fp := View().Fingerprint(h, x);
      var pos1 := View().Position(x);
      var ok1 := LookupInBucket(pos1, fp);
      if ok1 == 1 { return true; }
      var pos2 := View().Alt(h, pos1, fp);
      View().AltBack(h, pos1, fp);
      assert pos1 == View().Alt(h, pos2, fp);
      var ok2 := LookupInBucket(pos2, fp);
      return ok2 == 1;
    }

    /** The new element went to the emptier of its buckets, or a kick chain found it a place, or
        failed to. */
    ghost predicate TookIn(f: Filter, ele: Key, r: nat)
      requires f.Ok() && Ok()
      reads this
    {
      && f.n > 0 && f.fpLen >= 4
      && var x := h.mix(ele);
         var (p, fp) := (f.Position(x), f.Fingerprint(h, x));
         KT.Inserts(h, f, p, f.Alt(h, p, fp), fp, (View(), r))
    }

    /** `insert`: 0 for success; 1 when the kick chain ends without a place. */
    method Insert(ele: Key) returns (r: nat)
      requires Ok()
      modifies this`t, this`e, this`filledCell
      ensures |t| == old(|t|)
      ensures Ok()
      ensures (View(), r) == FilterModel.Insert(h, old(View()), ele)
      ensures TookIn(old(View()), ele, r)
    {
      hide Filter.Ok, Filter.Fingerprint, Filter.Position, Filter.Alt, InsertAt, Pow2, KT.Inserts;
      View().Sizes();
      KT.InsertTraced(h, View(), ele);
      var x := h.mix(ele);
      r := InsertPrint(View().Position(x), View().Fingerprint(h, x));
    }

    /** The emptier bucket takes the fingerprint; if both are full, the kicks begin. */
    method InsertPrint(cur1: nat, fp: nat) returns (r: nat)
      requires Ok() && cur1 < n && IsPrint(View(), fp)
      modifies this`t, this`e, this`filledCell
      ensures |t| == old(|t|)
      ensures Ok()
      ensures (View(), r) == InsertAt(h, old(View()), cur1, fp)
    {
      hide Filter.Ok, Filter.Take, Filter.Alt, Kick, Place, Count, Pow2, IsPrint;
      var cur2: nat := View().Alt(h, cur1, fp);
      var store1 := GetBucket(cur1);
      var store2 := GetBucket(cur2);
      if Count(store1) <= Count(store2) {
        if Count(store1) < SLOTS {
          AddTo(cur1, fp);
          return 0;
        }
      } else {
        AddTo(cur2, fp);
        return 0;
      }
      r := KickFirst(cur1, cur2, fp);
    }

    /** A new fingerprint in the last slot. */
    method AddTo(p: nat, fp: nat)
      requires Ok() && p < n && IsPrint(View(), fp)
      modifies this`t, this`filledCell
      ensures |t| == old(|t|)
      ensures View() == Place(old(View()), p, fp)
    {
      hide Filter.Ok, Filter.Take, Filter.Put, Fingerprints, Pow2, SortStore;
      ghost var f := View();
      var store := GetBucket(p);
      filledCell := filledCell + 1;
      WithOk(f, f.e, filledCell);
      SlotFits(f.With(f.e, filledCell), p, 3, fp);
      SetBucket(p, store[3 := fp]);
    }

    /** Slot `i` of bucket `p` gets another fingerprint. */
    method Replace(p: nat, i: nat, fp: nat)
      requires Ok() && p < n && i < SLOTS && fp < Pow2(fpLen)
      modifies this`t
      ensures |t| == old(|t|)
      ensures View() == Overwrite(old(View()), p, i, fp)
    {
      hide Filter.Ok, Filter.Take, Filter.Put, Fingerprints, Pow2, SortStore;
      SlotFits(View(), p, i, fp);
      var store := GetBucket(p);
      SetBucket(p, store[i := fp]);
    }

    /** The next number of the random engine. */
    method Draw() returns (x: nat)
      requires Ok()
      modifies this`e
      ensures Ok() && View() == old(View()).With(h.next(old(e)), filledCell) && x == h.out(h.next(old(e)))
    {
      hide Filter.Ok, Filter.With;
      WithOk(View(), h.next(e), filledCell);
      e := h.next(e);
      x := h.out(e);
    }

    /** The first kick, out of one of the two full buckets, and the chain it starts. */
    method KickFirst(cur1: nat, cur2: nat, fp: nat) returns (r: nat)
      requires Ok() && cur1 < n && cur2 < n && IsPrint(View(), fp)
      requires Count(View().Take(cur1)) == SLOTS && Count(View().Take(cur2)) == SLOTS
      modifies this`t, this`e, this`filledCell
      ensures |t| == old(|t|)
      ensures Ok()
      ensures (View(), r) == Kick(h, old(View()), cur1, cur2, fp)
    {
      hide Filter.Ok, Filter.Take, Filter.Alt, Filter.With, Overwrite, SortStore, Count, Pow2, KickLoop, EntryAt;
      ghost var f := View();
      var x1 := Draw();
      var rk := x1 % SLOTS;
      var x2 := Draw();
      var cur := if x2 % 2 == 1 then cur1 else cur2;
      var store := GetBucket(cur);
      FullSlots(f, cur, rk);
      Replace(cur, rk, fp);
      EntryFixed(h, f, View(), cur, store[rk]);
      r := KickChain(View().Alt(h, cur, store[rk]), store[rk]);
    }

    /** The loop of `insert`: each round places the homeless fingerprint, moves one of its
        bucket's fingerprints to make room, or swaps it for a random victim. */
    method KickChain(start: nat, victim: nat) returns (r: nat)
      requires Ok() && start < n && IsPrint(View(), victim)
      modifies this`t, this`e, this`filledCell
      ensures |t| == old(|t|)
      ensures Ok()
      ensures (View(), r) == KickLoop(h, old(View()), start, victim, maxKickSteps)
    {
      hide Filter.Ok, Filter.Take, Filter.Alt, Filter.With, FindRoom, Overwrite, Place, SortStore, Count, Pow2;
      hide KickLoop, EntryAt;
      ghost var result := KickLoop(h, View(), start, victim, maxKickSteps);
      var alt: nat, tmp: nat := start, victim;
      for i := 0 to maxKickSteps
        invariant Ok() && alt < n && IsPrint(View(), tmp) && |t| == old(|t|)
        invariant KickLoop(h, View(), alt, tmp, maxKickSteps - i) == result
      {
        ghost var f := View();
        KickRound(h, f, alt, tmp, maxKickSteps - i);
        var store := GetBucket(alt);
        if Count(store) == SLOTS {
          var moved := MoveOne(alt, tmp);
          if moved { return 0; }
          var x := Draw();
          var rk := x % SLOTS;
          FullSlots(f, alt, rk);
          Replace(alt, rk, tmp);
          tmp := store[rk];
          EntryFixed(h, f, View(), alt, tmp);
          alt := View().Alt(h, alt, tmp);
        } else {
          AddTo(alt, tmp);
          return 0;
        }
      }
      NoRoundsLeft(h, View(), alt, tmp);
      return 1;
    }

    /** The first fingerprint of the full bucket `alt` with room in its other bucket moves
        there, and `tmp` takes its slot. */
    method MoveOne(alt: nat, tmp: nat) returns (moved: bool)
      requires Ok() && alt < n && IsPrint(View(), tmp) && Count(View().Take(alt)) == SLOTS
      modifies this`t, this`filledCell
      ensures |t| == old(|t|)
      ensures Ok()
      ensures var f := old(View());
              var s := f.Take(alt);
              var j := FindRoom(h, f, alt, s, 0);
              && moved == (j < SLOTS)
              && (moved ==> IsPrint(f, s[j]) && View() == Overwrite(Place(f, f.Alt(h, alt, s[j]), s[j]), alt, j, tmp))
              && (!moved ==> View() == f)
    {
      hide Filter.Ok, Filter.Take, Filter.Alt, Overwrite, Place, SortStore, Count, Pow2;
      ghost var f := View();
      var store := GetBucket(alt);
      for j := 0 to SLOTS
        invariant View() == f && FindRoom(h, f, alt, store, 0) == FindRoom(h, f, alt, store, j)
      {
        var nex: nat := View().Alt(h, alt, store[j]);
        var store2 := GetBucket(nex);
        if Count(store2) < SLOTS {
          FullSlots(f, alt, j);
          AddTo(nex, store[j]);
          Replace(alt, j, tmp);
          return true;
        }
      }
      return false;
    }

    /** `del_in_bucket`. */
    method DelInBucket(p: nat, fp: nat) returns (found: bool)
      requires Ok() && p < n
      modifies this`t, this`filledCell
      ensures |t| == old(|t|)
      ensures (View(), found) == DeleteAt(old(View()), p, fp)
    {
      hide Filter.Ok, Filter.Take, Filter.Put, Fingerprints, Pow2;
      ghost var f := View();
      var store := GetBucket(p);
      for i := 0 to SLOTS
        invariant View() == f && FindSlot(store, fp, 0) == FindSlot(store, fp, i)
      {
        if store[i] == fp {
          filledCell := filledCell - 1;
          WithOk(f, f.e, filledCell);
          SlotFits(f.With(f.e, filledCell), p, i, 0);
          SetBucket(p, store[i := 0]);
          return true;
        }
      }
      return false;
    }

    /** `del`. */
    method Del(ele: Key) returns (found: bool)
      requires Ok()
      modifies this`t, this`filledCell
      ensures |t| == old(|t|)
      ensures Ok()
      ensures (View(), found) == Delete(h, old(View()), ele)
    {
      hide Filter.Ok, Filter.Alt, Filter.Fingerprint, Filter.Position, DeleteAt;
      View().Sizes();
      var x := h.mix(ele);
      var fp := View().Fingerprint(h, x);
      var pos1 := View().Position(x);
      found := DelInBucket(pos1, fp);
      if !found {
        assert View() == old(View()) by { Missed(old(View()), pos1, fp); }
        found := DelInBucket(View().Alt(h, pos1, fp), fp);
      }
    }
  }

  /** 64-bit words from 32-bit units, low unit first. */
  function WordsOf(units: seq<nat>, count: nat): (r: seq<nat>)
    requires 2 * count <= |units|
    ensures |r| == count
  {
    seq(count, i requires 0 <= i < count => units[2 * i] + WRAP32 * units[2 * i + 1])
  }

  /** 32-bit units of 64-bit words, and as many zero units as the memory goes on for. */
  function UnitsOf(t: seq<nat>, count: nat): (r: seq<nat>)
    ensures |r| == count
  {
    seq(count, i requires 0 <= i < count =>
      if i / 2 >= |t| then 0 else if i % 2 == 0 then t[i / 2] % WRAP32 else t[i / 2] / WRAP32)
  }

  lemma UnitsRoundTrip(t: seq<nat>, count: nat)
    requires 2 * |t| <= count
    ensures WordsOf(UnitsOf(t, count), |t|) == t
  {
    var r := WordsOf(UnitsOf(t, count), |t|);
    forall i | 0 <= i < |t| ensures r[i] == t[i] {
      assert 2 * i / 2 == i && (2 * i + 1) / 2 == i;
    }
  }

  /** Unit `2 * i` is the low half of word `i`, unit `2 * i + 1` the high half, both ways. */
  lemma UnitsLowFirst(t: seq<nat>, units: seq<nat>, count: nat, i: nat)
    requires i < |t| && 2 * i + 1 < count && 2 * i + 1 < |units|
    ensures UnitsOf(t, count)[2 * i] < 0x1_0000_0000
    ensures UnitsOf(t, count)[2 * i] + 0x1_0000_0000 * UnitsOf(t, count)[2 * i + 1] == t[i]
    ensures WordsOf(units, |units| / 2)[i] == units[2 * i] + 0x1_0000_0000 * units[2 * i + 1]
  {
    assert 2 * i / 2 == i && (2 * i + 1) / 2 == i && 2 * i % 2 == 0 && (2 * i + 1) % 2 == 1;
  }

  /** `memory_consumption` in bytes: the bits of all buckets and a margin. */
  function Consumption(n: nat, fpLen: nat): nat
    requires fpLen >= 4
  {
    (n * SLOTS * (fpLen - 1) + 64 + 7) / 8 + 8
  }

  /** The margin keeps every bucket inside the whole 64-bit words, and inside the whole 32-bit
      units that full updates carry. */
  lemma ConsumptionCovers(n: nat, fpLen: nat)
    requires fpLen >= 4
    ensures n * BucketBits(fpLen) <= WORD * (Consumption(n, fpLen) / 8) <= 32 * (Consumption(n, fpLen) / 4)
  {
    FourTimes(n, fpLen - 1);
    Margin(n * (fpLen - 1) * SLOTS);
  }

  /** The bits of four slots a bucket, each a bit shorter than a fingerprint, and 64 more, rounded
      up to whole bytes, and 8 bytes more. */
  lemma ConsumptionExact(n: nat, fpLen: nat)
    requires fpLen >= 4
    ensures Consumption(n, fpLen) >= 8
    ensures 0 <= 8 * (Consumption(n, fpLen) - 8) - (n * 4 * (fpLen - 1) + 64) < 8
  {
  }

  /** Small filters need few bytes. */
  lemma ConsumptionBounded(n: nat, fpLen: nat)
    requires n < 1315800 && 4 <= fpLen <= 16
    ensures Consumption(n, fpLen) < WRAP32
  {
    FourTimes(n, fpLen - 1);
    SmallProduct(n, fpLen - 1);
  }

  lemma SmallProduct(n: nat, b: nat)
    requires n < 1315800 && b <= 15
    ensures n * b <= 1315800 * 15
  {
  }

  lemma FourTimes(n: nat, b: nat)
    ensures n * SLOTS * b == n * b * SLOTS == n * (b * 4)
  {
  }

  lemma Margin(bits: nat)
    ensures var bytes := (bits + 64 + 7) / 8 + 8; bits <= WORD * (bytes / 8) <= 32 * (bytes / 4)
  {
  }

  /** The loop of `init`: the largest power of two below `n`. */
  method LargestPowerBelow(n: nat) returns (p: nat)
    requires n >= 2
    ensures p < n <= 2 * p && exists e: nat :: p == Pow2(e)
  {
    p := 1;
    ghost var e := 0;
    while p * 2 < n
      invariant 0 < p < n && p == Pow2(e)
      decreases n - p
    {
      p := p * 2;
      e := e + 1;
    }
  }

  /** A filter just initialised. */
  ghost predicate Pristine(f: Filter, n: nat, fpLen: nat, steps: nat) {
    && fpLen >= 4 && f.n == n && f.fpLen == fpLen && f.maxKickSteps == steps && IsPowerBelow(f.max2Power, n)
    && Tables(f.encode, f.decode) && |f.t| == Consumption(n, fpLen) / 8 && AllZero(f.t)
    && f.e == 1 && f.filledCell == 0
  }

  ghost predicate IsPowerBelow(p: nat, n: nat) {
    p < n <= 2 * p && exists e: nat :: p == Pow2(e)
  }

  /** There is only one for given sizes. */
  lemma PristineUnique(f: Filter, g: Filter, n: nat, fpLen: nat, steps: nat)
    requires Pristine(f, n, fpLen, steps) && Pristine(g, n, fpLen, steps)
    ensures f == g
  {
    hide Tables, Consumption, IsPowerBelow;
    TablesUnique(f.encode, f.decode, g.encode, g.decode);
    PowerUnique(f.max2Power, g.max2Power, n);
    assert f.t == g.t;
  }

  lemma PowerUnique(p: nat, q: nat, n: nat)
    requires IsPowerBelow(p, n) && IsPowerBelow(q, n)
    ensures p == q
  {
    var d: nat :| p == Pow2(d);
    var e: nat :| q == Pow2(e);
    hide Pow2;
    if d < e {
      DoubleBelow(d, e);
    } else if e < d {
      DoubleBelow(e, d);
    }
  }

  lemma {:induction false} DoubleBelow(d: nat, e: nat)
    requires d < e
    ensures 2 * Pow2(d) <= Pow2(e)
    decreases e
  {
    if d + 1 < e { DoubleBelow(d, e - 1); }
  }

  lemma SizesAreSmall(n: nat, p: nat)
    requires 2 <= n < 1315800 && n % 2 == 0 && p < n && exists e: nat :: p == Pow2(e)
    ensures SmallSizes(n, p)
  {
  }

  /** A zeroed filter is in order and stores nothing. */
  lemma EmptyFilter(h: Hashes, f: Filter)
    requires SmallSizes(f.n, f.max2Power) && f.max2Power > 0 && 4 <= f.fpLen <= 16 && Tables(f.encode, f.decode)
    requires f.decode != [] && f.decode[0] == 0
    requires |f.t| == Consumption(f.n, f.fpLen) / 8 && forall i :: 0 <= i < |f.t| ==> f.t[i] == 0
    ensures f.Ok() && Entries(h, f) == multiset{}
  {
    hide Tables, SmallSizes, SemiSort.GetBucket;
    ConsumptionCovers(f.n, f.fpLen);
    forall p: nat | p < f.n ensures f.Raw(p) == [0, 0, 0, 0] {
      f.Fits(p);
      ZeroBucket(f.t, f.decode, f.fpLen, p);
    }
    NothingStored(h, f, f.n);
  }

  lemma {:induction false} NothingStored(h: Hashes, f: Filter, k: nat)
    requires f.Ok() && k <= f.n && forall p: nat :: p < f.n ==> f.Take(p) == [0, 0, 0, 0]
    ensures EntriesUpTo(h, f, k) == multiset{}
    decreases k
  {
    hide Filter.Ok, Filter.Take;
    if k > 0 { NothingStored(h, f, k - 1); }
  }

  /** One round of the kick chain. */
  lemma KickRound(h: Hashes, f: Filter, alt: nat, tmp: nat, steps: nat)
    requires f.Ok() && alt < f.n && IsPrint(f, tmp) && steps > 0
    ensures var s := f.Take(alt);
            if Count(s) < 4 then KickLoop(h, f, alt, tmp, steps) == (Place(f, alt, tmp), 0)
            else
              var j := FindRoom(h, f, alt, s, 0);
              if j < 4 then
                IsPrint(f, s[j]) && KickLoop(h, f, alt, tmp, steps)
                    == (Overwrite(Place(f, f.Alt(h, alt, s[j]), s[j]), alt, j, tmp), 0)
              else
                var e1 := h.next(f.e);
                var rk := h.out(e1) % 4;
                IsPrint(f, s[rk])
                && KickLoop(h, f, alt, tmp, steps)
                   == KickLoop(h, Overwrite(f.With(e1, f.filledCell), alt, rk, tmp), f.Alt(h, alt, s[rk]), s[rk],
                       steps - 1)
  {
    hide Filter.Ok, Filter.Take, Filter.With, Filter.Alt, Overwrite, Place, SortStore, Count, Pow2, FindRoom;
    if Count(f.Take(alt)) == 4 {
      var j := FindRoom(h, f, alt, f.Take(alt), 0);
      if j < 4 { FullSlots(f, alt, j); } else { FullSlots(f, alt, h.out(h.next(f.e)) % 4); }
    }
  }

  lemma NoRoundsLeft(h: Hashes, f: Filter, alt: nat, tmp: nat)
    requires f.Ok() && alt < f.n && IsPrint(f, tmp)
    ensures KickLoop(h, f, alt, tmp, 0) == (f, 1)
  {
    hide Filter.Ok, Filter.Take, Filter.With, Filter.Alt, Overwrite, Place, SortStore, Count, Pow2, FindRoom;
  }

  lemma WithOk(f: Filter, e: uint64, filledCell: int)
    requires f.Ok()
    ensures f.(e := e, filledCell := filledCell).Ok() && f.With(e, filledCell) == f.(e := e, filledCell := filledCell)
  {
    hide Filter.Ok, Filter.Take;
    var g := f.With(e, filledCell);
  }

  lemma Missed(f: Filter, p: nat, fp: nat)
    requires f.Ok() && p < f.n
    ensures !DeleteAt(f, p, fp).1 ==> DeleteAt(f, p, fp).0 == f
  {
    hide Filter.Ok, Filter.Take, Filter.With, Overwrite;
  }
}
