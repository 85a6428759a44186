/** What the filter stores, as a multiset of (fingerprint, unordered pair of buckets), and
    what every operation does to it: kick chains move fingerprints but never change an
    entry. */
module FilterEntries {
  import opened Bits
  import opened SemiSort
  import opened FilterModel

  /** A fingerprint together with the two buckets it may live in. */
  datatype Entry = Entry(fp: nat, lo: nat, hi: nat)

  function EntryAt(h: Hashes, f: Filter, p: nat, fp: nat): Entry
    requires f.Ok() && p < f.n
  {
    var q := f.Alt(h, p, fp);
    if p < q then Entry(fp, p, q) else Entry(fp, q, p)
  }

  /** The entry of an element: its fingerprint and bucket pair (`position_pair`). */
  function EntryOf(h: Hashes, f: Filter, ele: Key): Entry
    requires f.Ok()
  {
    f.Sizes();
    var x := h.mix(ele);
    EntryAt(h, f, f.Position(x), f.Fingerprint(h, x))
  }

  /** Filters of the same sizes. */
  ghost predicate SameGeometry(f: Filter, f': Filter) {
    f'.n == f.n && f'.max2Power == f.max2Power && f'.fpLen == f.fpLen
  }

  lemma EntryFixed(h: Hashes, f: Filter, f': Filter, p: nat, fp: nat)
    requires f.Ok() && f'.Ok() && SameGeometry(f, f') && p < f.n
    ensures f'.Alt(h, p, fp) == f.Alt(h, p, fp) && EntryAt(h, f', p, fp) == EntryAt(h, f, p, fp)
  {
    hide Filter.Ok, Segments.Alternate;
  }

  lemma EntryOfFixed(h: Hashes, f: Filter, f': Filter, ele: Key)
    requires f.Ok() && f'.Ok() && SameGeometry(f, f')
    ensures EntryOf(h, f', ele) == EntryOf(h, f, ele)
  {
    hide Filter.Ok, Filter.Alt, EntryAt, Pow2;
    f.Sizes();
    var x := h.mix(ele);
    EntryFixed(h, f, f', f.Position(x), f.Fingerprint(h, x));
  }

  /** The entry does not tell its two buckets apart, but everything else. */
  lemma SameEntry(h: Hashes, f: Filter, p: nat, fp: nat, q: nat, fp': nat)
    requires f.Ok() && p < f.n && q < f.n
    ensures EntryAt(h, f, p, fp) == EntryAt(h, f, q, fp') <==> fp == fp' && (q == p || q == f.Alt(h, p, fp))
  {
    hide Filter.Ok, Filter.Alt;
    f.AltBack(h, p, fp);
    f.AltBack(h, q, fp);
  }

  // ---- The multiset of entries ----

  ghost function SlotEntries(h: Hashes, f: Filter, p: nat, fp: nat): multiset<Entry>
    requires f.Ok() && p < f.n
  {
    if fp == 0 then multiset{} else multiset{EntryAt(h, f, p, fp)}
  }

  ghost function BucketEntries(h: Hashes, f: Filter, p: nat, s: seq<nat>): multiset<Entry>
    requires f.Ok() && p < f.n && |s| == 4
  {
    SlotEntries(h, f, p, s[0]) + SlotEntries(h, f, p, s[1]) + SlotEntries(h, f, p, s[2]) + SlotEntries(h, f, p, s[3])
  }

  ghost function EntriesUpTo(h: Hashes, f: Filter, k: nat): multiset<Entry>
    requires f.Ok() && k <= f.n
  {
    if k == 0 then multiset{} else EntriesUpTo(h, f, k - 1) + BucketEntries(h, f, k - 1, f.Take(k - 1))
  }

  /** Everything stored in the filter. */
  ghost function Entries(h: Hashes, f: Filter): multiset<Entry>
    requires f.Ok()
  {
    EntriesUpTo(h, f, f.n)
  }

  /** Number of occupied cells. */
  ghost function CellsUpTo(f: Filter, k: nat): nat
    requires f.Ok() && k <= f.n
  {
    if k == 0 then 0 else CellsUpTo(f, k - 1) + Count(f.Take(k - 1))
  }

  lemma Cancel(a: multiset<Entry>, b: multiset<Entry>, c: multiset<Entry>)
    requires a + c == b + c
    ensures a == b
  {
    forall e: Entry ensures a[e] == b[e] {
      assert (a + c)[e] == (b + c)[e];
    }
  }

  lemma Shuffle(a: multiset<Entry>, x: multiset<Entry>, y: multiset<Entry>)
    ensures a + x + y == a + y + x
  {
  }

  lemma AddBetween(a: multiset<Entry>, b: multiset<Entry>, c: multiset<Entry>, d: multiset<Entry>, x: multiset<Entry>)
    requires a + b == c + d
    ensures a + x + b == c + x + d
  {
    forall e: Entry ensures (a + x + b)[e] == (c + x + d)[e] {
      assert (a + b)[e] == (c + d)[e];
    }
  }

  lemma BucketCells(h: Hashes, f: Filter, p: nat, s: seq<nat>)
    requires f.Ok() && p < f.n && |s| == 4
    ensures |BucketEntries(h, f, p, s)| == Count(s)
  {
    hide Filter.Ok, EntryAt;
  }

  lemma {:induction false} EntriesAreCells(h: Hashes, f: Filter, k: nat)
    requires f.Ok() && k <= f.n
    ensures |EntriesUpTo(h, f, k)| == CellsUpTo(f, k)
    decreases k
  {
    hide Filter.Ok, Filter.Take, BucketEntries, Count;
    if k > 0 {
      EntriesAreCells(h, f, k - 1);
      BucketCells(h, f, k - 1, f.Take(k - 1));
    }
  }

  lemma PairKeeps(h: Hashes, f: Filter, p: nat, s: seq<nat>, i: nat, j: nat)
    requires f.Ok() && p < f.n && |s| == 4 && i < j < 4
    ensures BucketEntries(h, f, p, SortPair(s, i, j)) == BucketEntries(h, f, p, s)
  {
    hide Filter.Ok, SlotEntries;
  }

  lemma SortKeeps(h: Hashes, f: Filter, p: nat, s: seq<nat>)
    requires f.Ok() && p < f.n && |s| == 4
    ensures BucketEntries(h, f, p, SortStore(s)) == BucketEntries(h, f, p, s)
  {
    hide Filter.Ok, SortPair, BucketEntries;
    var s1 := SortPair(s, 0, 2);
    var s2 := SortPair(s1, 1, 3);
    var s3 := SortPair(s2, 0, 1);
    var s4 := SortPair(s3, 2, 3);
    PairKeeps(h, f, p, s, 0, 2);
    PairKeeps(h, f, p, s1, 1, 3);
    PairKeeps(h, f, p, s2, 0, 1);
    PairKeeps(h, f, p, s3, 2, 3);
    PairKeeps(h, f, p, s4, 1, 2);
  }

  lemma SlotReplaced(h: Hashes, f: Filter, p: nat, s: seq<nat>, i: nat, fp: nat)
    requires f.Ok() && p < f.n && |s| == 4 && i < 4
    ensures BucketEntries(h, f, p, s[i := fp]) + SlotEntries(h, f, p, s[i]) == BucketEntries(h, f, p, s)
        + SlotEntries(h, f, p, fp)
  {
    hide Filter.Ok, SlotEntries;
  }

  lemma BucketFixed(h: Hashes, f: Filter, f': Filter, p: nat, s: seq<nat>)
    requires f.Ok() && f'.Ok() && SameGeometry(f, f') && p < f.n && |s| == 4
    ensures BucketEntries(h, f', p, s) == BucketEntries(h, f, p, s)
  {
    hide Filter.Ok, EntryAt;
    EntryFixed(h, f, f', p, s[0]);
    EntryFixed(h, f, f', p, s[1]);
    EntryFixed(h, f, f', p, s[2]);
    EntryFixed(h, f, f', p, s[3]);
  }

  /** Changing one bucket changes the entries by that bucket's. */
  lemma {:induction false} OneBucket(h: Hashes, f: Filter, f': Filter, p: nat, k: nat)
    requires f.Ok() && f'.Ok() && SameGeometry(f, f') && p < f.n && k <= f.n
    requires forall q: nat :: q < f.n && q != p ==> f'.Take(q) == f.Take(q)
    ensures p >= k ==> EntriesUpTo(h, f', k) == EntriesUpTo(h, f, k)
    ensures p < k ==>
        EntriesUpTo(h, f', k) + BucketEntries(h, f, p, f.Take(p)) == EntriesUpTo(h, f, k)
        + BucketEntries(h, f, p, f'.Take(p))
    decreases k
  {
    hide Filter.Ok, Filter.Take, BucketEntries;
    if k > 0 {
      OneBucket(h, f, f', p, k - 1);
      BucketFixed(h, f, f', k - 1, f'.Take(k - 1));
      if p < k - 1 {
        AddBetween(EntriesUpTo(h, f', k - 1), BucketEntries(h, f, p, f.Take(p)), EntriesUpTo(h, f, k - 1),
            BucketEntries(h, f, p, f'.Take(p)),
                   BucketEntries(h, f, k - 1, f.Take(k - 1)));
      } else if p == k - 1 {
        Shuffle(EntriesUpTo(h, f, k - 1), BucketEntries(h, f, p, f'.Take(p)), BucketEntries(h, f, p, f.Take(p)));
      }
    }
  }

  lemma OverwriteEntries(h: Hashes, f: Filter, p: nat, i: nat, fp: nat)
    requires f.Ok() && p < f.n && i < 4 && fp < Pow2(f.fpLen)
    ensures var r := Overwrite(f, p, i, fp);
            Entries(h, r) + SlotEntries(h, f, p, f.Take(p)[i]) == Entries(h, f) + SlotEntries(h, f, p, fp)
  {
    hide Filter.Ok, Filter.Take, Overwrite, SortStore, BucketEntries, SlotEntries, EntriesUpTo, Pow2;
    var r := Overwrite(f, p, i, fp);
    OneBucket(h, f, r, p, f.n);
    SortKeeps(h, f, p, f.Take(p)[i := fp]);
    var s := f.Take(p);
    SlotReplaced(h, f, p, s, i, fp);
    Combine(Entries(h, r), BucketEntries(h, f, p, s), Entries(h, f), BucketEntries(h, f, p, s[i := fp]),
            SlotEntries(h, f, p, s[i]), SlotEntries(h, f, p, fp));
  }

  lemma Combine(a: multiset<Entry>, b: multiset<Entry>, c: multiset<Entry>, d: multiset<Entry>, x: multiset<Entry>,
      y: multiset<Entry>)
    requires a + b == c + d && d + x == b + y
    ensures a + x == c + y
  {
    forall e: Entry ensures (a + x)[e] == (c + y)[e] {
      assert (a + b)[e] == (c + d)[e];
      assert (d + x)[e] == (b + y)[e];
    }
  }

  lemma {:induction false} WithEntries(h: Hashes, f: Filter, f': Filter, k: nat)
    requires f.Ok() && f'.Ok() && SameGeometry(f, f') && k <= f.n
    requires forall q: nat :: q < f.n ==> f'.Take(q) == f.Take(q)
    ensures EntriesUpTo(h, f', k) == EntriesUpTo(h, f, k)
    decreases k
  {
    hide Filter.Ok, Filter.Take, BucketEntries;
    if k > 0 {
      WithEntries(h, f, f', k - 1);
      BucketFixed(h, f, f', k - 1, f.Take(k - 1));
    }
  }

  lemma FreeSlot(f: Filter, p: nat)
    requires f.Ok() && p < f.n && Count(f.Take(p)) < 4
    ensures f.Take(p)[3] == 0
  {
    hide Filter.Ok, Filter.Take;
    f.TakeSorted(p);
  }

  lemma PlaceEntries(h: Hashes, f: Filter, p: nat, fp: nat)
    requires f.Ok() && p < f.n && IsPrint(f, fp) && Count(f.Take(p)) < 4
    ensures Entries(h, Place(f, p, fp)) == Entries(h, f) + multiset{EntryAt(h, f, p, fp)}
  {
    hide Filter.Ok, Filter.Take, Filter.With, Overwrite, EntryAt, EntriesUpTo, Pow2, Count;
    FreeSlot(f, p);
    var f1 := f.With(f.e, f.filledCell + 1);
    WithEntries(h, f, f1, f.n);
    OverwriteEntries(h, f1, p, 3, fp);
    EntryFixed(h, f, f1, p, fp);
  }

  // ---- Kick chains ----

  /** One entry of the old ones and the new one is missing. */
  ghost predicate AllButOne(before: multiset<Entry>, e: Entry, after: multiset<Entry>) {
    exists d :: after + multiset{d} == before + multiset{e}
  }

  /** Result 0: the new entry has been added.  Result 1: it has been added and one entry has
      been lost. */
  ghost predicate Added(h: Hashes, f: Filter, e: Entry, r: (Filter, nat))
    requires f.Ok() && r.0.Ok()
  {
    && SameGeometry(f, r.0) && r.0.maxKickSteps == f.maxKickSteps
    && (r.1 == 0 || r.1 == 1)
    && (r.1 == 0 ==> Entries(h, r.0) == Entries(h, f) + multiset{e} && r.0.filledCell == f.filledCell + 1)
    && (r.1 == 1 ==> AllButOne(Entries(h, f), e, Entries(h, r.0)) && r.0.filledCell == f.filledCell)
  }

  /** A kick: the newcomer in, the victim out. */
  lemma SwapEntries(h: Hashes, f: Filter, e: uint64, p: nat, i: nat, fp: nat)
    requires f.Ok() && p < f.n && i < 4 && IsPrint(f, fp) && IsPrint(f, f.Take(p)[i])
    ensures var victim := f.Take(p)[i];
            Entries(h, Overwrite(f.With(e, f.filledCell), p, i, fp))
                + multiset{EntryAt(h, f, f.Alt(h, p, victim), victim)}
            == Entries(h, f) + multiset{EntryAt(h, f, p, fp)}
  {
    hide Filter.Ok, Filter.Take, Filter.With, Filter.Alt, Overwrite, EntryAt, EntriesUpTo, Pow2;
    var f1 := f.With(e, f.filledCell);
    var victim := f.Take(p)[i];
    WithEntries(h, f, f1, f.n);
    OverwriteEntries(h, f1, p, i, fp);
    EntryFixed(h, f, f1, p, fp);
    EntryFixed(h, f, f1, p, victim);
    SameEntry(h, f, p, victim, f.Alt(h, p, victim), victim);
  }

  lemma {:induction false} KickLoopEntries(h: Hashes, f: Filter, alt: nat, tmp: nat, steps: nat)
    requires f.Ok() && alt < f.n && IsPrint(f, tmp)
    ensures Added(h, f, EntryAt(h, f, alt, tmp), KickLoop(h, f, alt, tmp, steps))
    decreases steps
  {
    hide Filter.Ok, Filter.Take, Filter.With, Filter.Alt, Overwrite, Place, EntryAt, EntriesUpTo, Pow2, Count, FindRoom;
    hide SortStore;
    var e := EntryAt(h, f, alt, tmp);
    if steps == 0 {
      assert Entries(h, f) + multiset{e} == Entries(h, f) + multiset{e};
    } else if Count(f.Take(alt)) < 4 {
      PlaceEntries(h, f, alt, tmp);
    } else {
      var s := f.Take(alt);
      var j := FindRoom(h, f, alt, s, 0);
      if j < 4 {
        FullSlots(f, alt, j);
        MoveOver(h, f, alt, j, tmp);
      } else {
        var e1 := h.next(f.e);
        var rk := h.out(e1) % 4;
        FullSlots(f, alt, rk);
        var f1 := Overwrite(f.With(e1, f.filledCell), alt, rk, tmp);
        SwapEntries(h, f, e1, alt, rk, tmp);
        EntryFixed(h, f, f1, f.Alt(h, alt, s[rk]), s[rk]);
        KickLoopEntries(h, f1, f.Alt(h, alt, s[rk]), s[rk], steps - 1);
        Chain(h, f, f1, e, EntryAt(h, f, f.Alt(h, alt, s[rk]), s[rk]),
            KickLoop(h, f1, f.Alt(h, alt, s[rk]), s[rk], steps - 1));
      }
    }
  }

  /** A swap followed by a successful or failed search for the victim's place. */
  lemma Chain(h: Hashes, f: Filter, f1: Filter, e: Entry, victim: Entry, r: (Filter, nat))
    requires f.Ok() && f1.Ok() && r.0.Ok() && SameGeometry(f, f1) && f1.maxKickSteps == f.maxKickSteps
        && f1.filledCell == f.filledCell
    requires Entries(h, f1) + multiset{victim} == Entries(h, f) + multiset{e}
    requires Added(h, f1, victim, r)
    ensures Added(h, f, e, r)
  {
    hide Filter.Ok, Entries;
  }

  /** The chain ends by moving slot `j` of the full bucket to its other bucket. */
  lemma MoveOver(h: Hashes, f: Filter, alt: nat, j: nat, tmp: nat)
    requires f.Ok() && alt < f.n && IsPrint(f, tmp) && j < 4 && IsPrint(f, f.Take(alt)[j])
    requires Count(f.Take(f.Alt(h, alt, f.Take(alt)[j]))) < 4
    ensures var s := f.Take(alt);
            var r := Overwrite(Place(f, f.Alt(h, alt, s[j]), s[j]), alt, j, tmp);
            && r.Ok() && SameGeometry(f, r) && r.maxKickSteps == f.maxKickSteps && r.filledCell == f.filledCell + 1
            && Entries(h, r) == Entries(h, f) + multiset{EntryAt(h, f, alt, tmp)}
  {
    hide Filter.Ok, Filter.Take, Filter.With, Filter.Alt, Overwrite, Place, EntryAt, EntriesUpTo, Pow2, Count;
    hide SortStore;
    var s := f.Take(alt);
    var nex := f.Alt(h, alt, s[j]);
    f.AltBack(h, alt, s[j]);
    PlaceEntries(h, f, nex, s[j]);
    var f1 := Place(f, nex, s[j]);
    OverwriteEntries(h, f1, alt, j, tmp);
    EntryFixed(h, f, f1, alt, tmp);
    EntryFixed(h, f, f1, alt, s[j]);
    SameEntry(h, f, alt, s[j], nex, s[j]);
    var r := Overwrite(f1, alt, j, tmp);
    assert f1.Take(alt) == s;
    var moved, added := multiset{EntryAt(h, f, alt, s[j])}, multiset{EntryAt(h, f, alt, tmp)};
    assert Entries(h, r) + moved == Entries(h, f) + added + moved;
    Cancel(Entries(h, r), Entries(h, f) + added, moved);
  }

  lemma PlaceAdded(h: Hashes, f: Filter, p: nat, fp: nat)
    requires f.Ok() && p < f.n && IsPrint(f, fp) && Count(f.Take(p)) < 4
    ensures Added(h, f, EntryAt(h, f, p, fp), (Place(f, p, fp), 0))
  {
    hide Filter.Ok, Filter.Take, Filter.Alt, Place, EntryAt, Entries, Pow2, Count;
    PlaceEntries(h, f, p, fp);
  }

  lemma InsertAtEntries(h: Hashes, f: Filter, cur1: nat, fp: nat)
    requires f.Ok() && cur1 < f.n && IsPrint(f, fp)
    ensures Added(h, f, EntryAt(h, f, cur1, fp), InsertAt(h, f, cur1, fp))
  {
    hide Filter.Ok, Filter.Take, Filter.Alt, Place, Kick, EntryAt, Added, Pow2, Count, IsPrint;
    var cur2 := f.Alt(h, cur1, fp);
    SameEntry(h, f, cur1, fp, cur2, fp);
    var c1, c2 := Count(f.Take(cur1)), Count(f.Take(cur2));
    if c1 <= c2 && c1 < 4 {
      PlaceAdded(h, f, cur1, fp);
    } else if c1 > c2 {
      PlaceAdded(h, f, cur2, fp);
    } else {
      KickEntries(h, f, cur1, cur2, fp);
    }
  }

  /** Conservation over a whole insertion with any kick chain. */
  lemma InsertEntries(h: Hashes, f: Filter, ele: Key)
    requires f.Ok()
    ensures Added(h, f, EntryOf(h, f, ele), Insert(h, f, ele))
  {
    hide Filter.Ok, Filter.Position, Filter.Fingerprint, InsertAt, EntryAt, Added, Pow2;
    f.Sizes();
    var x := h.mix(ele);
    InsertAtEntries(h, f, f.Position(x), f.Fingerprint(h, x));
  }

  lemma KickEntries(h: Hashes, f: Filter, cur1: nat, cur2: nat, fp: nat)
    requires f.Ok() && cur1 < f.n && cur2 < f.n && IsPrint(f, fp)
    requires Count(f.Take(cur1)) == 4 && Count(f.Take(cur2)) == 4
    requires EntryAt(h, f, cur1, fp) == EntryAt(h, f, cur2, fp)
    ensures Added(h, f, EntryAt(h, f, cur1, fp), Kick(h, f, cur1, cur2, fp))
  {
    hide Filter.Ok, Filter.Take, Filter.With, Filter.Alt, Overwrite, EntryAt, EntriesUpTo, Pow2, Count, KickLoop;
    hide SortStore;
    var e1 := h.next(f.e);
    var rk := h.out(e1) % 4;
    var e2 := h.next(e1);
    var cur := if h.out(e2) % 2 == 1 then cur1 else cur2;
    var tmp := f.Take(cur)[rk];
    FullSlots(f, cur, rk);
    var f1 := Overwrite(f.With(e2, f.filledCell), cur, rk, fp);
    SwapEntries(h, f, e2, cur, rk, fp);
    EntryFixed(h, f, f1, f.Alt(h, cur, tmp), tmp);
    KickLoopEntries(h, f1, f.Alt(h, cur, tmp), tmp, f.maxKickSteps);
    Chain(h, f, f1, EntryAt(h, f, cur1, fp), EntryAt(h, f, f.Alt(h, cur, tmp), tmp),
        KickLoop(h, f1, f.Alt(h, cur, tmp), tmp, f.maxKickSteps));
  }

  /** Insertions in turn, up to the first that fails. */
  ghost function InsertAll(h: Hashes, f: Filter, ks: seq<Key>): (r: (Filter, bool))
    requires f.Ok()
    ensures r.0.Ok()
  {
    if ks == [] then (f, true)
    else
      var before := InsertAll(h, f, ks[..|ks| - 1]);
      if !before.1 then before
      else
        var r := Insert(h, before.0, ks[|ks| - 1]);
        (r.0, r.1 == 0)
  }

  lemma InsertAllNext(h: Hashes, f: Filter, ks: seq<Key>, i: nat)
    requires f.Ok() && i < |ks| && InsertAll(h, f, ks[..i]).1
    ensures var before := InsertAll(h, f, ks[..i]);
            InsertAll(h, f, ks[..i + 1]) == (Insert(h, before.0, ks[i]).0, Insert(h, before.0, ks[i]).1 == 0)
  {
    hide Filter.Ok, Insert;
    assert ks[..i + 1][..i] == ks[..i];
  }

  lemma {:induction false} InsertAllStuck(h: Hashes, f: Filter, ks: seq<Key>, i: nat)
    requires f.Ok() && i <= |ks| && !InsertAll(h, f, ks[..i]).1
    ensures !InsertAll(h, f, ks).1
    decreases |ks| - i
  {
    hide Filter.Ok, Insert;
    if i == |ks| {
      assert ks[..i] == ks;
    } else {
      assert ks[..i + 1][..i] == ks[..i];
      InsertAllStuck(h, f, ks, i + 1);
    }
  }

  lemma InsertNone(h: Hashes, f: Filter, ks: seq<Key>)
    requires f.Ok()
    ensures InsertAll(h, f, ks[..0]) == (f, true)
  {
  }

  /** `filled_cell` is the number of occupied cells. */
  ghost predicate CellsCounted(f: Filter)
    requires f.Ok()
  {
    f.filledCell == CellsUpTo(f, f.n)
  }

  /** Four slots a bucket. */
  lemma {:induction false} CellsBounded(f: Filter, k: nat)
    requires f.Ok() && k <= f.n
    ensures CellsUpTo(f, k) <= 4 * k
    decreases k
  {
    hide Filter.Ok, Filter.Take;
    if k > 0 { CellsBounded(f, k - 1); }
  }

  // ---- Lookup and deletion ----

  ghost predicate StoredIn(h: Hashes, f: Filter, e: Entry, p: nat)
    requires f.Ok() && p < f.n
  {
    e.fp != 0 && e.fp in f.Take(p) && EntryAt(h, f, p, e.fp) == e
  }

  /** An entry is stored exactly when some bucket holds its fingerprint. */
  lemma {:induction false} EntryStored(h: Hashes, f: Filter, e: Entry, k: nat)
    requires f.Ok() && k <= f.n
    ensures e in EntriesUpTo(h, f, k) <==> exists p: nat :: p < k && StoredIn(h, f, e, p)
    decreases k
  {
    hide Filter.Ok, Filter.Take, Filter.Alt, EntryAt, BucketEntries;
    if k > 0 {
      EntryStored(h, f, e, k - 1);
      BucketStored(h, f, e, k - 1, f.Take(k - 1));
      assert e in EntriesUpTo(h, f, k) <==> e in EntriesUpTo(h, f, k - 1) || StoredIn(h, f, e, k - 1);
      hide StoredIn, EntriesUpTo;
    }
  }

  lemma BucketStored(h: Hashes, f: Filter, e: Entry, p: nat, s: seq<nat>)
    requires f.Ok() && p < f.n && |s| == 4
    ensures e in BucketEntries(h, f, p, s) <==> e.fp != 0 && e.fp in s && EntryAt(h, f, p, e.fp) == e
  {
    hide Filter.Ok, Filter.Alt, EntryAt, SlotEntries;
    SlotStored(h, f, e, p, s[0]);
    SlotStored(h, f, e, p, s[1]);
    SlotStored(h, f, e, p, s[2]);
    SlotStored(h, f, e, p, s[3]);
    InFour(e, SlotEntries(h, f, p, s[0]), SlotEntries(h, f, p, s[1]), SlotEntries(h, f, p, s[2]),
           SlotEntries(h, f, p, s[3]));
    assert e.fp in s <==> e.fp == s[0] || e.fp == s[1] || e.fp == s[2] || e.fp == s[3];
  }

  lemma InFour(e: Entry, a: multiset<Entry>, b: multiset<Entry>, c: multiset<Entry>, d: multiset<Entry>)
    ensures e in a + b + c + d <==> e in a || e in b || e in c || e in d
  {
  }

  lemma SlotStored(h: Hashes, f: Filter, e: Entry, p: nat, fp: nat)
    requires f.Ok() && p < f.n
    ensures e in SlotEntries(h, f, p, fp) <==> fp != 0 && e.fp == fp && EntryAt(h, f, p, fp) == e
  {
    hide Filter.Ok, Filter.Alt;
  }

  /** `lookup` answers whether the entry of the element is stored. */
  lemma LookupExact(h: Hashes, f: Filter, ele: Key)
    requires f.Ok()
    ensures Lookup(h, f, ele) <==> EntryOf(h, f, ele) in Entries(h, f)
  {
    hide Filter.Ok, Filter.Take, Filter.Alt, Filter.Position, Filter.Fingerprint, EntriesUpTo, Pow2;
    f.Sizes();
    var x := h.mix(ele);
    var fp := f.Fingerprint(h, x);
    var p := f.Position(x);
    var e := EntryOf(h, f, ele);
    EntryStored(h, f, e, f.n);
    SameEntry(h, f, p, fp, f.Alt(h, p, fp), fp);
    assert InBucket(f, p, fp) ==> StoredIn(h, f, e, p);
    assert InBucket(f, f.Alt(h, p, fp), fp) ==> StoredIn(h, f, e, f.Alt(h, p, fp));
    if e in Entries(h, f) {
      var q: nat :| q < f.n && StoredIn(h, f, e, q);
      SameEntry(h, f, p, fp, q, fp);
    }
  }

  /** One copy of `e` has gone if there was one, and nothing else has changed. */
  ghost predicate Removed(h: Hashes, f: Filter, e: Entry, r: (Filter, bool))
    requires f.Ok() && r.0.Ok()
  {
    && SameGeometry(f, r.0) && r.0.maxKickSteps == f.maxKickSteps
    && r.1 == (e in Entries(h, f))
    && Entries(h, r.0) == Entries(h, f) - multiset{e}
    && r.0.filledCell == f.filledCell - (if r.1 then 1 else 0)
  }

  /** `del` removes one copy of the element's entry, if there is one, and nothing else. */
  lemma DeleteEntries(h: Hashes, f: Filter, ele: Key)
    requires f.Ok()
    ensures Removed(h, f, EntryOf(h, f, ele), Delete(h, f, ele))
  {
    hide Filter.Ok, Filter.Take, Filter.Alt, Filter.Position, Filter.Fingerprint, Entries, Pow2, DeleteAt, EntryAt;
    hide Removed;
    f.Sizes();
    LookupExact(h, f, ele);
    var x := h.mix(ele);
    var fp := f.Fingerprint(h, x);
    var p := f.Position(x);
    var q := f.Alt(h, p, fp);
    SameEntry(h, f, p, fp, q, fp);
    if InBucket(f, p, fp) {
      DeleteAtRemoves(h, f, p, fp);
    } else {
      DeleteAtMisses(f, p, fp);
      if InBucket(f, q, fp) {
        DeleteAtRemoves(h, f, q, fp);
      } else {
        DeleteAtMisses(f, q, fp);
        NothingRemoved(h, f, EntryOf(h, f, ele));
      }
    }
  }

  lemma NothingRemoved(h: Hashes, f: Filter, e: Entry)
    requires f.Ok() && e !in Entries(h, f)
    ensures Removed(h, f, e, (f, false))
  {
    hide Filter.Ok, Entries;
  }

  lemma DeleteAtMisses(f: Filter, p: nat, fp: nat)
    requires f.Ok() && p < f.n && !InBucket(f, p, fp)
    ensures DeleteAt(f, p, fp) == (f, false)
  {
    hide Filter.Ok, Filter.Take, Filter.With, Overwrite;
  }

  lemma DeleteAtRemoves(h: Hashes, f: Filter, p: nat, fp: nat)
    requires f.Ok() && p < f.n && IsPrint(f, fp) && InBucket(f, p, fp)
    ensures DeleteAt(f, p, fp).1 && Removed(h, f, EntryAt(h, f, p, fp), DeleteAt(f, p, fp))
  {
    hide Filter.Ok, Filter.Take, DeleteAt, EntryAt, Entries, Pow2;
    DeleteAtEntries(h, f, p, fp);
    var e, r := EntryAt(h, f, p, fp), DeleteAt(f, p, fp);
    assert e in Entries(h, r.0) + multiset{e};
    assert Entries(h, f) - multiset{e} == Entries(h, r.0);
  }

  lemma DeleteAtEntries(h: Hashes, f: Filter, p: nat, fp: nat)
    requires f.Ok() && p < f.n && IsPrint(f, fp)
    ensures var e, r := EntryAt(h, f, p, fp), DeleteAt(f, p, fp);
            && SameGeometry(f, r.0) && r.0.maxKickSteps == f.maxKickSteps
            && r.1 == (fp in f.Take(p))
            && (r.1 ==> Entries(h, r.0) + multiset{e} == Entries(h, f) && r.0.filledCell == f.filledCell - 1)
            && (!r.1 ==> r.0 == f)
  {
    hide Filter.Ok, Filter.Take, Filter.With, Overwrite, SortStore, EntryAt, EntriesUpTo, Pow2;
    var i := FindSlot(f.Take(p), fp, 0);
    if i < 4 {
      var f1 := f.With(f.e, f.filledCell - 1);
      WithEntries(h, f, f1, f.n);
      OverwriteEntries(h, f1, p, i, 0);
      EntryFixed(h, f, f1, p, fp);
    }
  }

  /** The counter of occupied cells stays right, even when an insertion fails. */
  lemma CellsStayCounted(h: Hashes, f: Filter, ele: Key)
    requires f.Ok() && CellsCounted(f)
    ensures CellsCounted(Insert(h, f, ele).0) && CellsCounted(Delete(h, f, ele).0)
  {
    hide Filter.Ok, Insert, Delete, EntryOf, EntriesUpTo, CellsUpTo;
    var r, d := Insert(h, f, ele), Delete(h, f, ele);
    InsertEntries(h, f, ele);
    DeleteEntries(h, f, ele);
    EntriesAreCells(h, f, f.n);
    EntriesAreCells(h, r.0, r.0.n);
    EntriesAreCells(h, d.0, d.0.n);
    if r.1 == 1 {
      var lost :| Entries(h, r.0) + multiset{lost} == Entries(h, f) + multiset{EntryOf(h, f, ele)};
      SameSizes(Entries(h, r.0), lost, Entries(h, f), EntryOf(h, f, ele));
    }
  }

  /** What `lookup` says of an element just inserted, even if the insertion has failed. */
  lemma LookupAfterInsert(h: Hashes, f: Filter, ele: Key) returns (lost: Entry)
    requires f.Ok()
    ensures var r := Insert(h, f, ele);
            && (r.1 == 0 || r.1 == 1)
            && (r.1 == 0 ==> Lookup(h, r.0, ele))
            && (r.1 == 1 ==>
                  && Entries(h, r.0) + multiset{lost} == Entries(h, f) + multiset{EntryOf(h, f, ele)}
                  && (Lookup(h, r.0, ele) <==> Lookup(h, f, ele) || lost != EntryOf(h, f, ele)))
  {
    hide Filter.Ok, Insert, Lookup, EntryOf, Entries;
    var r, e := Insert(h, f, ele), EntryOf(h, f, ele);
    InsertEntries(h, f, ele);
    EntryOfFixed(h, f, r.0, ele);
    LookupExact(h, f, ele);
    LookupExact(h, r.0, ele);
    lost := e;
    if r.1 == 1 {
      lost :| Entries(h, r.0) + multiset{lost} == Entries(h, f) + multiset{e};
      assert (Entries(h, r.0) + multiset{lost})[e] == (Entries(h, f) + multiset{e})[e];
    }
  }

  lemma SameSizes(a: multiset<Entry>, x: Entry, b: multiset<Entry>, y: Entry)
    requires a + multiset{x} == b + multiset{y}
    ensures |a| == |b|
  {
    assert |a + multiset{x}| == |a| + 1 && |b + multiset{y}| == |b| + 1;
  }

  /** Locality: an insertion or deletion changes lookups only for elements with the same
      fingerprint and the same unordered pair of buckets. */
  lemma Locality(h: Hashes, f: Filter, ele: Key, other: Key)
    requires f.Ok() && EntryOf(h, f, other) != EntryOf(h, f, ele)
    ensures Insert(h, f, ele).1 == 0 ==> (Lookup(h, Insert(h, f, ele).0, other) <==> Lookup(h, f, other))
    ensures Lookup(h, Delete(h, f, ele).0, other) <==> Lookup(h, f, other)
  {
    hide Filter.Ok, Insert, Delete, Lookup, EntryOf, Entries;
    var f1, f2 := Insert(h, f, ele).0, Delete(h, f, ele).0;
    InsertEntries(h, f, ele);
    DeleteEntries(h, f, ele);
    LookupExact(h, f, other);
    LookupExact(h, f1, other);
    LookupExact(h, f2, other);
    EntryOfFixed(h, f, f1, other);
    EntryOfFixed(h, f, f2, other);
  }

  /** Elements with the same entry have the same fingerprint and the same two rows. */
  lemma SameRows(h: Hashes, f: Filter, a: Key, b: Key)
    requires f.Ok()
    ensures f.n > 0 && f.fpLen >= 4
    ensures var x, y := h.mix(a), h.mix(b);
            EntryOf(h, f, a) == EntryOf(h, f, b) <==>
              && f.Fingerprint(h, x) == f.Fingerprint(h, y)
              && (f.Position(y) == f.Position(x) || f.Position(y) == f.Alt(h, f.Position(x), f.Fingerprint(h, x)))
  {
    hide Filter.Ok, Filter.Alt, Filter.Position, Filter.Fingerprint, EntryAt, Pow2;
    f.Sizes();
    var x, y := h.mix(a), h.mix(b);
    SameEntry(h, f, f.Position(x), f.Fingerprint(h, x), f.Position(y), f.Fingerprint(h, y));
  }
}
