/** Insertion, deletion and lookup told without their functions: which bucket takes the new
    fingerprint, through which stages a kick chain goes, which copy goes, which keys are accepted. */
module KickTrails {
  import opened Bits
  import opened SemiSort
  import opened FilterModel
  import opened FilterEntries

  /** Bucket `p` has one fingerprint (or 0, for a free slot) replaced by another, and every other
      bucket is as before.  Buckets are kept sorted, so nothing is left open. */
  ghost predicate Exchanged(f: Filter, f': Filter, p: nat, gone: nat, added: nat)
    requires f.Ok() && f'.Ok() && p < f.n
  {
    && f'.n == f.n && gone in f.Take(p)
    && multiset(f'.Take(p)) == multiset(f.Take(p)) - multiset{gone} + multiset{added}
    && forall q: nat :: q < f.n && q != p ==> f'.Take(q) == f.Take(q)
  }

  /** Free slots of a bucket. */
  ghost function Free(f: Filter, p: nat): nat
    requires f.Ok() && p < f.n
  {
    multiset(f.Take(p))[0]
  }

  /** A fingerprint without a place, heading for bucket `alt`. */
  datatype Stage = Stage(f: Filter, alt: nat, tmp: nat) {
    ghost predicate Ok() {
      f.Ok() && alt < f.n && IsPrint(f, tmp)
    }
  }

  /** The bucket is full, and so is the other bucket of each of its four fingerprints. */
  ghost predicate Blocked(h: Hashes, s: Stage)
    requires s.Ok()
  {
    Free(s.f, s.alt) == 0 && forall i :: 0 <= i < 4 ==> !Movable(h, s, i)
  }

  /** The other bucket of fingerprint `i` has room. */
  ghost predicate Movable(h: Hashes, s: Stage, i: nat)
    requires s.Ok() && i < 4
  {
    Free(s.f, s.f.Alt(h, s.alt, s.f.Take(s.alt)[i])) > 0
  }

  /** The first kick: two numbers are drawn, the first for the slot, the second, when odd, for the
      first bucket. */
  ghost predicate Begins(h: Hashes, f: Filter, cur1: nat, cur2: nat, fp: nat, s: Stage)
    requires f.Ok() && cur1 < f.n && cur2 < f.n && s.Ok()
  {
    var e1 := h.next(f.e);
    var e2 := h.next(e1);
    var cur := if h.out(e2) % 2 == 1 then cur1 else cur2;
    var victim := f.Take(cur)[h.out(e1) % 4];
    && s.f == f.(t := s.f.t, e := e2) && Exchanged(f, s.f, cur, victim, fp)
    && s.tmp == victim && s.alt == f.Alt(h, cur, victim)
  }

  /** A round that finds no place: one number is drawn for the next victim. */
  ghost predicate Swaps(h: Hashes, s: Stage, s': Stage)
    requires s.Ok() && s'.Ok()
  {
    var e1 := h.next(s.f.e);
    var victim := s.f.Take(s.alt)[h.out(e1) % 4];
    && s'.f == s.f.(t := s'.f.t, e := e1) && Exchanged(s.f, s'.f, s.alt, victim, s.tmp)
    && s'.tmp == victim && s'.alt == s.f.Alt(h, s.alt, victim)
  }

  /** A round that ends the chain: the bucket has room, or the first of its fingerprints whose
      other bucket has room goes there. */
  ghost predicate Settles(h: Hashes, s: Stage, f': Filter)
    requires s.Ok() && f'.Ok()
  {
    && f' == s.f.(t := f'.t, filledCell := s.f.filledCell + 1)
    && (Free(s.f, s.alt) > 0 ==> Exchanged(s.f, f', s.alt, 0, s.tmp))
    && (Free(s.f, s.alt) == 0 ==>
          exists j: nat, mid: Filter :: j < 4 && mid.Ok() && Moves(h, s, j, mid, f'))
  }

  ghost predicate Moves(h: Hashes, s: Stage, j: nat, mid: Filter, f': Filter)
    requires s.Ok() && j < 4 && mid.Ok() && f'.Ok()
  {
    var moved := s.f.Take(s.alt)[j];
    && Movable(h, s, j) && (forall i :: 0 <= i < j ==> !Movable(h, s, i))
    && Exchanged(s.f, mid, s.f.Alt(h, s.alt, moved), 0, moved) && Exchanged(mid, f', s.alt, moved, s.tmp)
  }

  /** The stages of a kick chain, every one of them blocked but possibly the last. */
  ghost predicate Trail(h: Hashes, trail: seq<Stage>) {
    && |trail| > 0 && (forall i :: 0 <= i < |trail| ==> trail[i].Ok())
    && forall i :: 0 <= i < |trail| - 1 ==> Blocked(h, trail[i]) && Swaps(h, trail[i], trail[i + 1])
  }

  /** What comes of `steps` rounds: a failure with every one of them blocked, or a stage that
      finds a place after fewer. */
  ghost predicate Ends(h: Hashes, trail: seq<Stage>, steps: nat, r: (Filter, nat))
    requires Trail(h, trail) && r.0.Ok()
  {
    var last := trail[|trail| - 1];
    && (r.1 == 0 || r.1 == 1)
    && (r.1 == 1 ==> |trail| == steps + 1 && r.0 == last.f)
    && (r.1 == 0 ==> |trail| <= steps && !Blocked(h, last) && Settles(h, last, r.0))
  }

  // ---- The functions do this ----

  lemma CountFree(f: Filter, p: nat)
    requires f.Ok() && p < f.n
    ensures Free(f, p) == 4 - Count(f.Take(p))
  {
    hide Filter.Ok, Filter.Take;
    var s := f.Take(p);
    assert s == [s[0], s[1], s[2], s[3]];
    assert multiset(s) == multiset{s[0], s[1], s[2], s[3]};
  }

  lemma SlotReplaced(s: seq<nat>, i: nat, fp: nat)
    requires |s| == 4 && i < 4
    ensures s[i] in s && multiset(SortStore(s[i := fp])) == multiset(s) - multiset{s[i]} + multiset{fp}
  {
    hide SortStore;
    NetworkSorts(s[i := fp]);
    assert s[i := fp] == s[..i] + [fp] + s[i + 1..] && s == s[..i] + [s[i]] + s[i + 1..];
  }

  lemma OverwriteExchanges(f: Filter, g: Filter, p: nat, i: nat, fp: nat)
    requires f.Ok() && g.Ok() && g.n == f.n && g.fpLen == f.fpLen && p < f.n && i < 4 && fp < Pow2(f.fpLen)
    requires forall q: nat :: q < f.n ==> g.Take(q) == f.Take(q)
    ensures Exchanged(f, Overwrite(g, p, i, fp), p, f.Take(p)[i], fp)
  {
    hide Filter.Ok, Filter.Take, Overwrite, SortStore, Pow2;
    SlotReplaced(f.Take(p), i, fp);
  }

  lemma PlaceExchanges(f: Filter, p: nat, fp: nat)
    requires f.Ok() && p < f.n && IsPrint(f, fp) && Free(f, p) > 0
    ensures Exchanged(f, Place(f, p, fp), p, 0, fp)
  {
    hide Filter.Ok, Filter.Take, Filter.With, Overwrite, SortStore, Pow2;
    LastFree(f, p);
    var g := f.With(f.e, f.filledCell + 1);
    OverwriteExchanges(f, g, p, 3, fp);
  }

  lemma LastFree(f: Filter, p: nat)
    requires f.Ok() && p < f.n && Free(f, p) > 0
    ensures f.Take(p)[3] == 0
  {
    hide Filter.Ok, Filter.Take;
    f.TakeSorted(p);
  }

  lemma FindRoomFirst(h: Hashes, s: Stage, j: nat)
    requires s.Ok() && j <= 4 && Free(s.f, s.alt) == 0
    ensures var k := FindRoom(h, s.f, s.alt, s.f.Take(s.alt), j);
            && j <= k <= 4 && (k < 4 ==> Movable(h, s, k))
            && forall i: nat :: j <= i < k && i < 4 ==> !Movable(h, s, i)
    decreases 4 - j
  {
    hide Filter.Ok, Filter.Take, Filter.Alt, Count, Free;
    if j < 4 {
      CountFree(s.f, s.f.Alt(h, s.alt, s.f.Take(s.alt)[j]));
      FindRoomFirst(h, s, j + 1);
    }
  }

  /** A round with a place to go to. */
  lemma RoundSettles(h: Hashes, s: Stage, steps: nat)
    requires s.Ok() && steps > 0 && !Blocked(h, s)
    ensures var r := KickLoop(h, s.f, s.alt, s.tmp, steps); r.1 == 0 && Settles(h, s, r.0)
  {
    hide Filter.Ok, Filter.Take, Filter.Alt, Filter.With, Overwrite, Place, SortStore, Count, Pow2, FindRoom, Free;
    hide Exchanged, Movable;
    CountFree(s.f, s.alt);
    if Free(s.f, s.alt) > 0 {
      PlaceExchanges(s.f, s.alt, s.tmp);
    } else {
      FindRoomFirst(h, s, 0);
      var j := FindRoom(h, s.f, s.alt, s.f.Take(s.alt), 0);
      FullSlots(s.f, s.alt, j);
      MoveSettles(h, s, j);
    }
  }

  lemma MoveSettles(h: Hashes, s: Stage, j: nat)
    requires s.Ok() && j < 4 && Free(s.f, s.alt) == 0 && Movable(h, s, j)
    requires forall i :: 0 <= i < j ==> !Movable(h, s, i)
    requires IsPrint(s.f, s.f.Take(s.alt)[j])
    ensures var moved := s.f.Take(s.alt)[j];
            var mid := Place(s.f, s.f.Alt(h, s.alt, moved), moved);
            Moves(h, s, j, mid, Overwrite(mid, s.alt, j, s.tmp))
  {
    hide Filter.Ok, Filter.Take, Filter.Alt, Filter.With, Overwrite, Place, SortStore, Count, Pow2, Free, Exchanged;
    var moved := s.f.Take(s.alt)[j];
    var nex := s.f.Alt(h, s.alt, moved);
    s.f.AltBack(h, s.alt, moved);
    PlaceExchanges(s.f, nex, moved);
    var mid := Place(s.f, nex, moved);
    OverwriteExchanges(mid, mid, s.alt, j, s.tmp);
  }

  /** A round without one. */
  lemma RoundSwaps(h: Hashes, s: Stage, steps: nat) returns (s': Stage)
    requires s.Ok() && steps > 0 && Blocked(h, s)
    ensures s'.Ok() && Swaps(h, s, s')
    ensures KickLoop(h, s.f, s.alt, s.tmp, steps) == KickLoop(h, s'.f, s'.alt, s'.tmp, steps - 1)
  {
    hide Filter.Ok, Filter.Take, Filter.Alt, Filter.With, Overwrite, Place, SortStore, Count, Pow2, FindRoom, Free;
    hide Exchanged, Movable;
    CountFree(s.f, s.alt);
    FindRoomFirst(h, s, 0);
    var e1 := h.next(s.f.e);
    var rk := h.out(e1) % 4;
    var victim := s.f.Take(s.alt)[rk];
    FullSlots(s.f, s.alt, rk);
    OverwriteExchanges(s.f, s.f.With(e1, s.f.filledCell), s.alt, rk, s.tmp);
    s' := Stage(Overwrite(s.f.With(e1, s.f.filledCell), s.alt, rk, s.tmp), s.f.Alt(h, s.alt, victim), victim);
  }

  lemma {:induction false} LoopTraced(h: Hashes, s: Stage, steps: nat) returns (trail: seq<Stage>)
    requires s.Ok()
    ensures Trail(h, trail) && trail[0] == s && Ends(h, trail, steps, KickLoop(h, s.f, s.alt, s.tmp, steps))
    decreases steps
  {
    hide Filter.Ok, KickLoop, Blocked, Swaps, Settles, Stage.Ok;
    trail := [s];
    if steps == 0 {
      NoRounds(h, s);
    } else if Blocked(h, s) {
      var s' := RoundSwaps(h, s, steps);
      var rest := LoopTraced(h, s', steps - 1);
      trail := [s] + rest;
      forall i | 0 <= i < |trail| - 1 ensures Blocked(h, trail[i]) && Swaps(h, trail[i], trail[i + 1]) {
        if i > 0 { assert trail[i] == rest[i - 1] && trail[i + 1] == rest[i - 1 + 1]; }
      }
    } else {
      RoundSettles(h, s, steps);
    }
  }

  lemma NoRounds(h: Hashes, s: Stage)
    requires s.Ok()
    ensures KickLoop(h, s.f, s.alt, s.tmp, 0) == (s.f, 1)
  {
    hide Filter.Ok, Filter.Take, Filter.Alt, Filter.With, Overwrite, Place, SortStore, Count, Pow2, FindRoom;
  }

  lemma KickBegins(h: Hashes, f: Filter, cur1: nat, cur2: nat, fp: nat) returns (s: Stage)
    requires f.Ok() && cur1 < f.n && cur2 < f.n && IsPrint(f, fp) && Free(f, cur1) == 0 && Free(f, cur2) == 0
    ensures s.Ok() && Begins(h, f, cur1, cur2, fp, s)
    ensures Count(f.Take(cur1)) == 4 && Count(f.Take(cur2)) == 4
    ensures Kick(h, f, cur1, cur2, fp) == KickLoop(h, s.f, s.alt, s.tmp, f.maxKickSteps)
  {
    hide Filter.Ok, Filter.Take, Filter.Alt, Filter.With, Overwrite, SortStore, Count, Pow2, KickLoop, Free, Exchanged;
    CountFree(f, cur1);
    CountFree(f, cur2);
    var e1 := h.next(f.e);
    var e2 := h.next(e1);
    var cur := if h.out(e2) % 2 == 1 then cur1 else cur2;
    var rk := h.out(e1) % 4;
    var victim := f.Take(cur)[rk];
    FullSlots(f, cur, rk);
    OverwriteExchanges(f, f.With(e2, f.filledCell), cur, rk, fp);
    s := Stage(Overwrite(f.With(e2, f.filledCell), cur, rk, fp), f.Alt(h, cur, victim), victim);
  }

  // ---- Insertion ----

  /** What `insert` does with an element whose fingerprint is `fp` and whose buckets are `p` and
      `q`: the emptier bucket takes it, the first if they are equal; if both are full, a kick chain
      of at most `maxKickSteps` rounds decides. */
  ghost predicate Inserts(h: Hashes, f: Filter, p: nat, q: nat, fp: nat, r: (Filter, nat))
    requires f.Ok() && r.0.Ok() && p < f.n && q < f.n
  {
    if Free(f, p) == Free(f, q) == 0 then
      exists trail :: TrailFrom(h, f, p, q, fp, trail) && Ends(h, trail, f.maxKickSteps, r)
    else
      && r.1 == 0 && r.0 == f.(t := r.0.t, filledCell := f.filledCell + 1)
      && Exchanged(f, r.0, if Free(f, p) >= Free(f, q) then p else q, 0, fp)
  }

  ghost predicate TrailFrom(h: Hashes, f: Filter, p: nat, q: nat, fp: nat, trail: seq<Stage>)
    requires f.Ok() && p < f.n && q < f.n
  {
    Trail(h, trail) && Begins(h, f, p, q, fp, trail[0])
  }

  lemma InsertAtTraced(h: Hashes, f: Filter, p: nat, fp: nat)
    requires f.Ok() && p < f.n && IsPrint(f, fp)
    ensures Inserts(h, f, p, f.Alt(h, p, fp), fp, InsertAt(h, f, p, fp))
  {
    hide Filter.Ok, Filter.Take, Filter.Alt, Place, Count, Pow2, Kick, KickLoop, Free, Exchanged, Trail, Begins, Ends;
    var q := f.Alt(h, p, fp);
    CountFree(f, p);
    CountFree(f, q);
    if Free(f, p) == Free(f, q) == 0 {
      var s := KickBegins(h, f, p, q, fp);
      var trail := LoopTraced(h, s, f.maxKickSteps);
      assert TrailFrom(h, f, p, q, fp, trail);
    } else {
      PlaceExchanges(f, if Free(f, p) >= Free(f, q) then p else q, fp);
    }
  }

  /** Insertion of an element.  Fingerprint and buckets are those of `FingerprintByTag`,
      `PositionCongruent` and `AltDigits`. */
  lemma InsertTraced(h: Hashes, f: Filter, ele: Key)
    requires f.Ok()
    ensures f.n > 0 && f.fpLen >= 4
    ensures var x := h.mix(ele);
            var fp := f.Fingerprint(h, x);
            Inserts(h, f, f.Position(x), f.Alt(h, f.Position(x), fp), fp, Insert(h, f, ele))
  {
    hide Filter.Ok, Filter.Position, Filter.Fingerprint, Filter.Alt, InsertAt, Inserts, Pow2;
    f.Sizes();
    var x := h.mix(ele);
    InsertAtTraced(h, f, f.Position(x), f.Fingerprint(h, x));
  }

  // ---- The stages are determined ----

  /** The same buckets, whatever the words that hold them. */
  ghost predicate SameBuckets(f: Filter, g: Filter)
    requires f.Ok() && g.Ok()
  {
    g == f.(t := g.t) && forall p: nat :: p < f.n ==> g.Take(p) == f.Take(p)
  }

  ghost predicate Descends(s: seq<nat>) {
    forall i, j :: 0 <= i < j < |s| ==> s[i] >= s[j]
  }

  lemma HeadGreatest(a: seq<nat>, x: nat)
    requires Descends(a) && x in a
    ensures a[0] >= x
  {
  }

  lemma TailOf(a: seq<nat>)
    requires a != []
    ensures multiset(a[1..]) == multiset(a) - multiset{a[0]} && (Descends(a) ==> Descends(a[1..]))
  {
    assert a == [a[0]] + a[1..];
  }

  lemma SameLength(a: seq<nat>, b: seq<nat>)
    requires multiset(a) == multiset(b)
    ensures |a| == |b|
  {
    assert |multiset(a)| == |a| && |multiset(b)| == |b|;
  }

  lemma SameHeads(a: seq<nat>, b: seq<nat>)
    requires Descends(a) && Descends(b) && multiset(a) == multiset(b) && a != [] && b != []
    ensures a[0] == b[0]
  {
    assert a[0] in multiset(b) && b[0] in multiset(a);
    HeadGreatest(a, b[0]);
    HeadGreatest(b, a[0]);
  }

  lemma {:induction false} SortedSame(a: seq<nat>, b: seq<nat>)
    requires Descends(a) && Descends(b) && multiset(a) == multiset(b)
    ensures a == b
  {
    hide Descends;
    SameLength(a, b);
    if |a| > 0 {
      SameHeads(a, b);
      TailOf(a);
      TailOf(b);
      SortedSame(a[1..], b[1..]);
      HeadAndTail(a, b);
    }
  }

  lemma HeadAndTail(a: seq<nat>, b: seq<nat>)
    requires a != [] && b != [] && a[0] == b[0] && a[1..] == b[1..]
    ensures a == b
  {
    assert a == [a[0]] + a[1..] && b == [b[0]] + b[1..];
  }

  lemma SortedBuckets(f: Filter, p: nat)
    requires f.Ok() && p < f.n
    ensures Descends(f.Take(p))
  {
    hide Filter.Ok, Filter.Take, Pow2;
    f.TakeSorted(p);
  }

  lemma SameExchange(f: Filter, g: Filter, f': Filter, g': Filter, p: nat, gone: nat, added: nat, e: uint64)
    requires f.Ok() && g.Ok() && f'.Ok() && g'.Ok() && SameBuckets(f, g) && p < f.n
    requires f' == f.(t := f'.t, e := e) && g' == g.(t := g'.t, e := e)
    requires Exchanged(f, f', p, gone, added) && Exchanged(g, g', p, gone, added)
    ensures SameBuckets(f', g')
  {
    hide Filter.Ok, Filter.Take, Descends;
    SortedBuckets(f', p);
    SortedBuckets(g', p);
    SortedSame(f'.Take(p), g'.Take(p));
  }

  lemma SameGeometryAlt(h: Hashes, f: Filter, g: Filter, p: nat, fp: nat)
    requires f.Ok() && g.Ok() && SameBuckets(f, g) && p < f.n
    ensures g.Alt(h, p, fp) == f.Alt(h, p, fp)
  {
    hide Filter.Ok, Filter.Take, Segments.Alternate;
  }

  /** Stages with the same buckets are blocked alike and go on alike. */
  ghost predicate SameStage(s: Stage, s': Stage)
    requires s.Ok() && s'.Ok()
  {
    SameBuckets(s.f, s'.f) && s'.alt == s.alt && s'.tmp == s.tmp
  }

  lemma SameBlocked(h: Hashes, s: Stage, s': Stage)
    requires s.Ok() && s'.Ok() && SameStage(s, s')
    ensures Blocked(h, s) ==> Blocked(h, s')
  {
    hide Filter.Ok, Filter.Take, Filter.Alt;
    if Blocked(h, s) {
      forall i | 0 <= i < 4 ensures !Movable(h, s', i) {
        assert !Movable(h, s, i);
        SameGeometryAlt(h, s.f, s'.f, s.alt, s.f.Take(s.alt)[i]);
      }
    }
  }

  lemma SameSwap(h: Hashes, s: Stage, s': Stage, u: Stage, u': Stage)
    requires s.Ok() && s'.Ok() && u.Ok() && u'.Ok() && SameStage(s, s')
    requires Swaps(h, s, u) && Swaps(h, s', u')
    ensures SameStage(u, u')
  {
    hide Filter.Ok, Filter.Take, Filter.Alt, Exchanged;
    var e1 := h.next(s.f.e);
    var victim := s.f.Take(s.alt)[h.out(e1) % 4];
    SameExchange(s.f, s'.f, u.f, u'.f, s.alt, victim, s.tmp, e1);
    SameGeometryAlt(h, s.f, s'.f, s.alt, victim);
  }

  lemma {:induction false} SameTrail(h: Hashes, f: Filter, p: nat, q: nat, fp: nat, a: seq<Stage>, b: seq<Stage>,
      i: nat)
    requires f.Ok() && p < f.n && q < f.n && i < |a| && i < |b|
    requires TrailFrom(h, f, p, q, fp, a) && TrailFrom(h, f, p, q, fp, b)
    ensures SameStage(a[i], b[i])
    decreases i
  {
    hide Filter.Ok, Filter.Take, Filter.Alt, Exchanged, Blocked, Swaps, SameStage, Stage.Ok;
    if i == 0 {
      SameStart(h, f, p, q, fp, a[0], b[0]);
    } else {
      SameTrail(h, f, p, q, fp, a, b, i - 1);
      assert Swaps(h, a[i - 1], a[i - 1 + 1]) && Swaps(h, b[i - 1], b[i - 1 + 1]);
      SameSwap(h, a[i - 1], b[i - 1], a[i], b[i]);
    }
  }

  lemma SameStart(h: Hashes, f: Filter, p: nat, q: nat, fp: nat, s: Stage, s': Stage)
    requires f.Ok() && p < f.n && q < f.n && s.Ok() && s'.Ok()
    requires Begins(h, f, p, q, fp, s) && Begins(h, f, p, q, fp, s')
    ensures SameStage(s, s')
  {
    hide Filter.Ok, Filter.Take, Filter.Alt, Exchanged;
    var e2 := h.next(h.next(f.e));
    var cur := if h.out(e2) % 2 == 1 then p else q;
    SameExchange(f, f, s.f, s'.f, cur, f.Take(cur)[h.out(h.next(f.e)) % 4], fp, e2);
  }

  /** The chain fails if and only if `maxKickSteps` rounds in a row are blocked. */
  lemma KickFails(h: Hashes, f: Filter, p: nat, q: nat, fp: nat, r: (Filter, nat))
    requires f.Ok() && r.0.Ok() && p < f.n && q < f.n && Inserts(h, f, p, q, fp, r)
    requires Free(f, p) == Free(f, q) == 0
    ensures r.1 == 1 <==> exists trail: seq<Stage> :: |trail| == f.maxKickSteps + 1 && TrailFrom(h, f, p, q, fp, trail)
  {
    hide Filter.Ok, Free, Begins, Blocked, Swaps, Settles, Stage.Ok, SameStage;
    var trail: seq<Stage> :| TrailFrom(h, f, p, q, fp, trail) && Ends(h, trail, f.maxKickSteps, r);
    if r.1 == 0 {
      var last := |trail| - 1;
      forall other: seq<Stage> | |other| == f.maxKickSteps + 1 && TrailFrom(h, f, p, q, fp, other) ensures false {
        SameTrail(h, f, p, q, fp, other, trail, last);
        assert Blocked(h, other[last]);
        SameBlocked(h, other[last], trail[last]);
      }
    }
  }

  /** So it succeeds whenever the other bucket of the first victim has room. */
  lemma KickSucceeds(h: Hashes, f: Filter, p: nat, q: nat, fp: nat, r: (Filter, nat))
    requires f.Ok() && r.0.Ok() && p < f.n && q < f.n && Inserts(h, f, p, q, fp, r)
    requires Free(f, p) == Free(f, q) == 0 && f.maxKickSteps > 0
    requires var cur := if h.out(h.next(h.next(f.e))) % 2 == 1 then p else q;
             Free(f, f.Alt(h, cur, f.Take(cur)[h.out(h.next(f.e)) % 4])) > 0
    ensures r.1 == 0
  {
    hide Filter.Ok, Filter.Take, Filter.Alt, Swaps, Settles;
    var trail: seq<Stage> :| TrailFrom(h, f, p, q, fp, trail) && Ends(h, trail, f.maxKickSteps, r);
    var cur := if h.out(h.next(h.next(f.e))) % 2 == 1 then p else q;
    f.AltBack(h, cur, f.Take(cur)[h.out(h.next(f.e)) % 4]);
    assert trail[0].Ok() && Free(trail[0].f, trail[0].alt) > 0;
    assert |trail| > 1 ==> Blocked(h, trail[0]);
  }

  // ---- Deletion and lookup ----

  lemma DeleteAtWhere(f: Filter, p: nat, fp: nat)
    requires f.Ok() && p < f.n
    ensures var r := DeleteAt(f, p, fp);
            && (r.1 <==> fp in f.Take(p))
            && (r.1 ==> r.0 == f.(t := r.0.t, filledCell := f.filledCell - 1) && Exchanged(f, r.0, p, fp, 0))
            && (!r.1 ==> r.0 == f)
  {
    hide Filter.Ok, Filter.Take, Filter.With, Overwrite, Pow2;
    var i := FindSlot(f.Take(p), fp, 0);
    if i < 4 { OverwriteExchanges(f, f.With(f.e, f.filledCell - 1), p, i, 0); }
  }

  /** `del`: the copy in the first bucket goes if there is one, else the copy in the other. */
  lemma DeleteWhere(h: Hashes, f: Filter, ele: Key)
    requires f.Ok()
    ensures f.n > 0 && f.fpLen >= 4
    ensures var x := h.mix(ele);
            var fp := f.Fingerprint(h, x);
            var (p, q) := (f.Position(x), f.Alt(h, f.Position(x), fp));
            var r := Delete(h, f, ele);
            && (r.1 <==> fp in f.Take(p) || fp in f.Take(q))
            && (r.1 ==> r.0 == f.(t := r.0.t, filledCell := f.filledCell - 1)
                        && Exchanged(f, r.0, if fp in f.Take(p) then p else q, fp, 0))
            && (!r.1 ==> r.0 == f)
  {
    hide Filter.Ok, Filter.Position, Filter.Fingerprint, Filter.Alt, Filter.Take, DeleteAt, Exchanged;
    f.Sizes();
    var x := h.mix(ele);
    var fp := f.Fingerprint(h, x);
    DeleteAtWhere(f, f.Position(x), fp);
    DeleteAtWhere(f, f.Alt(h, f.Position(x), fp), fp);
  }

  /** `lookup`: the fingerprint is in one of the two buckets.  It is any number from 1 to the
      largest of its length that is congruent to the hash of the element plus 1. */
  lemma LookupWhere(h: Hashes, f: Filter, ele: Key, fp: nat)
    requires f.Ok() && IsPrint(f, fp) && (h.tag(h.mix(ele)) + 1 - fp) % (Pow2(f.fpLen) - 1) == 0
    ensures f.n > 0
    ensures var p := f.Position(h.mix(ele));
            Lookup(h, f, ele) <==> fp in f.Take(p) || fp in f.Take(f.Alt(h, p, fp))
  {
    hide Filter.Ok, Filter.Position, Filter.Fingerprint, Filter.Alt, Filter.Take, Pow2;
    f.Sizes();
    var x := h.mix(ele);
    PrintIs(f, h, x, fp);
  }

  lemma PrintIs(f: Filter, h: Hashes, x: uint64, fp: nat)
    requires f.fpLen >= 4 && IsPrint(f, fp) && (h.tag(x) + 1 - fp) % (Pow2(f.fpLen) - 1) == 0
    ensures f.Fingerprint(h, x) == fp
  {
    f.LongPrints();
    hide Pow2;
    Congruent(h.tag(x), fp - 1, Pow2(f.fpLen) - 1);
    DivModUnique(fp - 1, Pow2(f.fpLen) - 1, 0, fp - 1);
  }

  /** The first key of a filter: it gets in, and another key is then accepted exactly when its hash
      is congruent and its bucket is one of the two. */
  lemma OneKeyAccepts(h: Hashes, f: Filter, x: Key, y: Key)
    requires f.Ok() && Entries(h, f) == multiset{}
    ensures f.n > 0 && f.fpLen >= 4
    ensures var r := Insert(h, f, x);
            var (p, fp) := (f.Position(h.mix(x)), f.Fingerprint(h, h.mix(x)));
            && r.1 == 0
            && (Lookup(h, r.0, y) <==>
                  && (h.tag(h.mix(x)) - h.tag(h.mix(y))) % (Pow2(f.fpLen) - 1) == 0
                  && (f.Position(h.mix(y)) == p || f.Position(h.mix(y)) == f.Alt(h, p, fp)))
  {
    hide Filter.Ok, Filter.Position, Filter.Fingerprint, Filter.Alt, Filter.Take, Insert, Lookup, Pow2, EntryAt;
    f.Sizes();
    var r := Insert(h, f, x);
    var (p, fp) := (f.Position(h.mix(x)), f.Fingerprint(h, h.mix(x)));
    InsertTraced(h, f, x);
    NothingFull(h, f, p);
    InsertEntries(h, f, x);
    LookupExact(h, r.0, y);
    EntryOfFixed(h, f, r.0, y);
    f.FingerprintByTag(h, h.mix(x), h.mix(y));
    SameEntry(h, f, p, fp, f.Position(h.mix(y)), f.Fingerprint(h, h.mix(y)));
  }

  lemma NothingFull(h: Hashes, f: Filter, p: nat)
    requires f.Ok() && Entries(h, f) == multiset{} && p < f.n
    ensures Free(f, p) > 0
  {
    hide Filter.Ok, Filter.Take, EntryAt, Free;
    CountFree(f, p);
    NothingUpTo(h, f, p, f.n);
    BucketCells(h, f, p, f.Take(p));
  }

  lemma {:induction false} NothingUpTo(h: Hashes, f: Filter, p: nat, k: nat)
    requires f.Ok() && p < k <= f.n && EntriesUpTo(h, f, k) == multiset{}
    ensures BucketEntries(h, f, p, f.Take(p)) == multiset{}
    decreases k
  {
    hide Filter.Ok, Filter.Take, BucketEntries;
    var a, b := EntriesUpTo(h, f, k - 1), BucketEntries(h, f, k - 1, f.Take(k - 1));
    NothingApart(a, b);
    if p < k - 1 { NothingUpTo(h, f, p, k - 1); }
  }

  lemma NothingApart(a: multiset<Entry>, b: multiset<Entry>)
    requires a + b == multiset{}
    ensures a == multiset{} && b == multiset{}
  {
    forall e: Entry ensures a[e] == 0 && b[e] == 0 {
      assert (a + b)[e] == 0;
    }
  }
}
