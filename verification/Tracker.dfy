/** The tracker: filter and Othello together answer exactly on the known keys, and report the
    Othello cells that change. */
module Trackers {
  import opened Bits
  import opened PackedArray
  import opened ControlPlane
  import opened VacuumFilters
  import opened TrackerModel
  import opened KeyGraphs
  import opened Growth
  import opened Wrappers
  import opened Sizing
  import opened Copies
  import FM = FilterModel
  import FE = FilterEntries

  /** Where the random stream is after the construction of a tracker: its first Othello has taken
      three numbers for its hash functions and two for each of its two builds. */
  const DRAWN_AT_START: nat := 7

  class DassTracker {
    const setup: Setup
    const vf: VacuumFilter
    var othello: ControlPlaneOthello
    var pk: set<Key>
    var nk: set<Key>
    var tnk: seq<seq<Key>>
    var fpk: seq<seq<Key>>
    var nPositive: nat
    var nNegative: nat
    var fpLen: nat

    ghost predicate Valid()
      reads this, vf, othello, othello.connectivityForest
    {
      othello.Valid() && Exact(vf.h, vf.View(), othello.contents, pk, nk, tnk, fpk)
    }

    /** What a verifier gets of the tracker. */
    function Held(): Copy
      reads this, vf, othello
    {
      Copy(vf.View(), othello.mem, othello.ma, othello.mb, othello.seed)
    }

    /** A tracker before `init`. */
    constructor (setup: Setup)
      requires Sane(setup)
      ensures this.setup == setup && vf.h == setup.h && othello.hash == setup.hash
      ensures fresh(vf) && fresh(othello) && fresh(othello.connectivityForest)
      ensures pk == nk == {} && othello.drawn == DRAWN_AT_START == 7
    {
      this.setup := setup;
      vf := new VacuumFilter(setup.h);
      othello := new ControlPlaneOthello(setup.hash, setup.draw, setup.scaleMa, setup.capacity(256) + 1, 0);
      pk, nk, tnk, fpk := {}, {}, [], [];
      nPositive, nNegative, fpLen := 0, 0, 0;
    }

    // ---- Building ----

    /** An empty filter and empty tables of matching size. */
    ghost predicate Blank()
      reads this, vf
    {
      && vf.Ok() && vf.Sized() && vf.fpLen == fpLen && vf.h == setup.h
      && Pristine(vf.View(), vf.n, fpLen, MAX_STEPS) && FE.Entries(vf.h, vf.View()) == multiset{}
      && RowsEmpty()
    }

    ghost predicate RowsEmpty()
      reads this`tnk, this`fpk, vf`n
    {
      |tnk| == |fpk| == vf.n && forall r :: 0 <= r < |tnk| ==> tnk[r] == [] && fpk[r] == []
    }

    /** `init`, with the sizes that the source computes with floats. */
    method Init(positives: nat, negatives: nat)
      requires SizesFit(setup, positives, negatives, 0) && vf.h == setup.h
      modifies this`nPositive, this`nNegative, this`fpLen, this`tnk, this`fpk, vf
      ensures Blank() && nPositive == positives && nNegative == negatives
      ensures fpLen == setup.printLength(positives, negatives) && vf.n == Buckets(setup, positives)
      ensures vf.n % 2 == 0 && setup.buckets(positives) <= vf.n <= setup.buckets(positives) + 1
      ensures vf.maxKickSteps == 400 && vf.e == 1
    {
      hide FM.Filter.Ok, FE.Entries, Pristine;
      nPositive, nNegative := positives, negatives;
      fpLen := setup.printLength(positives, negatives);
      vf.Init(setup.buckets(positives), MAX_STEPS, fpLen);
      tnk := seq(vf.n, _ => []);
      fpk := seq(vf.n, _ => []);
    }

    /** The first loop of `batch_insert`: the filter takes all positive keys, or is too full. */
    method InsertPositives(positive: seq<Key>) returns (full: bool)
      requires vf.Ok() && EntriesMatch(vf.h, vf.View(), {}) && FE.CellsCounted(vf.View())
      requires pk == {} && Distinct(positive)
      modifies this`pk, vf`t, vf`e, vf`filledCell
      ensures vf.Ok() && |vf.t| == old(|vf.t|)
      ensures full <==> !FE.InsertAll(vf.h, old(vf.View()), positive).1
      ensures !full ==>
                && EntriesMatch(vf.h, vf.View(), pk) && FE.CellsCounted(vf.View()) && pk == Elements(positive)
                && vf.View() == FE.InsertAll(vf.h, old(vf.View()), positive).0
    {
      hide FM.Filter.Ok, FM.Insert, EntriesMatch, FE.CellsCounted, FE.InsertAll, Distinct, Elements;
      hide VacuumFilter.TookIn;
      ghost var f0 := vf.View();
      NoElements();
      FE.InsertNone(vf.h, f0, positive);
      for i := 0 to |positive|
        invariant vf.Ok() && |vf.t| == old(|vf.t|) && EntriesMatch(vf.h, vf.View(), pk) && FE.CellsCounted(vf.View())
        invariant pk == Elements(positive[..i]) && FE.InsertAll(vf.h, f0, positive[..i]) == (vf.View(), true)
      {
        ghost var f := vf.View();
        NextElement(positive, i);
        InsertStatus(vf.h, f, positive[i]);
        FE.InsertAllNext(vf.h, f0, positive, i);
        var r := vf.Insert(positive[i]);
        if r == 1 {
          FE.InsertAllStuck(vf.h, f0, positive, i + 1);
          return true;
        }
        InsertMatches(vf.h, f, vf.View(), pk, positive[i]);
        pk := pk + {positive[i]};
      }
      AllElements(positive);
      full := false;
    }

    /** The second loop of `batch_insert`: every negative key goes to its table. */
    method SortNegatives(negative: seq<Key>) returns (falsePositives: seq<Key>)
      requires vf.Ok() && RowsEmpty() && Distinct(negative) && nk == {}
      modifies this`nk, this`tnk, this`fpk
      ensures nk == Elements(negative)
      ensures Tabled(vf.h, vf.View(), tnk, Rejected(vf.h, vf.View(), nk))
          && Tabled(vf.h, vf.View(), fpk, Accepted(vf.h, vf.View(), nk))
      ensures Distinct(falsePositives) && Elements(falsePositives) == Accepted(vf.h, vf.View(), nk)
      ensures falsePositives == Select(vf.h, vf.View(), negative, true)
    {
      hide FM.Filter.Ok, FM.Lookup, Tabled, Rejected, Accepted, Distinct, Elements, Listed, PositionPair, Select;
      ghost var f := vf.View();
      NoElements();
      EmptyTables(vf.h, f, tnk);
      EmptyTables(vf.h, f, fpk);
      falsePositives := [];
      NobodyAccepted(vf.h, f);
      SelectNone(vf.h, f, negative, true);
      for i := 0 to |negative|
        invariant nk == Elements(negative[..i])
        invariant Tabled(vf.h, f, tnk, Rejected(vf.h, f, nk)) && Tabled(vf.h, f, fpk, Accepted(vf.h, f, nk))
        invariant Distinct(falsePositives) && Elements(falsePositives) == Accepted(vf.h, f, nk)
        invariant falsePositives == Select(vf.h, f, negative[..i], true)
      {
        var k := negative[i];
        NextElement(negative, i);
        SelectNext(vf.h, f, negative, i, true);
        NegativeListed(vf.h, f, nk, tnk, fpk, k);
        TableSize(vf.h, f, tnk, Rejected(vf.h, f, nk));
        TableSize(vf.h, f, fpk, Accepted(vf.h, f, nk));
        AcceptedNext(vf.h, f, nk, falsePositives, k);
        var accepted := vf.Lookup(k);
        var (pos1, pos2) := PositionPair(vf.h, vf.View(), k);
        if accepted {
          falsePositives := falsePositives + [k];
          fpk := Listed(fpk, pos1, pos2, k);
        } else {
          tnk := Listed(tnk, pos1, pos2, k);
        }
        nk := nk + {k};
      }
      AllElements(negative);
    }

    /** The end of `batch_insert`: a new Othello for the positive keys and the false positives,
        which draws its seeds on from where the last one stopped.  `done` is false when a key
        cannot be inserted, which the source reports by throwing. */
    method FillOthello(positive: seq<Key>, falsePositives: seq<Key>) returns (done: bool)
      requires Distinct(positive) && Distinct(falsePositives) && Elements(positive) !! Elements(falsePositives)
      requires Sane(setup)
      modifies this`othello
      ensures done ==> othello.Valid() && Filled(othello.contents, Elements(positive), Elements(falsePositives))
      ensures done ==> fresh(othello) && fresh(othello.connectivityForest) && othello.hash == setup.hash
      ensures done ==> othello.minimalKeyCapacity == setup.capacity(|positive| + |falsePositives|) + 1
      ensures done ==> |positive| + |falsePositives| <= 0x100_0000
      ensures done <==> OthelloTakes(setup, old(othello.drawn), positive + falsePositives)
      ensures done ==> othello.drawn == DrawnAfter(setup, old(othello.drawn), positive + falsePositives)
    {
      hide ControlPlaneOthello.Valid, Distinct, Elements, Filled, GrownBy, DrawnAfter;
      if |positive| + |falsePositives| > KEY_LIMIT {
        return false;
      }
      ghost var from := othello.drawn;
      ghost var w := OthelloRules(setup, |positive| + |falsePositives|);
      GrownByNone(w, NewLayout(w, from), positive + falsePositives);
      var o := new ControlPlaneOthello(setup.hash, setup.draw, setup.scaleMa,
                                       setup.capacity(|positive| + |falsePositives|) + 1, othello.drawn);
      othello := o;
      NothingFilled();
      done := FillPositives(positive, falsePositives, from);
      if done {
        done := FillNegatives(positive, falsePositives, from);
      }
      if done {
        AllTaken(positive, falsePositives, from);
      }
    }

    /** The first `i` of these keys have been inserted into a new Othello. */
    ghost predicate TakenSoFar(positive: seq<Key>, falsePositives: seq<Key>, from: nat, i: nat)
      requires i <= |positive| + |falsePositives|
      reads this, othello
    {
      var w := OthelloRules(setup, |positive| + |falsePositives|);
      && othello.GrowthRules() == w && othello.keyCnt == i
      && GrownBy(w, NewLayout(w, from), (positive + falsePositives)[..i]) == Some(othello.LayoutNow())
    }

    lemma AllTaken(positive: seq<Key>, falsePositives: seq<Key>, from: nat)
      requires |positive| + |falsePositives| <= KEY_LIMIT
      requires TakenSoFar(positive, falsePositives, from, |positive| + |falsePositives|)
      ensures OthelloTakes(setup, from, positive + falsePositives)
      ensures othello.drawn == DrawnAfter(setup, from, positive + falsePositives)
    {
      hide GrownBy;
      AllElements(positive + falsePositives);
    }

    /** What the next insertion is about to do. */
    lemma BeforeTaking(positive: seq<Key>, falsePositives: seq<Key>, from: nat, i: nat, k: Key, pk: set<Key>,
        fps: set<Key>)
      requires i < |positive| + |falsePositives| && (positive + falsePositives)[i] == k
      requires TakenSoFar(positive, falsePositives, from, i)
      requires Filled(othello.contents, pk, fps) && pk + fps == Elements((positive + falsePositives)[..i])
      ensures var w := OthelloRules(setup, |positive| + |falsePositives|);
              var next := Grown(othello.GrowthRules(), othello.LayoutNow(), othello.contents.Keys, k);
              && GrownBy(w, NewLayout(w, from), (positive + falsePositives)[..i + 1]) == next
              && (next == None ==> GrownBy(w, NewLayout(w, from), positive + falsePositives) == None)
    {
      hide Grown, GrownBy, Elements;
      var w := OthelloRules(setup, |positive| + |falsePositives|);
      assert othello.contents.Keys == pk + fps;
      GrownByNext(w, NewLayout(w, from), positive + falsePositives, i);
      if GrownBy(w, NewLayout(w, from), (positive + falsePositives)[..i + 1]) == None {
        GrownByStuck(w, NewLayout(w, from), positive + falsePositives, i + 1);
      }
    }

    method FillPositives(positive: seq<Key>, ghost falsePositives: seq<Key>, ghost from: nat) returns (done: bool)
      requires othello.Valid() && TakenSoFar(positive, falsePositives, from, 0) && Filled(othello.contents, {}, {})
      requires Distinct(positive) && Sane(setup) && |positive| + |falsePositives| <= KEY_LIMIT
      modifies othello, othello.connectivityForest
      ensures done ==> othello.Valid() && TakenSoFar(positive, falsePositives, from, |positive|)
      ensures done ==> Filled(othello.contents, Elements(positive), {})
      ensures !done ==> !OthelloTakes(setup, from, positive + falsePositives)
    {
      hide ControlPlaneOthello.Valid, Distinct, Elements, Filled, GrownBy, Grown;
      NoElements();
      for i := 0 to |positive|
        invariant othello.Valid() && TakenSoFar(positive, falsePositives, from, i)
        invariant Filled(othello.contents, Elements(positive[..i]), {})
      {
        NextElement(positive, i);
        FilledPositive(othello.contents, Elements(positive[..i]), positive[i]);
        assert (positive + falsePositives)[..i] == positive[..i];
        BeforeTaking(positive, falsePositives, from, i, positive[i], Elements(positive[..i]), {});
        done := othello.Insert(positive[i], 1);
        if !done {
          return;
        }
      }
      AllElements(positive);
      done := true;
    }

    method FillNegatives(positive: seq<Key>, falsePositives: seq<Key>, ghost from: nat) returns (done: bool)
      requires othello.Valid() && TakenSoFar(positive, falsePositives, from, |positive|)
      requires Filled(othello.contents, Elements(positive), {}) && Elements(positive) !! Elements(falsePositives)
      requires Distinct(falsePositives) && Sane(setup) && |positive| + |falsePositives| <= KEY_LIMIT
      modifies othello, othello.connectivityForest
      ensures done ==> othello.Valid() && TakenSoFar(positive, falsePositives, from, |positive| + |falsePositives|)
      ensures done ==> Filled(othello.contents, Elements(positive), Elements(falsePositives))
      ensures !done ==> !OthelloTakes(setup, from, positive + falsePositives)
    {
      hide ControlPlaneOthello.Valid, Distinct, Elements, Filled, GrownBy, Grown;
      NoElements();
      for i := 0 to |falsePositives|
        invariant othello.Valid() && TakenSoFar(positive, falsePositives, from, |positive| + i)
        invariant Filled(othello.contents, Elements(positive), Elements(falsePositives[..i]))
      {
        NextElement(falsePositives, i);
        ElementsWithin(falsePositives, i);
        FilledNegative(othello.contents, Elements(positive), Elements(falsePositives[..i]), falsePositives[i]);
        ElementsJoined(positive, falsePositives, i);
        BeforeTaking(positive, falsePositives, from, |positive| + i, falsePositives[i], Elements(positive),
                     Elements(falsePositives[..i]));
        done := othello.Insert(falsePositives[i], 0);
        if !done {
          return;
        }
      }
      AllElements(falsePositives);
      done := true;
    }

    /** The filter has the first fingerprint length from `len` on with which it takes the keys, at
        most `retries` bits more. */
    ghost predicate FirstLength(positive: seq<Key>, len: nat, retries: nat)
      reads this`fpLen, this`nPositive, vf`fpLen
    {
      && vf.fpLen == fpLen && len <= fpLen <= len + retries
      && !FilterFull(setup, Buckets(setup, nPositive), fpLen, positive)
      && forall l: nat :: len <= l < fpLen ==> FilterFull(setup, Buckets(setup, nPositive), l, positive)
    }

    /** `batch_insert` into a blank tracker.  A full filter makes it start again with a longer
        fingerprint; `retries` bounds how often. */
    method BatchInsert(positive: seq<Key>, negative: seq<Key>, retries: nat) returns (done: bool, first: bool)
      requires Blank() && pk == nk == {}
      requires Distinct(positive) && Distinct(negative) && Elements(positive) !! Elements(negative)
      requires Sane(setup) && SizesFit(setup, nPositive, nNegative, 0) && vf.n == Buckets(setup, nPositive)
      requires fpLen + retries <= 16
      modifies this`pk, this`nk, this`tnk, this`fpk, this`fpLen, this`othello, vf
      ensures nPositive != |positive| || nNegative != |negative| ==>
                done && first && othello == old(othello) && pk == nk == {} && Blank()
      ensures nPositive == |positive| && nNegative == |negative| ==>
                && (done <==> BatchTaken(setup, old(othello.drawn), Buckets(setup, nPositive), old(fpLen), retries,
                                         positive, negative))
                && (first <==> !FilterFull(setup, Buckets(setup, nPositive), old(fpLen), positive))
      ensures nPositive == |positive| && nNegative == |negative| && done ==>
                && Valid() && vf.Sized() && pk == Elements(positive) && nk == Elements(negative)
                && fresh(othello) && fresh(othello.connectivityForest) && othello.hash == setup.hash
                && othello.drawn > old(othello.drawn)
                && FirstLength(positive, old(fpLen), retries)
      decreases retries, 1
    {
      hide ControlPlaneOthello.Valid, FM.Filter.Ok, FE.Entries, FM.Lookup, Distinct, Elements, Filled, EntriesMatch;
      hide Tabled, Rejected, Accepted, FE.CellsCounted, FE.InsertAll, Pristine, FilterFull, OthelloTakes, KeysTaken;
      hide FalsePositives;
      if nPositive != |positive| || nNegative != |negative| {
        return true, true;
      }
      ghost var f0 := vf.View();
      f0.Sizes();
      PristineCounts(f0, vf.n, fpLen);
      NothingMatches(vf.h, f0);
      FullOrNot(setup, f0, vf.n, fpLen, positive);
      TakenOrNot(setup, f0, othello.drawn, vf.n, fpLen, positive, negative);
      var full := InsertPositives(positive);
      if full {
        done := Retry(positive, negative, retries);
        return done, false;
      }
      FalsePositivesOf(setup, f0, vf.View(), positive, negative);
      done := FinishBatch(positive, negative);
      first := true;
    }

    /** The filter was too full: again, with fingerprints one bit longer. */
    method Retry(positive: seq<Key>, negative: seq<Key>, retries: nat) returns (done: bool)
      requires RowsEmpty() && nk == {} && vf.h == setup.h && vf.n == Buckets(setup, nPositive)
      requires Distinct(positive) && Distinct(negative) && Elements(positive) !! Elements(negative)
      requires Sane(setup) && SizesFit(setup, nPositive, nNegative, 0) && 4 <= fpLen && fpLen + retries <= 16
      requires nPositive == |positive| && nNegative == |negative|
      requires FilterFull(setup, Buckets(setup, nPositive), fpLen, positive)
      modifies this`pk, this`nk, this`tnk, this`fpk, this`fpLen, this`othello, vf
      ensures done <==> BatchTaken(setup, old(othello.drawn), Buckets(setup, nPositive), old(fpLen), retries, positive,
                                   negative)
      ensures done ==>
                && Valid() && vf.Sized() && pk == Elements(positive) && nk == Elements(negative)
                && fresh(othello) && fresh(othello.connectivityForest) && othello.hash == setup.hash
                && othello.drawn > old(othello.drawn)
                && FirstLength(positive, old(fpLen), retries)
      decreases retries, 0
    {
      hide ControlPlaneOthello.Valid, FM.Filter.Ok, FE.Entries, Distinct, Elements, Exact;
      hide FE.InsertAll, Pristine, FilterFull, KeysTaken;
      pk, nk := {}, {};
      if retries == 0 {
        return false;
      }
      fpLen := fpLen + 1;
      vf.Init(setup.buckets(nPositive), MAX_STEPS, fpLen);
      var first;
      done, first := BatchInsert(positive, negative, retries - 1);
    }

    /** The rest of `batch_insert` once the filter has taken the positive keys. */
    method FinishBatch(positive: seq<Key>, negative: seq<Key>) returns (done: bool)
      requires vf.Ok() && RowsEmpty() && nk == {} && Sane(setup)
      requires Distinct(positive) && Distinct(negative) && Elements(positive) !! Elements(negative)
      requires EntriesMatch(vf.h, vf.View(), pk) && FE.CellsCounted(vf.View()) && pk == Elements(positive)
      modifies this`nk, this`tnk, this`fpk, this`othello
      ensures done ==>
                && Valid() && nk == Elements(negative)
                && fresh(othello) && fresh(othello.connectivityForest) && othello.hash == setup.hash
                && othello.drawn > old(othello.drawn)
      ensures done <==> OthelloTakes(setup, old(othello.drawn), positive + Select(vf.h, vf.View(), negative, true))
    {
      hide ControlPlaneOthello.Valid, FM.Filter.Ok, FM.Lookup, Distinct, Elements, Filled, EntriesMatch, Tabled;
      hide Rejected, Accepted, FE.CellsCounted, OthelloTakes, DrawnAfter, Select;
      var falsePositives := SortNegatives(negative);
      AcceptedWithin(vf.h, vf.View(), nk);
      TakesDraws(setup, othello.drawn, positive + falsePositives);
      done := FillOthello(positive, falsePositives);
      if done {
        FilledMatches(vf.h, vf.View(), othello.contents, pk, nk);
      }
    }

    /** `rebuild`: from the two key sets alone, listed in some order. */
    method Rebuild(retries: nat) returns (done: bool, ghost positive: seq<Key>, ghost negative: seq<Key>)
      requires pk !! nk && vf.h == setup.h
      requires Sane(setup) && SizesFit(setup, |pk|, |nk|, retries)
      modifies this, vf
      ensures Lists(positive, negative, old(pk), old(nk))
      ensures done <==> Builds(setup, old(othello.drawn), positive, negative, retries)
      ensures done ==>
                && Valid() && vf.Sized() && pk == old(pk) && nk == old(nk)
                && fresh(othello) && fresh(othello.connectivityForest) && othello.hash == setup.hash
                && othello.drawn > old(othello.drawn)
    {
      hide ControlPlaneOthello.Valid, FM.Filter.Ok, FE.Entries, FM.Lookup, Exact, Distinct, Elements, BatchTaken;
      hide FilterFull, Pristine;
      var positives := ListKeys(pk);
      var negatives := ListKeys(nk);
      pk, nk := {}, {};
      Init(|positives|, |negatives|);
      var first;
      done, first := BatchInsert(positives, negatives, retries);
      positive, negative := positives, negatives;
    }

    /** A new false positive enters the Othello, unless it is in already. */
    method TakeIn(x: Key, first: bool, flips: seq<nat>) returns (ok: bool, flips': seq<nat>)
      requires othello.Valid() && (first ==> x !in othello.contents)
      requires x !in othello.contents ==> othello.keyCnt < |othello.keys|
      modifies othello, othello.connectivityForest
      ensures othello.seed == old(othello.seed) && othello.drawn == old(othello.drawn)
      ensures othello.ma == old(othello.ma) && othello.mb == old(othello.mb)
      ensures |othello.keys| == old(|othello.keys|)
      ensures ok <==> x in old(othello.contents) || old(othello.Fits(othello.contents.Keys + {x}))
      ensures ok ==> othello.Valid() && Patched(old(othello.mem), flips, othello.mem, flips')
      ensures ok && x in old(othello.contents) ==>
          othello.contents == old(othello.contents) && othello.keyCnt == old(othello.keyCnt)
      ensures ok && x !in old(othello.contents) ==>
          othello.contents == old(othello.contents)[x := 0] && othello.keyCnt == old(othello.keyCnt) + 1
    {
      hide ControlPlaneOthello.Valid, Patched, KeysFit;
      othello.MembershipExact(x);
      OthelloShape(othello);
      if first || !othello.IsMember(x) {
        ok, flips' := othello.InsertOnDemand(x, 0, flips);
      } else {
        PatchNone(othello.mem, flips);
        ok, flips' := true, flips;
      }
    }

    /** The first loop of `insert`: the keys of row `r` that the filter now accepts move from the
        true negatives to the false positives and enter the Othello.  On the first of the two
        rows the source does not ask whether the Othello holds them already. */
    method AcceptRow(r: nat, first: bool, flips: seq<nat>) returns (ok: bool, flips': seq<nat>)
      requires vf.Ok() && othello.Valid() && r < |tnk| == |fpk|
      requires Distinct(tnk[r]) && (first ==> forall x :: x in tnk[r] ==> x !in othello.contents)
      requires othello.keyCnt + NewcomerCount(vf.h, vf.View(), othello.contents, tnk[r]) <= |othello.keys|
      modifies this`tnk, this`fpk, othello, othello.connectivityForest
      ensures othello.seed == old(othello.seed) && othello.drawn == old(othello.drawn)
      ensures othello.ma == old(othello.ma) && othello.mb == old(othello.mb)
      ensures |othello.keys| == old(|othello.keys|)
      ensures ok <==> old(othello.Fits(othello.contents.Keys + Taken(vf.h, vf.View(), tnk[r])))
      ensures ok ==> othello.Valid() && Patched(old(othello.mem), flips, othello.mem, flips')
      ensures ok ==> Gained(vf.h, vf.View(), old(othello.contents), old(tnk[r]), othello.contents)
      ensures ok ==>
          othello.keyCnt == old(othello.keyCnt) + NewcomerCount(vf.h, vf.View(), old(othello.contents), old(tnk[r]))
      ensures ok ==> RowMoved(vf.h, vf.View(), r, old(tnk), old(fpk), tnk, fpk, true)
    {
      hide FM.Filter.Ok, FM.Lookup, ControlPlaneOthello.Valid, Patched, Gained, Select, Scanned, NewcomerCount;
      hide Distinct, KeysFit, Taken;
      ghost var f, c0, row, j := vf.View(), othello.contents, tnk[r], 0;
      ghost var mem0, tnk0, fpk0 := othello.mem, tnk, fpk;
      GainedStart(vf.h, f, c0, row);
      ScanStart(vf.h, f, row, false);
      PatchNone(othello.mem, flips);
      flips' := flips;
      assert fpk[r] + Select(vf.h, f, row[..0], true) == fpk[r] by { ScanStart(vf.h, f, row, true); }
      var i := 0;
      while i < |tnk[r]|
        invariant j <= |row| && i == |Select(vf.h, f, row[..j], false)|
        invariant tnk == tnk0[r := Scanned(vf.h, f, row, j, false)]
        invariant fpk == fpk0[r := fpk0[r] + Select(vf.h, f, row[..j], true)]
        invariant othello.Valid() && Gained(vf.h, f, c0, row[..j], othello.contents)
        invariant othello.keyCnt == old(othello.keyCnt) + NewcomerCount(vf.h, f, c0, row[..j])
        invariant othello.seed == old(othello.seed) && othello.drawn == old(othello.drawn)
        invariant othello.ma == old(othello.ma) && othello.mb == old(othello.mb)
        invariant |othello.keys| == old(|othello.keys|)
        invariant Patched(mem0, flips, othello.mem, flips')
        decreases |row| - j
      {
        ScanLength(vf.h, f, row, j, false);
        ScanAt(vf.h, f, row, j, false);
        NewcomersGrow(vf.h, f, c0, row, j);
        GainedNext(vf.h, f, c0, row, j, othello.contents);
        var x := tnk[r][i];
        var accepted := vf.Lookup(x);
        if accepted {
          ScanErase(vf.h, f, row, j, false);
          Appended(fpk0[r], Select(vf.h, f, row[..j], true), x);
          fpk := fpk[r := fpk[r] + [x]];
          tnk := tnk[r := tnk[r][..i] + tnk[r][i + 1..]];
          ghost var mem1, flips1 := othello.mem, flips';
          GainedPart(vf.h, f, c0, row, j, othello.contents);
          MoreUnfit(othello, othello.contents.Keys + {x}, c0.Keys + Taken(vf.h, f, row));
          ok, flips' := TakeIn(x, first, flips');
          if !ok { return; }
          PatchTrans(mem0, flips, mem1, flips1, othello.mem, flips');
        } else {
          ScanKeep(vf.h, f, row, j, false);
          i := i + 1;
        }
        j := j + 1;
      }
      ok := true;
      ScanLength(vf.h, f, row, j, false);
      ScanEnd(vf.h, f, row, false);
      GainedAll(vf.h, f, c0, row, othello.contents);
      othello.StoredFit();
    }

    /** The loops of `setValue` when a key turns negative: the keys of row `r` that the filter no
        longer accepts move back to the true negatives and leave the Othello. */
    method RejectRow(r: nat, flips: seq<nat>) returns (flips': seq<nat>)
      requires vf.Ok() && othello.Valid() && r < |tnk| == |fpk|
      modifies this`tnk, this`fpk, othello, othello.connectivityForest
      ensures othello.seed == old(othello.seed) && othello.drawn == old(othello.drawn)
      ensures othello.ma == old(othello.ma) && othello.mb == old(othello.mb)
      ensures |othello.keys| == old(|othello.keys|)
      ensures othello.Valid() && Patched(old(othello.mem), flips, othello.mem, flips')
      ensures Lost(vf.h, vf.View(), old(othello.contents), old(fpk[r]), othello.contents)
      ensures RowMoved(vf.h, vf.View(), r, old(fpk), old(tnk), fpk, tnk, false)
    {
      hide FM.Filter.Ok, FM.Lookup, ControlPlaneOthello.Valid, Patched, Lost, Gained, Select, Scanned, NewcomerCount;
      ghost var f, c0, row, j := vf.View(), othello.contents, fpk[r], 0;
      ghost var mem0, tnk0, fpk0 := othello.mem, tnk, fpk;
      GainedStart(vf.h, f, c0, row);
      ScanStart(vf.h, f, row, true);
      PatchNone(othello.mem, flips);
      flips' := flips;
      assert tnk[r] + Select(vf.h, f, row[..0], false) == tnk[r] by { ScanStart(vf.h, f, row, false); }
      var i := 0;
      while i < |fpk[r]|
        invariant j <= |row| && i == |Select(vf.h, f, row[..j], true)|
        invariant fpk == fpk0[r := Scanned(vf.h, f, row, j, true)]
        invariant tnk == tnk0[r := tnk0[r] + Select(vf.h, f, row[..j], false)]
        invariant othello.Valid() && Lost(vf.h, f, c0, row[..j], othello.contents)
        invariant othello.seed == old(othello.seed) && othello.drawn == old(othello.drawn)
        invariant othello.ma == old(othello.ma) && othello.mb == old(othello.mb)
        invariant |othello.keys| == old(|othello.keys|)
        invariant Patched(mem0, flips, othello.mem, flips')
        decreases |row| - j
      {
        ScanLength(vf.h, f, row, j, true);
        ScanAt(vf.h, f, row, j, true);
        LostNext(vf.h, f, c0, row, j, othello.contents);
        var x := fpk[r][i];
        var accepted := vf.Lookup(x);
        if !accepted {
          ScanErase(vf.h, f, row, j, true);
          Appended(tnk0[r], Select(vf.h, f, row[..j], false), x);
          tnk := tnk[r := tnk[r] + [x]];
          ghost var mem1, flips1 := othello.mem, flips';
          flips' := TakeOut(x, flips');
          PatchTrans(mem0, flips, mem1, flips1, othello.mem, flips');
          fpk := fpk[r := fpk[r][..i] + fpk[r][i + 1..]];
        } else {
          ScanKeep(vf.h, f, row, j, true);
          i := i + 1;
        }
        j := j + 1;
      }
      ScanLength(vf.h, f, row, j, true);
      ScanEnd(vf.h, f, row, true);
    }

    /** A key that is no longer a false positive leaves the Othello. */
    method TakeOut(x: Key, flips: seq<nat>) returns (flips': seq<nat>)
      requires othello.Valid()
      modifies othello, othello.connectivityForest
      ensures othello.seed == old(othello.seed) && othello.drawn == old(othello.drawn)
      ensures othello.ma == old(othello.ma) && othello.mb == old(othello.mb)
      ensures |othello.keys| == old(|othello.keys|)
      ensures othello.Valid() && Patched(old(othello.mem), flips, othello.mem, flips')
      ensures othello.contents == old(othello.contents) - {x}
    {
      hide ControlPlaneOthello.Valid, Patched;
      othello.MembershipExact(x);
      OthelloShape(othello);
      if othello.IsMember(x) {
        flips' := othello.EraseOnDemand(x, flips);
      } else {
        PatchNone(othello.mem, flips);
        flips' := flips;
        assert othello.contents - {x} == othello.contents;
      }
    }

    /** Scanning both rows of a key that has just entered the filter.  `f`, `pk0` and `nk0` are
        the filter and the other keys before. */
    method AcceptRows(k: Key, flips: seq<nat>, ghost f: FM.Filter, ghost pk0: set<Key>, ghost nk0: set<Key>)
      returns (ok: bool, flips': seq<nat>)
      requires vf.Ok() && othello.Valid() && f.Ok()
      requires Exact(vf.h, f, othello.contents - {k}, pk0, nk0, tnk, fpk) && k !in pk0 && k !in nk0
      requires (vf.View(), 0) == FM.Insert(vf.h, f, k)
      requires HasRoom(vf.h, f, k in othello.contents, tnk, othello.keyCnt, |othello.keys|, k)
      modifies this`tnk, this`fpk, othello, othello.connectivityForest
      ensures othello.seed == old(othello.seed) && othello.drawn == old(othello.drawn)
      ensures othello.ma == old(othello.ma) && othello.mb == old(othello.mb)
      ensures |othello.keys| == old(|othello.keys|)
      ensures ok <==> old(othello.Fits(Joining(vf.h, vf.View(), pk0, nk0, k, k in othello.contents)))
      ensures ok ==> othello.Valid() && Patched(old(othello.mem), flips, othello.mem, flips')
      ensures ok ==> Exact(vf.h, vf.View(), othello.contents[k := 1], pk0 + {k}, nk0, tnk, fpk)
      ensures ok ==> (k in othello.contents <==> k in old(othello.contents))
      ensures ok && k !in othello.contents ==> othello.keyCnt < |othello.keys|
    {
      hide FM.Filter.Ok, FM.Insert, ControlPlaneOthello.Valid, Patched, Gained, Select, NewcomerCount, Distinct, Exact;
      hide PositionPair, HasRoom, RowMoved, FM.Lookup, KeysFit, Taken, Joining;
      ghost var f', c, tnk0, fpk0 := vf.View(), othello.contents, tnk, fpk;
      ghost var p, q := PositionPair(vf.h, f, k).0, PositionPair(vf.h, f, k).1;
      BeforeScan(vf.h, f, f', c, pk0, nk0, tnk, fpk, k, p, q, othello.keyCnt, |othello.keys|);
      JoinWithin(vf.h, f, f', c, pk0, nk0, tnk, fpk, k, p, q);
      ghost var all := Joining(vf.h, f', pk0, nk0, k, k in c);
      ghost var row1, row2 := Taken(vf.h, f', tnk[p]), Taken(vf.h, f', tnk[q]);
      MoreUnfit(othello, c.Keys + row1, all);
      MoreUnfit(othello, c.Keys + row1 + row2, all);
      var (pos1, pos2) := PositionPair(vf.h, vf.View(), k);
      ok, flips' := AcceptRow(pos1, true, flips);
      if !ok { return; }
      GainedAll(vf.h, f', c, tnk0[p], othello.contents);
      ghost var c1, mem1, flips1, tnk1, fpk1 := othello.contents, othello.mem, flips', tnk, fpk;
      RowLengths(vf.h, f', p, tnk0, fpk0, tnk1, fpk1, true);
      BetweenScans(vf.h, f, f', c, c1, pk0, nk0, tnk0, fpk0, k, p, q);
      ok, flips' := AcceptRow(pos2, false, flips');
      if !ok { return; }
      PatchTrans(old(othello.mem), flips, mem1, flips1, othello.mem, flips');
      AfterScans(vf.h, f, f', c, c1, othello.contents, pk0, nk0, tnk0, fpk0, k, p, q, tnk1, fpk1, tnk, fpk);
      JoinedKeys(vf.h, f', othello.contents, pk0, nk0, tnk, fpk, k);
      othello.StoredFit();
    }

    /** The filter cannot take its new key, or the Othello its new keys: those of the new positive
        set and the negative keys that the new filter accepts. */
    ghost predicate Overfull(r: (FM.Filter, nat), pk': set<Key>, nk': set<Key>)
      requires r.0.Ok()
      reads this`othello, othello
    {
      r.1 == 1 || !othello.Fits(OthelloKeys(vf.h, r.0, pk', nk'))
    }

    /** `insert` has to ask for a rebuild. */
    ghost predicate AddNeedsRebuild(k: Key, v: nat)
      requires vf.Ok()
      reads this, vf, othello
    {
      if v == 1 then Overfull(FM.Insert(vf.h, vf.View(), k), pk + {k}, nk)
      else Overfull((vf.View(), 0), pk, nk + {k})
    }

    /** `setValue` has to ask for a rebuild. */
    ghost predicate SetNeedsRebuild(k: Key, v: nat)
      requires vf.Ok()
      reads this, vf, othello
    {
      k in nk && v == 1 && Overfull(FM.Insert(vf.h, vf.View(), k), pk + {k}, nk - {k})
    }

    /** `insert` for a new positive key. */
    method InsertPositive(k: Key) returns (flips: seq<nat>)
      requires Valid() && k !in pk && k !in nk
      requires vf.Ok() && HasRoom(vf.h, vf.View(), k in othello.contents, tnk, othello.keyCnt, |othello.keys|, k)
      modifies this`pk, this`tnk, this`fpk, vf`t, vf`e, vf`filledCell, othello, othello.connectivityForest
      ensures vf.Ok() && pk == old(pk) + {k}
      ensures vf.View() == FM.Insert(vf.h, old(vf.View()), k).0
      ensures flips == [SENTINEL] <==> old(AddNeedsRebuild(k, 1))
      ensures flips != [SENTINEL] ==>
                && Valid() && Replays(old(othello.mem), flips, othello.mem)
                && (vf.View(), 0) == FM.Insert(vf.h, old(vf.View()), k)
      ensures othello.seed == old(othello.seed) && othello.drawn == old(othello.drawn)
      ensures othello.ma == old(othello.ma) && othello.mb == old(othello.mb)
    {
      hide FM.Filter.Ok, FM.Insert, ControlPlaneOthello.Valid, Patched, Replays, Exact, HasRoom, FM.Lookup;
      hide KeysFit, OthelloKeys, Joining, VacuumFilter.TookIn;
      ghost var f, pk0, mem0 := vf.View(), pk, othello.mem;
      ExactOk(vf.h, f, othello.contents, pk, nk, tnk, fpk);
      NotStored(vf.h, f, othello.contents, pk, nk, tnk, fpk, k);
      InsertStatus(vf.h, f, k);
      pk := pk + {k};
      var r := vf.Insert(k);
      if r == 1 {
        return [SENTINEL];
      }
      ghost var all := OthelloKeys(vf.h, vf.View(), pk, nk);
      JoiningAll(vf.h, vf.View(), pk0, nk, k, false);
      MoreUnfit(othello, Joining(vf.h, vf.View(), pk0, nk, k, false), all);
      var ok;
      ok, flips := AcceptRows(k, [], f, pk0, nk);
      if !ok {
        return [SENTINEL];
      }
      JoinedKeys(vf.h, vf.View(), othello.contents, pk0, nk, tnk, fpk, k);
      ghost var mem1, flips1 := othello.mem, flips;
      ok, flips := othello.InsertOnDemand(k, 1, flips);
      if !ok {
        return [SENTINEL];
      }
      PatchTrans(mem0, [], mem1, flips1, othello.mem, flips);
      PatchedFromEmpty(mem0, othello.mem, flips);
      NeverSentinel(othello, mem0, flips);
    }

    /** `insert` for a new negative key, with whatever value other than 1 came with it. */
    method InsertNegative(k: Key, v: nat) returns (flips: seq<nat>)
      requires Valid() && k !in pk && k !in nk && v != 1
      requires FM.Lookup(vf.h, vf.View(), k) ==> othello.keyCnt < |othello.keys|
      modifies this`nk, this`tnk, this`fpk, othello, othello.connectivityForest
      ensures nk == old(nk) + {k}
      ensures flips == [SENTINEL] <==> old(AddNeedsRebuild(k, v))
      ensures flips != [SENTINEL] ==> Replays(old(othello.mem), flips, othello.mem) && othello.Valid()
      ensures flips != [] ==> FM.Lookup(vf.h, vf.View(), k)
      ensures flips != [SENTINEL] && (!Odd(v) || !FM.Lookup(vf.h, vf.View(), k)) ==> Valid()
      ensures flips != [SENTINEL] && Odd(v) && FM.Lookup(vf.h, vf.View(), k) ==> Answer(k) == 1
      ensures othello.seed == old(othello.seed) && othello.drawn == old(othello.drawn)
      ensures othello.ma == old(othello.ma) && othello.mb == old(othello.mb)
    {
      hide FM.Filter.Ok, ControlPlaneOthello.Valid, Patched, Replays, Exact, FM.Lookup, Bit, Listed, PositionPair;
      hide KeysFit, OthelloKeys;
      ghost var mem0 := othello.mem;
      ExactOk(vf.h, vf.View(), othello.contents, pk, nk, tnk, fpk);
      ExactKeys(vf.h, vf.View(), othello.contents, pk, nk, tnk, fpk);
      OneMoreNegative(vf.h, vf.View(), pk, nk, k);
      othello.StoredFit();
      NotStored(vf.h, vf.View(), othello.contents, pk, nk, tnk, fpk, k);
      NegativeAdded(vf.h, vf.View(), othello.contents, pk, nk, tnk, fpk, k, v);
      nk := nk + {k};
      var accepted := vf.Lookup(k);
      var (pos1, pos2) := PositionPair(vf.h, vf.View(), k);
      if accepted {
        fpk := Listed(fpk, pos1, pos2, k);
        var ok;
        ok, flips := othello.InsertOnDemand(k, v, []);
        if !ok {
          return [SENTINEL];
        }
        PatchedFromEmpty(mem0, othello.mem, flips);
        NeverSentinel(othello, mem0, flips);
        othello.MembershipExact(k);
      } else {
        tnk := Listed(tnk, pos1, pos2, k);
        flips := [];
        ReplaysNothing(mem0);
      }
    }

    /** `setValue` from 1 to 0. */
    method TurnNegative(k: Key) returns (flips: seq<nat>)
      requires Valid() && k in pk
      modifies this`pk, this`nk, this`tnk, this`fpk, vf`t, vf`filledCell, othello, othello.connectivityForest
      ensures Valid() && pk == old(pk) - {k} && nk == old(nk) + {k}
      ensures vf.View() == FM.Delete(vf.h, old(vf.View()), k).0
      ensures flips != [SENTINEL] && Replays(old(othello.mem), flips, othello.mem)
      ensures othello.seed == old(othello.seed) && othello.drawn == old(othello.drawn)
      ensures othello.ma == old(othello.ma) && othello.mb == old(othello.mb)
    {
      hide FM.Filter.Ok, FM.Delete, ControlPlaneOthello.Valid, Patched, Replays, Exact, FM.Lookup, Lost, RowMoved;
      hide Listed, PositionPair, Keep, TrackerModel.Take, Bit;
      ghost var f, c, pk0, nk0, tnk0, fpk0 := vf.View(), othello.contents, pk, nk, tnk, fpk;
      ghost var mem0 := othello.mem;
      ExactOk(vf.h, f, c, pk, nk, tnk, fpk);
      ghost var pos := PositionPair(vf.h, f, k);
      pk := pk - {k};
      nk := nk + {k};
      var found := vf.Del(k);
      ghost var f' := vf.View();
      BeforeReject(vf.h, f, f', found, c, pk0, nk0, tnk0, fpk0, k, pos.0, pos.1);
      var (pos1, pos2) := PositionPair(vf.h, vf.View(), k);
      flips := RejectRow(pos1, []);
      ghost var c1, mem1, flips1, tnk1, fpk1 := othello.contents, othello.mem, flips, tnk, fpk;
      RowLengths(vf.h, f', pos1, fpk0, tnk0, fpk1, tnk1, false);
      flips := RejectRow(pos2, flips);
      PatchTrans(mem0, [], mem1, flips1, othello.mem, flips);
      ghost var c2, mem2, flips2 := othello.contents, othello.mem, flips;
      RowsMoved(vf.h, f', pos1, pos2, fpk0, tnk0, fpk1, tnk1, fpk, tnk, false);
      TurnedNegative(vf.h, f, f', found, c, c1, c2, pk0, nk0, tnk0, fpk0, k, pos1, pos2, tnk, fpk);
      flips := DropPositive(k, pos1, pos2, flips);
      PatchTrans(mem0, [], mem2, flips2, othello.mem, flips);
      PatchedFromEmpty(mem0, othello.mem, flips);
      NeverSentinel(othello, mem0, flips);
    }

    /** The end of `setValue` from 1 to 0: a key that the filter still accepts becomes a false
        positive, any other leaves the Othello. */
    method DropPositive(k: Key, pos1: nat, pos2: nat, flips: seq<nat>) returns (flips': seq<nat>)
      requires vf.Ok() && othello.Valid() && k in othello.contents
      requires pos1 < |tnk| == |fpk| && pos2 < |tnk|
      modifies this`tnk, this`fpk, othello, othello.connectivityForest
      ensures othello.Valid() && Patched(old(othello.mem), flips, othello.mem, flips')
      ensures FM.Lookup(vf.h, vf.View(), k) ==>
                && fpk == Listed(old(fpk), pos1, pos2, k) && tnk == old(tnk)
                && othello.contents == old(othello.contents)[k := 0]
      ensures !FM.Lookup(vf.h, vf.View(), k) ==>
                && tnk == Listed(old(tnk), pos1, pos2, k) && fpk == old(fpk)
                && othello.contents == old(othello.contents) - {k}
      ensures othello.seed == old(othello.seed) && othello.drawn == old(othello.drawn)
      ensures othello.ma == old(othello.ma) && othello.mb == old(othello.mb)
    {
      hide FM.Filter.Ok, ControlPlaneOthello.Valid, Patched, FM.Lookup, Listed;
      var accepted := vf.Lookup(k);
      if accepted {
        fpk := Listed(fpk, pos1, pos2, k);
        flips' := othello.ValueFlipOnDemand(k, 0, flips);
      } else {
        tnk := Listed(tnk, pos1, pos2, k);
        flips' := othello.EraseOnDemand(k, flips);
      }
    }

    /** The end of `setValue` from 0 to 1: the Othello gets the key, or its new value. */
    method StorePositive(k: Key, flips: seq<nat>) returns (ok: bool, flips': seq<nat>)
      requires othello.Valid() && (k !in othello.contents ==> othello.keyCnt < |othello.keys|)
      modifies othello, othello.connectivityForest
      ensures othello.seed == old(othello.seed) && othello.drawn == old(othello.drawn)
      ensures othello.ma == old(othello.ma) && othello.mb == old(othello.mb)
      ensures ok <==> k in old(othello.contents) || old(othello.Fits(othello.contents.Keys + {k}))
      ensures ok ==> othello.Valid() && Patched(old(othello.mem), flips, othello.mem, flips')
      ensures ok ==> othello.contents == old(othello.contents)[k := 1]
    {
      hide ControlPlaneOthello.Valid, Patched, KeysFit;
      OthelloShape(othello);
      othello.MembershipExact(k);
      ok := true;
      if othello.IsMember(k) {
        flips' := othello.ValueFlipOnDemand(k, 1, flips);
      } else {
        ok, flips' := othello.InsertOnDemand(k, 1, flips);
      }
    }

    /** `setValue` from 0 to 1. */
    method TurnPositive(k: Key) returns (flips: seq<nat>)
      requires Valid() && k in nk
      requires vf.Ok() && HasRoom(vf.h, vf.View(), k in othello.contents, tnk, othello.keyCnt, |othello.keys|, k)
      modifies this`pk, this`nk, this`tnk, this`fpk, vf`t, vf`e, vf`filledCell, othello, othello.connectivityForest
      ensures vf.Ok() && pk == old(pk) + {k} && nk == old(nk) - {k}
      ensures vf.View() == FM.Insert(vf.h, old(vf.View()), k).0
      ensures flips == [SENTINEL] <==> old(SetNeedsRebuild(k, 1))
      ensures flips != [SENTINEL] ==>
                && Valid() && Replays(old(othello.mem), flips, othello.mem)
                && (vf.View(), 0) == FM.Insert(vf.h, old(vf.View()), k)
      ensures othello.seed == old(othello.seed) && othello.drawn == old(othello.drawn)
      ensures othello.ma == old(othello.ma) && othello.mb == old(othello.mb)
    {
      hide FM.Filter.Ok, FM.Insert, ControlPlaneOthello.Valid, Patched, Replays, Exact, HasRoom, FM.Lookup, Unlisted;
      hide PositionPair, Bit;
      hide KeysFit, OthelloKeys, Joining, VacuumFilter.TookIn;
      ghost var f, pk0, mem0 := vf.View(), pk, othello.mem;
      ExactOk(vf.h, f, othello.contents, pk, nk, tnk, fpk);
      NegativeTaken(vf.h, f, othello.contents, pk, nk, tnk, fpk, k);
      RoomUnlisted(vf.h, f, othello.contents, tnk, othello.keyCnt, |othello.keys|, k);
      InsertStatus(vf.h, f, k);
      nk := nk - {k};
      pk := pk + {k};
      var accepted := vf.Lookup(k);
      var (pos1, pos2) := PositionPair(vf.h, vf.View(), k);
      if accepted {
        fpk := Unlisted(fpk, pos1, pos2, k);
      } else {
        tnk := Unlisted(tnk, pos1, pos2, k);
      }
      var r := vf.Insert(k);
      if r == 1 {
        return [SENTINEL];
      }
      ghost var stored := k in othello.contents;
      ghost var all := OthelloKeys(vf.h, vf.View(), pk, nk);
      JoiningAll(vf.h, vf.View(), pk0, nk, k, stored);
      MoreUnfit(othello, Joining(vf.h, vf.View(), pk0, nk, k, stored), all);
      var ok;
      ok, flips := AcceptRows(k, [], f, pk0, nk);
      if !ok {
        return [SENTINEL];
      }
      JoinedKeys(vf.h, vf.View(), othello.contents, pk0, nk, tnk, fpk, k);
      ghost var mem1, flips1 := othello.mem, flips;
      ok, flips := StorePositive(k, flips);
      if !ok {
        return [SENTINEL];
      }
      PatchTrans(mem0, [], mem1, flips1, othello.mem, flips);
      PatchedFromEmpty(mem0, othello.mem, flips);
      NeverSentinel(othello, mem0, flips);
    }

    /** What the source leaves to its caller: the Othello arrays do not grow on demand. */
    predicate RoomFor(k: Key, v: nat)
      requires vf.Ok() && othello.Shape()
      reads this, vf, othello
    {
      if v == 1 then HasRoom(vf.h, vf.View(), othello.IsMember(k), tnk, othello.keyCnt, |othello.keys|, k)
      else FM.Lookup(vf.h, vf.View(), k) ==> othello.keyCnt < |othello.keys|
    }

    /** A value other than 1 makes a key negative, but an odd one is stored as 1. */
    predicate Storable(k: Key, v: nat)
      requires vf.Ok()
      reads vf
    {
      v == 1 || !Odd(v) || !FM.Lookup(vf.h, vf.View(), k)
    }

    /** `insert` of an unknown key.  Unless it asks for a rebuild, the tracker stays exact, and
        the flips lead from the earlier Othello words to the later ones. */
    method Insert(k: Key, v: nat) returns (flips: seq<nat>)
      requires Valid() && k !in pk && k !in nk && vf.Ok() && othello.Shape() && RoomFor(k, v)
      modifies this`pk, this`nk, this`tnk, this`fpk, vf`t, vf`e, vf`filledCell, othello, othello.connectivityForest
      ensures vf.Ok()
      ensures pk == if v == 1 then old(pk) + {k} else old(pk)
      ensures nk == if v == 1 then old(nk) else old(nk) + {k}
      ensures flips == [0xffff_ffff] <==> old(AddNeedsRebuild(k, v))
      ensures flips != [SENTINEL] ==> othello.Valid() && Replays(old(othello.mem), flips, othello.mem)
      ensures flips != [SENTINEL] && old(Storable(k, v)) ==> Valid()
      ensures flips != [SENTINEL] && !old(Storable(k, v)) ==> k in nk && Answer(k) == 1
      ensures v == 1 ==> vf.View() == FM.Insert(vf.h, old(vf.View()), k).0
      ensures v == 1 && flips != [SENTINEL] ==> (vf.View(), 0) == FM.Insert(vf.h, old(vf.View()), k)
      ensures v != 1 ==> vf.View() == old(vf.View()) && (flips != [] ==> FM.Lookup(vf.h, vf.View(), k))
      ensures othello.seed == old(othello.seed) && othello.drawn == old(othello.drawn)
      ensures othello.ma == old(othello.ma) && othello.mb == old(othello.mb)
    {
      hide FM.Filter.Ok, FM.Insert, ControlPlaneOthello.Valid, Replays, Exact, HasRoom, FM.Lookup, Odd;
      hide DassTracker.AddNeedsRebuild;
      othello.MembershipExact(k);
      if v == 1 {
        flips := InsertPositive(k);
        ValidOthello();
      } else {
        flips := InsertNegative(k, v);
      }
    }

    lemma ValidOthello()
      ensures Valid() ==> othello.Valid() && vf.Ok()
    {
      hide ControlPlaneOthello.Valid, FM.Filter.Ok;
    }

    /** `setValue` of a known key.  Values other than 0 and 1 change nothing. */
    method SetValue(k: Key, v: nat) returns (flips: seq<nat>)
      requires Valid() && (k in pk || k in nk) && vf.Ok() && othello.Shape()
      requires k in nk && v == 1 ==> RoomFor(k, v)
      modifies this`pk, this`nk, this`tnk, this`fpk, vf`t, vf`e, vf`filledCell, othello, othello.connectivityForest
      ensures vf.Ok()
      ensures pk == if v == 1 then old(pk) + {k} else if v == 0 then old(pk) - {k} else old(pk)
      ensures nk == if v == 1 then old(nk) - {k} else if v == 0 then old(nk) + {k} else old(nk)
      ensures flips == [0xffff_ffff] <==> old(SetNeedsRebuild(k, v))
      ensures flips != [SENTINEL] ==> Valid() && Replays(old(othello.mem), flips, othello.mem)
      ensures k in old(nk) && v == 1 ==> vf.View() == FM.Insert(vf.h, old(vf.View()), k).0
      ensures k in old(nk) && v == 1 && flips != [SENTINEL] ==> (vf.View(), 0) == FM.Insert(vf.h, old(vf.View()), k)
      ensures k in old(pk) && v == 0 ==> vf.View() == FM.Delete(vf.h, old(vf.View()), k).0
      ensures !(k in old(nk) && v == 1) && !(k in old(pk) && v == 0) ==> vf.View() == old(vf.View()) && flips == []
      ensures othello.seed == old(othello.seed) && othello.drawn == old(othello.drawn)
      ensures othello.ma == old(othello.ma) && othello.mb == old(othello.mb)
    {
      hide FM.Filter.Ok, FM.Insert, FM.Delete, ControlPlaneOthello.Valid, Replays, Exact, HasRoom, FM.Lookup, Answer;
      hide DassTracker.Overfull;
      ValidOthello();
      othello.MembershipExact(k);
      ExactOk(vf.h, vf.View(), othello.contents, pk, nk, tnk, fpk);
      AnswersExact(k);
      ReplaysNothing(othello.mem);
      var was := Query(k);
      if was == v {
        return [];
      } else if was == 1 && v == 0 {
        flips := TurnNegative(k);
        ValidOthello();
      } else if was == 0 && v == 1 {
        flips := TurnPositive(k);
      } else {
        flips := [];
      }
    }

    /** What `query` answers. */
    ghost function Answer(k: Key): nat
      requires vf.Ok() && othello.Valid()
      reads this, vf, othello, othello.connectivityForest
    {
      if FM.Lookup(vf.h, vf.View(), k) then othello.Query(k) else 0
    }

    /** Exactness: 1 on every positive key, 0 on every negative key. */
    lemma AnswersExact(k: Key)
      requires Valid()
      ensures vf.Ok()
      ensures k in pk ==> Answer(k) == 1
      ensures k in nk ==> Answer(k) == 0
    {
      hide FM.Filter.Ok, ControlPlaneOthello.Valid, Exact, FM.Lookup, Bit;
      ExactOk(vf.h, vf.View(), othello.contents, pk, nk, tnk, fpk);
      ExactAnswers(vf.h, vf.View(), othello.contents, pk, nk, tnk, fpk, k);
      othello.MembershipExact(k);
    }

    /** `query`. */
    method Query(k: Key) returns (v: nat)
      requires vf.Ok() && othello.Valid()
      ensures v == Answer(k)
      ensures Valid() && k in pk ==> v == 1
      ensures Valid() && k in nk ==> v == 0
    {
      hide FM.Filter.Ok, ControlPlaneOthello.Valid, FM.Lookup, Bit, Exact;
      ghost var valid := Valid();
      if valid { AnswersExact(k); }
      OthelloShape(othello);
      var accepted := vf.Lookup(k);
      v := if accepted then othello.Query(k) else 0;
    }
  }

  lemma NoElements()
    ensures forall s: seq<Key> :: Elements(s[..0]) == {}
    ensures Distinct([]) && Elements([]) == {}
  {
  }

  lemma AllElements(s: seq<Key>)
    ensures s[..|s|] == s
  {
  }

  lemma NothingFilled()
    ensures Filled(map[], {}, {})
  {
  }

  lemma NobodyAccepted(h: FM.Hashes, f: FM.Filter)
    requires f.Ok()
    ensures Accepted(h, f, {}) == {}
  {
    hide FM.Filter.Ok, FM.Lookup;
  }

  lemma TableSize(h: FM.Hashes, f: FM.Filter, t: seq<seq<Key>>, s: set<Key>)
    requires f.Ok() && Tabled(h, f, t, s)
    ensures |t| == f.n
  {
  }

  lemma AcceptedNext(h: FM.Hashes, f: FM.Filter, nk: set<Key>, fps: seq<Key>, k: Key)
    requires f.Ok() && k !in nk && Distinct(fps) && Elements(fps) == Accepted(h, f, nk)
    ensures if FM.Lookup(h, f, k) then Distinct(fps + [k]) && Elements(fps + [k]) == Accepted(h, f, nk + {k})
            else Elements(fps) == Accepted(h, f, nk + {k})
  {
    hide FM.Filter.Ok, FM.Lookup, Accepted, Rejected;
    SplitWith(h, f, nk, k);
    InRejected(h, f, nk, k);
    assert k !in Elements(fps);
  }

  lemma ElementsWithin(s: seq<Key>, i: nat)
    requires i < |s|
    ensures Elements(s[..i]) + {s[i]} <= Elements(s) && s[i] in Elements(s)
  {
  }

  lemma ElementsJoined(a: seq<Key>, b: seq<Key>, i: nat)
    requires i < |b|
    ensures (a + b)[|a| + i] == b[i] && Elements((a + b)[..|a| + i]) == Elements(a) + Elements(b[..i])
  {
    assert (a + b)[..|a| + i] == a + b[..i];
  }

  lemma SelectNone(h: FM.Hashes, f: FM.Filter, s: seq<Key>, want: bool)
    requires f.Ok()
    ensures Select(h, f, s[..0], want) == []
  {
  }

  lemma FalsePositivesOf(setup: Setup, f: FM.Filter, f': FM.Filter, positive: seq<Key>, negative: seq<Key>)
    requires f.Ok() && f'.Ok() && FE.InsertAll(setup.h, f, positive) == (f', true)
    ensures FalsePositives(setup, f, positive, negative) == Select(setup.h, f', negative, true)
  {
    hide FM.Filter.Ok, FE.InsertAll, Select;
  }

  lemma TakesDraws(setup: Setup, from: nat, ks: seq<Key>)
    ensures OthelloTakes(setup, from, ks) ==> DrawnAfter(setup, from, ks) > from
  {
    hide OthelloTakes, DrawnAfter;
    if OthelloTakes(setup, from, ks) {
      WithinLimit(setup, from, ks);
      var at, mb, part := OthelloStuck(setup, from, ks);
    }
  }

  lemma WithinLimit(setup: Setup, from: nat, ks: seq<Key>)
    requires OthelloTakes(setup, from, ks)
    ensures |ks| <= KEY_LIMIT
  {
  }

  lemma PristineCounts(f: FM.Filter, n: nat, len: nat)
    requires Pristine(f, n, len, MAX_STEPS)
    ensures f.filledCell == 0
  {
  }

  lemma AcceptedWithin(h: FM.Hashes, f: FM.Filter, s: set<Key>)
    requires f.Ok()
    ensures Accepted(h, f, s) <= s
  {
    hide FM.Filter.Ok, FM.Lookup;
  }

  lemma {:induction false} SomeList(s: set<Key>) returns (q: seq<Key>)
    ensures Distinct(q) && Elements(q) == s && |q| == |s|
  {
    q := [];
    if s != {} {
      var x :| x in s;
      q := SomeList(s - {x});
      assert x !in Elements(q);
      assert Elements(q + [x]) == Elements(q) + {x};
      q := q + [x];
    }
  }

  /** The keys of a set, in some order. */
  method ListKeys(s: set<Key>) returns (q: seq<Key>)
    ensures Distinct(q) && Elements(q) == s && |q| == |s|
  {
    q := [];
    var rest := s;
    while rest != {}
      invariant rest <= s && Distinct(q) && Elements(q) == s - rest && |q| + |rest| == |s|
      decreases |rest|
    {
      var x :| x in rest;
      assert x !in Elements(q);
      assert Elements(q + [x]) == Elements(q) + {x};
      q := q + [x];
      rest := rest - {x};
    }
  }

  lemma ReplaysNothing(mem: seq<nat>)
    ensures Replays(mem, [], mem)
  {
  }

  /** A list of flipped cells is never taken for the sentinel: there is no such cell. */
  lemma NeverSentinel(o: ControlPlaneOthello, before: seq<nat>, flips: seq<nat>)
    requires o.Valid() && Replays(before, flips, o.mem)
    ensures flips != [SENTINEL]
  {
    hide ControlPlaneOthello.Valid, Words, Replay;
    OthelloShape(o);
    assert |before| == |o.mem|;
    NoSuchCell(before, o.ma + o.mb, flips);
  }

  /** What does not fit, does not fit with more keys either. */
  lemma MoreUnfit(o: ControlPlaneOthello, ks: set<Key>, all: set<Key>)
    requires ks <= all
    ensures !o.Fits(ks) ==> !o.Fits(all)
  {
    hide KeysFit;
    if o.Fits(all) { FewerFit(o.hash, o.seed, o.ma, o.mb, ks, all); }
  }

  /** An unknown key is not in the Othello. */
  lemma NotStored(h: FM.Hashes, f: FM.Filter, c: map<Key, nat>, pk: set<Key>, nk: set<Key>, tnk: seq<seq<Key>>,
      fpk: seq<seq<Key>>, k: Key)
    requires Exact(h, f, c, pk, nk, tnk, fpk) && k !in pk && k !in nk
    ensures k !in c && c - {k} == c
  {
    hide FM.Filter.Ok, Tabled, EntriesMatch;
    assert k !in c;
  }

  lemma InsertStatus(h: FM.Hashes, f: FM.Filter, k: Key)
    requires f.Ok()
    ensures FM.Insert(h, f, k).1 == 0 || FM.Insert(h, f, k).1 == 1
  {
    hide FM.Filter.Ok, FM.Insert, FE.Entries, FE.EntryOf;
    FE.InsertEntries(h, f, k);
  }

  lemma Appended(a: seq<Key>, b: seq<Key>, x: Key)
    ensures a + b + [x] == a + (b + [x])
  {
  }

  lemma OthelloShape(o: ControlPlaneOthello)
    requires o.Valid()
    ensures o.Shape()
  {
  }
}
