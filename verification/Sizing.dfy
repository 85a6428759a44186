/** What building a tracker depends on: the hash functions, the sizes the source computes with
    floats, and when a filter or an Othello of such sizes cannot hold its keys. */
module Sizing {
  import opened Wrappers
  import opened Bits
  import opened KeyGraphs
  import opened Growth
  import opened ControlPlane
  import opened VacuumFilters
  import opened TrackerModel
  import FM = FilterModel
  import FE = FilterEntries

  /** The hash functions and what the source computes with floats: the capacity of an Othello
      for so many keys, the size of its array A, the buckets for so many positive keys and the
      fingerprint length for so many positive and negative keys. */
  datatype Setup = Setup(h: FM.Hashes, hash: (uint64, Key) -> uint64, draw: nat -> uint64,
                         capacity: nat -> nat, scaleMa: nat -> nat,
                         buckets: nat -> nat, printLength: (nat, nat) -> nat)

  const MAX_STEPS := 400

  function Buckets(setup: Setup, positives: nat): nat {
    setup.buckets(positives) + setup.buckets(positives) % 2
  }

  /** So many keys give a small filter with short fingerprints, even after `retries` retries. */
  predicate SizesFit(setup: Setup, positives: nat, negatives: nat, retries: nat) {
    && 2 <= Buckets(setup, positives) < 1315800
    && 4 <= setup.printLength(positives, negatives) <= 16 - retries
  }

  /** As many keys an Othello may get, positive and false positive together. */
  const KEY_LIMIT: nat := 0x100_0000

  /** The Othello sizes computed with floats stay in range. */
  ghost predicate Sane(setup: Setup) {
    Scales(setup.scaleMa) && forall m: nat :: m <= KEY_LIMIT ==> setup.capacity(m) < SIZE_LIMIT
  }

  /** What stays the same for an Othello made for so many keys. */
  function OthelloRules(setup: Setup, count: nat): Rules {
    Rules(setup.hash, setup.draw, setup.scaleMa, setup.capacity(count) + 1)
  }

  // ---- When a build comes to an end ----

  /** A fresh filter with fingerprints of length `len` does not take these keys in this order. */
  ghost predicate FilterFull(setup: Setup, n: nat, len: nat, positive: seq<Key>) {
    exists f: FM.Filter ::
      f.Ok() && Pristine(f, n, len, MAX_STEPS) && !FE.InsertAll(setup.h, f, positive).1
  }

  /** A pristine filter decides, because there is only one. */
  lemma FullOrNot(setup: Setup, f: FM.Filter, n: nat, len: nat, positive: seq<Key>)
    requires f.Ok() && Pristine(f, n, len, MAX_STEPS)
    ensures FilterFull(setup, n, len, positive) <==> !FE.InsertAll(setup.h, f, positive).1
  {
    hide FM.Filter.Ok, FE.InsertAll, Pristine;
    forall g: FM.Filter | Pristine(g, n, len, MAX_STEPS) ensures g == f {
      PristineUnique(f, g, n, len, MAX_STEPS);
    }
  }

  /** Keys inserted one after the other. */
  ghost function GrownBy(w: Rules, s: Layout, ks: seq<Key>): Option<Layout> {
    if ks == [] then Some(s)
    else
      var before := ks[..|ks| - 1];
      var r :- GrownBy(w, s, before);
      Grown(w, r, Elements(before), ks[|ks| - 1])
  }

  lemma GrownByNone(w: Rules, s: Layout, ks: seq<Key>)
    ensures GrownBy(w, s, ks[..0]) == Some(s)
  {
  }

  lemma GrownByNext(w: Rules, s: Layout, ks: seq<Key>, i: nat)
    requires i < |ks| && GrownBy(w, s, ks[..i]).Some?
    ensures GrownBy(w, s, ks[..i + 1]) == Grown(w, GrownBy(w, s, ks[..i]).value, Elements(ks[..i]), ks[i])
  {
    hide Grown, Elements;
    assert ks[..i + 1][..i] == ks[..i];
  }

  lemma {:induction false} GrownByStuck(w: Rules, s: Layout, ks: seq<Key>, i: nat)
    requires i <= |ks| && GrownBy(w, s, ks[..i]) == None
    ensures GrownBy(w, s, ks) == None
    decreases |ks| - i
  {
    hide Grown, Elements;
    if i == |ks| {
      assert ks[..i] == ks;
    } else {
      assert ks[..i + 1][..i] == ks[..i];
      GrownByStuck(w, s, ks, i + 1);
    }
  }

  /** An Othello made for these keys, its random numbers taken from position `from` on, takes
      them in this order. */
  ghost predicate OthelloTakes(setup: Setup, from: nat, ks: seq<Key>) {
    var w := OthelloRules(setup, |ks|);
    |ks| <= KEY_LIMIT && GrownBy(w, NewLayout(w, from), ks).Some?
  }

  /** Where the random stream is afterwards. */
  ghost function DrawnAfter(setup: Setup, from: nat, ks: seq<Key>): nat
    requires OthelloTakes(setup, from, ks)
  {
    var w := OthelloRules(setup, |ks|);
    GrownBy(w, NewLayout(w, from), ks).value.drawn
  }

  /** The filter takes the positive keys, and the Othello takes them and the negative keys that
      the filter then accepts. */
  ghost predicate KeysTaken(setup: Setup, from: nat, n: nat, len: nat, positive: seq<Key>, negative: seq<Key>) {
    exists f: FM.Filter ::
      && f.Ok() && Pristine(f, n, len, MAX_STEPS)
      && OthelloTakes(setup, from, positive + FalsePositives(setup, f, positive, negative))
  }

  ghost function FalsePositives(setup: Setup, f: FM.Filter, positive: seq<Key>, negative: seq<Key>): seq<Key>
    requires f.Ok()
  {
    Select(setup.h, FE.InsertAll(setup.h, f, positive).0, negative, true)
  }

  /** `batch_insert` comes to an end: with the first fingerprint length for which the filter is
      not too full, the Othello takes its keys. */
  ghost predicate BatchTaken(setup: Setup, from: nat, n: nat, len: nat, retries: nat, positive: seq<Key>,
      negative: seq<Key>)
    decreases retries
  {
    if FilterFull(setup, n, len, positive) then
      retries > 0 && BatchTaken(setup, from, n, len + 1, retries - 1, positive, negative)
    else
      KeysTaken(setup, from, n, len, positive, negative)
  }

  /** A build from these lists of keys comes to an end. */
  ghost predicate Builds(setup: Setup, from: nat, positive: seq<Key>, negative: seq<Key>, retries: nat) {
    && SizesFit(setup, |positive|, |negative|, retries)
    && BatchTaken(setup, from, Buckets(setup, |positive|), setup.printLength(|positive|, |negative|), retries,
                  positive, negative)
  }

  /** Lists of these key sets, in some order. */
  ghost predicate Lists(positive: seq<Key>, negative: seq<Key>, pk: set<Key>, nk: set<Key>) {
    Distinct(positive) && Elements(positive) == pk && Distinct(negative) && Elements(negative) == nk
  }

  lemma TakenOrNot(setup: Setup, f: FM.Filter, from: nat, n: nat, len: nat, positive: seq<Key>, negative: seq<Key>)
    requires f.Ok() && Pristine(f, n, len, MAX_STEPS)
    ensures KeysTaken(setup, from, n, len, positive, negative)
       <==> OthelloTakes(setup, from, positive + FalsePositives(setup, f, positive, negative))
  {
    hide FM.Filter.Ok, FE.InsertAll, Pristine, OthelloTakes, FalsePositives;
    forall g: FM.Filter | Pristine(g, n, len, MAX_STEPS) ensures g == f {
      PristineUnique(f, g, n, len, MAX_STEPS);
    }
  }

  // ---- Why an Othello gets stuck ----

  /** Fifty seeds in a row fail for some of the keys, at a size made for all of them. */
  ghost predicate Seedless(setup: Setup, from: nat, mb: nat, part: set<Key>) {
    !SomeSeedFits(setup.hash, setup.draw, from, setup.scaleMa(mb), mb, part)
  }

  /** Sizes that belong together, and a position in the random stream from `from` on. */
  predicate Sound(w: Rules, s: Layout, from: nat) {
    s.ma == w.scaleMa(s.mb) && s.mb >= w.minimal && s.drawn >= from
  }

  lemma {:induction false} DoubledGrows(b: nat, target: nat)
    ensures Doubled(b, target) >= b
    decreases target - b
  {
    if b < target && b > 0 { DoubledGrows(2 * b, target); }
  }

  lemma ReseededOrSeedless(setup: Setup, count: nat, s: Layout, from: nat, ks: set<Key>)
    requires s.drawn >= from && s.ma == setup.scaleMa(s.mb) && s.mb > setup.capacity(count)
    ensures var r := Reseeded(OthelloRules(setup, count), s, ks);
            if r.Some? then Sound(OthelloRules(setup, count), r.value, from) else Seedless(setup, s.drawn, s.mb, ks)
  {
    hide SomeSeedFits;
    ReseededWhen(OthelloRules(setup, count), s, ks);
  }

  /** A key that does not get in leaves a set of keys without a seed. */
  lemma GrownOrSeedless(setup: Setup, count: nat, s: Layout, from: nat, ks: set<Key>, k: Key)
      returns (at: nat, mb: nat, part: set<Key>)
    requires Sound(OthelloRules(setup, count), s, from)
    ensures var r := Grown(OthelloRules(setup, count), s, ks, k);
            if r.Some? then Sound(OthelloRules(setup, count), r.value, from)
            else part <= ks + {k} && at >= from && mb > setup.capacity(count) && Seedless(setup, at, mb, part)
  {
    hide KeysFit, Reseeded, Seedless, Doubled;
    var w := OthelloRules(setup, count);
    var r := Some(s);
    if s.cnt + 1 >= s.room || s.cnt >= s.mb {
      var target := if s.cnt + 1 > w.minimal then s.cnt + 1 else w.minimal;
      var room := if target > s.room then Roomy(target) else s.room;
      var next := Doubled(w.minimal, target);
      DoubledGrows(w.minimal, target);
      ReseededOrSeedless(setup, count, s.(room := room, ma := w.scaleMa(next), mb := next), from, ks);
      r := Enlarged(w, s, ks, s.cnt + 1, false);
      at, mb, part := s.drawn, next, ks;
    }
    if r.Some? {
      var next := r.value.(cnt := r.value.cnt + 1);
      ReseededOrSeedless(setup, count, next, from, ks + {k});
      at, mb, part := next.drawn, next.mb, ks + {k};
    }
  }

  lemma {:induction false} GrownByOrSeedless(setup: Setup, count: nat, from: nat, s: Layout, ks: seq<Key>)
      returns (at: nat, mb: nat, part: set<Key>)
    requires Sound(OthelloRules(setup, count), s, from)
    ensures var r := GrownBy(OthelloRules(setup, count), s, ks);
            if r.Some? then Sound(OthelloRules(setup, count), r.value, from)
            else part <= Elements(ks) && at >= from && mb > setup.capacity(count) && Seedless(setup, at, mb, part)
  {
    hide Grown, Seedless;
    at, mb, part := 0, 0, {};
    if ks != [] {
      var before := ks[..|ks| - 1];
      at, mb, part := GrownByOrSeedless(setup, count, from, s, before);
      var r := GrownBy(OthelloRules(setup, count), s, before);
      if r.Some? {
        at, mb, part := GrownOrSeedless(setup, count, r.value, from, Elements(before), ks[|ks| - 1]);
      }
    }
  }

  /** An Othello that does not take its keys has met some of them that fifty seeds in a row do not
      fit, at a size made for all of them; otherwise the random stream has gone on. */
  lemma OthelloStuck(setup: Setup, from: nat, ks: seq<Key>) returns (at: nat, mb: nat, part: set<Key>)
    requires |ks| <= KEY_LIMIT
    ensures if OthelloTakes(setup, from, ks) then DrawnAfter(setup, from, ks) > from
            else part <= Elements(ks) && at > from && mb > setup.capacity(|ks|) && Seedless(setup, at, mb, part)
  {
    hide GrownBy, Seedless, Elements;
    at, mb, part := GrownByOrSeedless(setup, |ks|, from + 1, NewLayout(OthelloRules(setup, |ks|), from), ks);
  }
}
