/** When an Othello takes another key, as a matter of sizes, seeds and the set of its keys. */
module Growth {
  import opened Wrappers
  import opened Bits
  import opened KeyGraphs

  /** What stays the same for a structure: its hash functions, the seed made from the numbers at a
      position of the program's random generator, the size of array A for a size of array B, and
      the number of keys it was made for. */
  datatype Rules = Rules(hash: (uint64, Key) -> uint64, draw: nat -> uint64, scaleMa: nat -> nat, minimal: nat)

  /** Room in the key arrays, number of keys, sizes, seed, and position in the random stream. */
  datatype Layout = Layout(room: nat, cnt: nat, ma: nat, mb: nat, seed: uint64, drawn: nat)

  /** Doubled until it reaches `target`. */
  function Doubled(b: nat, target: nat): nat
    decreases target - b
  {
    if b >= target || b == 0 then b else Doubled(2 * b, target)
  }

  /** How many keys new key arrays have room for. */
  function Roomy(target: nat): nat {
    if target * 2 > 256 then target * 2 else 256
  }

  /** A build for the keys `ks`: the first of the next fifty seeds that fits. */
  ghost function Reseeded(w: Rules, s: Layout, ks: set<Key>): Option<Layout> {
    if SomeSeedFits(w.hash, w.draw, s.drawn, s.ma, s.mb, ks) then
      var t := FirstFit(w.hash, w.draw, s.drawn, s.ma, s.mb, ks);
      Some(s.(seed := w.draw(s.drawn + 2 * t), drawn := s.drawn + 2 * t + 2))
    else None
  }

  /** `resizeKey`: larger key arrays, and new sizes with a build when they are due. */
  ghost function Enlarged(w: Rules, s: Layout, ks: set<Key>, capacity: nat, compact: bool): Option<Layout> {
    var target := if capacity > w.minimal then capacity else w.minimal;
    var room := if target > s.room then Roomy(target) else s.room;
    var mb := if compact then target else Doubled(w.minimal, target);
    var ma := w.scaleMa(mb);
    if target < s.cnt then None
    else if ma > s.ma || 10 * ma < 8 * s.ma then Reseeded(w, s.(room := room, ma := ma, mb := mb), ks)
    else Some(s.(room := room))
  }

  /** A new key next to the keys `ks`, once there is room: a cycle makes it build anew. */
  ghost function Attached(w: Rules, s: Layout, ks: set<Key>, k: Key): Option<Layout> {
    var next := s.(cnt := s.cnt + 1);
    if KeysFit(w.hash, s.seed, s.ma, s.mb, ks + {k}) then Some(next) else Reseeded(w, next, ks + {k})
  }

  /** `insert` of a key next to the keys `ks`. */
  ghost function Grown(w: Rules, s: Layout, ks: set<Key>, k: Key): Option<Layout> {
    var r :- if s.cnt + 1 >= s.room || s.cnt >= s.mb then Enlarged(w, s, ks, s.cnt + 1, false) else Some(s);
    Attached(w, r, ks, k)
  }

  /** A new structure, its initial hash functions drawn from position `start` on: one build when
      it gets its sizes, and another one. */
  ghost function NewLayout(w: Rules, start: nat): Layout {
    Layout(Roomy(w.minimal), 0, w.scaleMa(w.minimal), w.minimal, w.draw(start + 5), start + 7)
  }

  lemma ReseededWhen(w: Rules, s: Layout, ks: set<Key>)
    ensures Reseeded(w, s, ks).Some? <==> SomeSeedFits(w.hash, w.draw, s.drawn, s.ma, s.mb, ks)
  {
  }

  /** The first attempt of a structure without keys succeeds. */
  lemma EmptyReseeded(w: Rules, s: Layout)
    ensures Reseeded(w, s, {}) == Some(s.(seed := w.draw(s.drawn), drawn := s.drawn + 2))
  {
    hide KeysFit, Reseeded;
    NoKeysFit(w.hash, w.draw(s.drawn), s.ma, s.mb);
    assert SeedFits(w.hash, w.draw, s.drawn, 0, s.ma, s.mb, {});
    ReseededIs(w, s, {}, 0);
  }

  lemma EmptyEnlarged(w: Rules, s: Layout)
    requires s.room == s.cnt == s.ma == 0 < w.minimal && w.scaleMa(w.minimal) > 0
    ensures Enlarged(w, s, {}, 0, true)
         == Some(Layout(Roomy(w.minimal), 0, w.scaleMa(w.minimal), w.minimal, w.draw(s.drawn), s.drawn + 2))
  {
    hide Reseeded;
    EmptyReseeded(w, s.(room := Roomy(w.minimal), ma := w.scaleMa(w.minimal), mb := w.minimal));
  }

  /** A build has come to an end with the first seed that fits. */
  lemma ReseededIs(w: Rules, s: Layout, ks: set<Key>, t: nat)
    requires FirstSeed(w.hash, w.draw, s.drawn, t, s.ma, s.mb, ks)
    ensures Reseeded(w, s, ks) == Some(s.(seed := w.draw(s.drawn + 2 * t), drawn := s.drawn + 2 * t + 2))
  {
    hide SeedFits;
    var u := FirstFit(w.hash, w.draw, s.drawn, s.ma, s.mb, ks);
    FirstSeedUnique(w.hash, w.draw, s.drawn, t, u, s.ma, s.mb, ks);
  }

  // ---- What the functions come to ----

  /** The least of the numbers `b`, `2 * b`, `4 * b`, .. that reaches the target. */
  lemma {:induction false} DoubledLeast(b: nat, target: nat) returns (e: nat)
    requires b > 0
    ensures Doubled(b, target) == b * Pow2(e) >= target && (e > 0 ==> b * Pow2(e - 1) < target)
    decreases target - b
  {
    if b >= target {
      e := 0;
    } else {
      var e' := DoubledLeast(2 * b, target);
      e := e' + 1;
      TwiceTimes(b, e');
      if e' > 0 { TwiceTimes(b, e' - 1); } else { OnceTimes(b); }
    }
  }

  lemma TwiceTimes(b: nat, e: nat)
    ensures 2 * b * Pow2(e) == b * Pow2(e + 1)
  {
  }

  lemma OnceTimes(b: nat)
    ensures b * Pow2(0) == b
  {
  }

  lemma LeastUnique(b: nat, target: nat, d: nat, e: nat)
    requires b > 0 && b * Pow2(d) >= target && b * Pow2(e) >= target
    requires (d > 0 ==> b * Pow2(d - 1) < target) && (e > 0 ==> b * Pow2(e - 1) < target)
    ensures d == e
  {
    if d < e { TimesGrow(b, d, e - 1); } else if e < d { TimesGrow(b, e, d - 1); }
  }

  lemma {:induction false} TimesGrow(b: nat, d: nat, e: nat)
    requires d <= e
    ensures b * Pow2(d) <= b * Pow2(e)
    decreases e
  {
    if d < e {
      TimesGrow(b, d, e - 1);
      TwiceTimes(b, e - 1);
    }
  }

  /** A build succeeds exactly when one of fifty seeds, two numbers apart, gives a forest, and takes
      the first of them. */
  lemma ReseededFirst(w: Rules, s: Layout, ks: set<Key>)
    ensures Reseeded(w, s, ks).Some? <==>
              exists t: nat :: t < 50 && KeysFit(w.hash, w.draw(s.drawn + 2 * t), s.ma, s.mb, ks)
    ensures Reseeded(w, s, ks).Some? ==>
              exists t: nat :: t < 50
                && Reseeded(w, s, ks) == Some(s.(seed := w.draw(s.drawn + 2 * t), drawn := s.drawn + 2 * t + 2))
                && KeysFit(w.hash, w.draw(s.drawn + 2 * t), s.ma, s.mb, ks)
                && forall u: nat :: u < t ==> !KeysFit(w.hash, w.draw(s.drawn + 2 * u), s.ma, s.mb, ks)
  {
    hide KeysFit;
    if t: nat :| t < 50 && KeysFit(w.hash, w.draw(s.drawn + 2 * t), s.ma, s.mb, ks) {
      assert SeedFits(w.hash, w.draw, s.drawn, t, s.ma, s.mb, ks);
    }
    if Reseeded(w, s, ks).Some? {
      var t := FirstFit(w.hash, w.draw, s.drawn, s.ma, s.mb, ks);
      forall u: nat | u < t ensures !KeysFit(w.hash, w.draw(s.drawn + 2 * u), s.ma, s.mb, ks) {
        assert !SeedFits(w.hash, w.draw, s.drawn, u, s.ma, s.mb, ks);
      }
    }
  }

  /** `resizeKey` for `target` keys, where array B is to get `mb` cells: room for twice as many keys,
      256 at least, once there is too little; nothing else changes when array A is neither too
      small nor, by a fifth, too large. */
  lemma EnlargedWhen(w: Rules, s: Layout, ks: set<Key>, capacity: nat, compact: bool, target: nat, mb: nat, e: nat)
    requires w.minimal > 0 && target >= capacity && target >= w.minimal && (target == capacity || target == w.minimal)
    requires compact ==> mb == target
    requires !compact ==> mb == w.minimal * Pow2(e) >= target && (e > 0 ==> w.minimal * Pow2(e - 1) < target)
    ensures var room := if target <= s.room then s.room else if target <= 128 then 256 else 2 * target;
            var r := Enlarged(w, s, ks, capacity, compact);
            && (target < s.cnt ==> r == None)
            && (s.cnt <= target && 4 * s.ma <= 5 * w.scaleMa(mb) <= 5 * s.ma ==> r == Some(s.(room := room)))
            && (s.cnt <= target && !(4 * s.ma <= 5 * w.scaleMa(mb) <= 5 * s.ma) ==>
                  r == Reseeded(w, s.(room := room, ma := w.scaleMa(mb), mb := mb), ks))
  {
    hide Reseeded, Doubled;
    if !compact {
      var d := DoubledLeast(w.minimal, target);
      LeastUnique(w.minimal, target, d, e);
    }
  }

  /** `insert`: the key arrays grow once the last place would be taken or array B has no more cells
      than there are keys; the seed changes only if the new key closes a cycle. */
  lemma GrownWhen(w: Rules, s: Layout, ks: set<Key>, k: Key)
    ensures s.cnt + 1 < s.room && s.cnt < s.mb && KeysFit(w.hash, s.seed, s.ma, s.mb, ks + {k}) ==>
              Grown(w, s, ks, k) == Some(s.(cnt := s.cnt + 1))
    ensures s.cnt + 1 < s.room && s.cnt < s.mb && !KeysFit(w.hash, s.seed, s.ma, s.mb, ks + {k}) ==>
              Grown(w, s, ks, k) == Reseeded(w, s.(cnt := s.cnt + 1), ks + {k})
    ensures s.cnt + 1 >= s.room || s.cnt >= s.mb ==>
              match Enlarged(w, s, ks, s.cnt + 1, false)
              case None => Grown(w, s, ks, k) == None
              case Some(r) =>
                Grown(w, s, ks, k) == if KeysFit(w.hash, r.seed, r.ma, r.mb, ks + {k}) then Some(r.(cnt := r.cnt + 1))
                                      else Reseeded(w, r.(cnt := r.cnt + 1), ks + {k})
  {
    hide Reseeded, Enlarged, KeysFit;
  }
}
