/** The graph of a set of keys: each key is an edge between a node of array A and a node of
    array B, which hash function, seed and array sizes decide. */
module KeyGraphs {
  import opened Bits
  import opened PackedArray
  import opened Forest

  /** `getIndices`: the end nodes of a key, by multiply-high range reduction. */
  function Indices(hash: uint64, ma: nat, mb: nat): (e: Edge)
    ensures ma > 0 && mb > 0 ==> e.a < ma <= e.b < ma + mb
  {
    HashHalves(hash);
    MulHigh(hash % WRAP32, ma);
    MulHigh(hash / WRAP32, mb);
    Edge(hash % WRAP32 * ma / WRAP32, hash / WRAP32 * mb / WRAP32 + ma)
  }

  /** The low half of the hash, as a fraction of 2^32, says where in array A the key lies, the high
      half where in array B. */
  lemma IndicesByHalves(hash: uint64, high: nat, low: nat, ma: nat, mb: nat)
    requires hash == high * WRAP32 + low && high < WRAP32 && low < WRAP32
    ensures var e := Indices(hash, ma, mb);
            && e.b >= ma
            && e.a * WRAP32 <= low * ma < (e.a + 1) * WRAP32
            && (e.b - ma) * WRAP32 <= high * mb < (e.b - ma + 1) * WRAP32
  {
    HashHalves(hash);
    assert hash % WRAP32 == low && hash / WRAP32 == high;
    Quotient(low * ma);
    Quotient(high * mb);
  }

  lemma Quotient(x: nat)
    ensures x / WRAP32 * WRAP32 <= x < (x / WRAP32 + 1) * WRAP32
  {
  }

  lemma HashHalves(hash: uint64)
    ensures 0 <= hash % WRAP32 < WRAP32 && 0 <= hash / WRAP32 < WRAP32
  {
  }

  lemma MulHigh(x: nat, n: nat)
    requires x < WRAP32
    ensures x * n / WRAP32 >= 0 && (n > 0 ==> x * n / WRAP32 < n)
  {
    MulGap(x, WRAP32, n);
  }

  /** The edges of the first `cnt` keys. */
  ghost function EdgeMap(hash: (uint64, Key) -> uint64, seed: uint64, ma: nat, mb: nat, keys: seq<Key>,
      cnt: nat): Graph {
    map i | 0 <= i < cnt && i < |keys| :: Indices(hash(seed, keys[i]), ma, mb)
  }

  lemma EdgeMapPush(hash: (uint64, Key) -> uint64, seed: uint64, ma: nat, mb: nat, keys: seq<Key>, cnt: nat, k: Key)
    requires cnt < |keys|
    ensures cnt !in EdgeMap(hash, seed, ma, mb, keys, cnt)
    ensures EdgeMap(hash, seed, ma, mb, keys[cnt := k], cnt + 1)
         == EdgeMap(hash, seed, ma, mb, keys, cnt)[cnt := Indices(hash(seed, k), ma, mb)]
  {
  }

  /** Moving the last key into the place of the erased one renames its edge. */
  lemma EdgeMapMove(hash: (uint64, Key) -> uint64, seed: uint64, ma: nat, mb: nat, keys: seq<Key>, id: nat, last: nat)
    requires id <= last < |keys|
    ensures var g := EdgeMap(hash, seed, ma, mb, keys, last + 1);
            && id in g && g[id] == Indices(hash(seed, keys[id]), ma, mb)
            && last in g && g[last] == Indices(hash(seed, keys[last]), ma, mb)
            && (id == last ==> keys[id := keys[last]] == keys)
            && EdgeMap(hash, seed, ma, mb, keys[id := keys[last]], last)
                 == if id == last then g - {id} else Rename(g - {id}, last, id)
  {
  }

  lemma EdgeMapGrow(hash: (uint64, Key) -> uint64, seed: uint64, ma: nat, mb: nat, keys: seq<Key>, keys': seq<Key>,
      cnt: nat)
    requires cnt <= |keys| && keys <= keys'
    ensures EdgeMap(hash, seed, ma, mb, keys', cnt) == EdgeMap(hash, seed, ma, mb, keys, cnt)
  {
  }

  /** The edges of a set of keys, by key. */
  ghost function KeyEdges(hash: (uint64, Key) -> uint64, seed: uint64, ma: nat, mb: nat, ks: set<Key>): Graph {
    map k | k in ks :: Indices(hash(seed, k), ma, mb)
  }

  /** The edge of a key goes by its hash under the seed, as `IndicesByHalves` says. */
  lemma KeyEdgeByHalves(hash: (uint64, Key) -> uint64, seed: uint64, ma: nat, mb: nat, ks: set<Key>, k: Key,
      high: nat, low: nat)
    requires k in ks && hash(seed, k) == high * WRAP32 + low && high < WRAP32 && low < WRAP32
    ensures KeyEdges(hash, seed, ma, mb, ks).Keys == ks
    ensures var e := KeyEdges(hash, seed, ma, mb, ks)[k];
            && e.b >= ma
            && e.a * WRAP32 <= low * ma < (e.a + 1) * WRAP32
            && (e.b - ma) * WRAP32 <= high * mb < (e.b - ma + 1) * WRAP32
  {
    hide Indices;
    IndicesByHalves(hash(seed, k), high, low, ma, mb);
  }

  /** The keys form a forest under this seed: an Othello of these sizes can hold them. */
  ghost predicate KeysFit(hash: (uint64, Key) -> uint64, seed: uint64, ma: nat, mb: nat, ks: set<Key>) {
    IsForest(KeyEdges(hash, seed, ma, mb, ks))
  }

  lemma NoKeysFit(hash: (uint64, Key) -> uint64, seed: uint64, ma: nat, mb: nat)
    ensures KeysFit(hash, seed, ma, mb, {})
  {
  }

  lemma EdgesWithin(hash: (uint64, Key) -> uint64, seed: uint64, ma: nat, mb: nat, ks: set<Key>, all: set<Key>)
    requires ks <= all
    ensures KeyEdges(hash, seed, ma, mb, ks).Values <= KeyEdges(hash, seed, ma, mb, all).Values
  {
    hide Indices;
    SubValues(KeyEdges(hash, seed, ma, mb, ks), KeyEdges(hash, seed, ma, mb, all));
  }

  lemma EdgesWithout(hash: (uint64, Key) -> uint64, seed: uint64, ma: nat, mb: nat, ks: set<Key>, k: Key)
    ensures KeyEdges(hash, seed, ma, mb, ks) - {k} == KeyEdges(hash, seed, ma, mb, ks - {k})
  {
  }

  /** Fewer keys fit where more do. */
  lemma FewerFit(hash: (uint64, Key) -> uint64, seed: uint64, ma: nat, mb: nat, ks: set<Key>, all: set<Key>)
    requires ks <= all && KeysFit(hash, seed, ma, mb, all)
    ensures KeysFit(hash, seed, ma, mb, ks)
  {
    hide IsForest, Indices;
    var g, h := KeyEdges(hash, seed, ma, mb, ks), KeyEdges(hash, seed, ma, mb, all);
    forall i | i in g ensures exists j :: j in h && h[j] == g[i] && (g - {i}).Values <= (h - {j}).Values {
      EdgesWithout(hash, seed, ma, mb, ks, i);
      EdgesWithout(hash, seed, ma, mb, all, i);
      EdgesWithin(hash, seed, ma, mb, ks - {i}, all - {i});
      assert i in h && h[i] == g[i];
    }
    ForestPart(g, h);
  }

  /** One more key fits exactly when its edge closes no cycle. */
  lemma OneMoreFits(hash: (uint64, Key) -> uint64, seed: uint64, ma: nat, mb: nat, ks: set<Key>, k: Key)
    requires k !in ks && KeysFit(hash, seed, ma, mb, ks)
    ensures var e := Indices(hash(seed, k), ma, mb);
            KeysFit(hash, seed, ma, mb, ks + {k}) <==> !Linked(KeyEdges(hash, seed, ma, mb, ks), e.a, e.b)
  {
    hide IsForest, Linked, Indices;
    var g, e := KeyEdges(hash, seed, ma, mb, ks), Indices(hash(seed, k), ma, mb);
    assert KeyEdges(hash, seed, ma, mb, ks + {k}) == g[k := e];
    ForestPlus(g, k, e);
  }

  // ---- Keys in an array ----

  ghost predicate DistinctKeys(keys: seq<Key>, cnt: nat) {
    cnt <= |keys| && forall i, j :: 0 <= i < j < cnt ==> keys[i] != keys[j]
  }

  ghost function KeySet(keys: seq<Key>, cnt: nat): set<Key>
    requires cnt <= |keys|
  {
    set i | 0 <= i < cnt :: keys[i]
  }

  lemma EdgesByKey(hash: (uint64, Key) -> uint64, seed: uint64, ma: nat, mb: nat, keys: seq<Key>, cnt: nat)
    requires cnt <= |keys|
    ensures EdgeMap(hash, seed, ma, mb, keys, cnt).Values == KeyEdges(hash, seed, ma, mb, KeySet(keys, cnt)).Values
  {
    hide Indices;
    var g, h := EdgeMap(hash, seed, ma, mb, keys, cnt), KeyEdges(hash, seed, ma, mb, KeySet(keys, cnt));
    forall e | e in g.Values ensures e in h.Values {
      var i :| i in g && g[i] == e;
      assert keys[i] in h && h[keys[i]] == e;
    }
    forall e | e in h.Values ensures e in g.Values {
      var k :| k in h && h[k] == e;
      var i :| 0 <= i < cnt && keys[i] == k;
      assert i in g && g[i] == e;
    }
  }

  /** Edges numbered by position are the edges of the keys. */
  lemma LinkedByKey(hash: (uint64, Key) -> uint64, seed: uint64, ma: nat, mb: nat, keys: seq<Key>, cnt: nat, u: nat,
      v: nat)
    requires cnt <= |keys|
    ensures Linked(EdgeMap(hash, seed, ma, mb, keys, cnt), u, v) <==>
        Linked(KeyEdges(hash, seed, ma, mb, KeySet(keys, cnt)), u, v)
  {
    hide Indices, EdgeMap, KeyEdges, Linked;
    EdgesByKey(hash, seed, ma, mb, keys, cnt);
    var g, h := EdgeMap(hash, seed, ma, mb, keys, cnt), KeyEdges(hash, seed, ma, mb, KeySet(keys, cnt));
    if Linked(g, u, v) { LinkedMono(g, h, u, v); }
    if Linked(h, u, v) { LinkedMono(h, g, u, v); }
  }

  /** Edge `i` and its key are left out on both sides. */
  lemma OthersByKey(hash: (uint64, Key) -> uint64, seed: uint64, ma: nat, mb: nat, keys: seq<Key>, cnt: nat, i: nat)
    requires DistinctKeys(keys, cnt) && i < cnt
    ensures var g, h := EdgeMap(hash, seed, ma, mb, keys, cnt), KeyEdges(hash, seed, ma, mb, KeySet(keys, cnt));
            && i in g && keys[i] in h && g[i] == h[keys[i]]
            && (g - {i}).Values == (h - {keys[i]}).Values
  {
    hide Indices;
    var g, h := EdgeMap(hash, seed, ma, mb, keys, cnt), KeyEdges(hash, seed, ma, mb, KeySet(keys, cnt));
    forall e | e in (g - {i}).Values ensures e in (h - {keys[i]}).Values {
      var j :| j in g - {i} && g[j] == e;
      assert keys[j] != keys[i] by { assert if i < j then keys[i] != keys[j] else keys[j] != keys[i]; }
      assert keys[j] in h - {keys[i]} && h[keys[j]] == e;
    }
    forall e | e in (h - {keys[i]}).Values ensures e in (g - {i}).Values {
      var k :| k in h - {keys[i]} && h[k] == e;
      var j :| 0 <= j < cnt && keys[j] == k;
      assert j in g - {i} && g[j] == e;
    }
  }

  lemma ForestByKey(hash: (uint64, Key) -> uint64, seed: uint64, ma: nat, mb: nat, keys: seq<Key>, cnt: nat)
    requires DistinctKeys(keys, cnt)
    ensures IsForest(EdgeMap(hash, seed, ma, mb, keys, cnt)) <==> KeysFit(hash, seed, ma, mb, KeySet(keys, cnt))
  {
    hide Indices, IsForest;
    var g, h := EdgeMap(hash, seed, ma, mb, keys, cnt), KeyEdges(hash, seed, ma, mb, KeySet(keys, cnt));
    forall i | i in g ensures exists j :: j in h && h[j] == g[i] && (g - {i}).Values <= (h - {j}).Values {
      OthersByKey(hash, seed, ma, mb, keys, cnt, i);
      assert keys[i] in h;
    }
    forall k | k in h ensures exists j :: j in g && g[j] == h[k] && (h - {k}).Values <= (g - {j}).Values {
      var j :| 0 <= j < cnt && keys[j] == k;
      OthersByKey(hash, seed, ma, mb, keys, cnt, j);
      assert j in g;
    }
    if IsForest(g) { ForestPart(h, g); }
    if IsForest(h) { ForestPart(g, h); }
  }

  // ---- Seeds ----

  /** How many seeds `build` tries. */
  const MAX_REHASH := 50

  /** `draw(p)` is the seed made from the numbers at positions `p` and `p + 1` of the program's
      random generator.  Attempt `t` from position `from` succeeds. */
  ghost predicate SeedFits(hash: (uint64, Key) -> uint64, draw: nat -> uint64, from: nat, t: nat, ma: nat, mb: nat,
      ks: set<Key>) {
    KeysFit(hash, draw(from + 2 * t), ma, mb, ks)
  }

  ghost predicate SomeSeedFits(hash: (uint64, Key) -> uint64, draw: nat -> uint64, from: nat, ma: nat, mb: nat,
      ks: set<Key>) {
    exists t :: 0 <= t < MAX_REHASH && SeedFits(hash, draw, from, t, ma, mb, ks)
  }

  /** Attempt `t` is the first to succeed. */
  ghost predicate FirstSeed(hash: (uint64, Key) -> uint64, draw: nat -> uint64, from: nat, t: nat, ma: nat, mb: nat,
      ks: set<Key>) {
    t < MAX_REHASH && SeedFits(hash, draw, from, t, ma, mb, ks)
    && forall s :: 0 <= s < t ==> !SeedFits(hash, draw, from, s, ma, mb, ks)
  }

  lemma FirstSeedUnique(hash: (uint64, Key) -> uint64, draw: nat -> uint64, from: nat, t: nat, s: nat, ma: nat, mb: nat,
      ks: set<Key>)
    requires FirstSeed(hash, draw, from, t, ma, mb, ks) && FirstSeed(hash, draw, from, s, ma, mb, ks)
    ensures t == s
  {
    hide SeedFits;
  }

  lemma FirstSeedExists(hash: (uint64, Key) -> uint64, draw: nat -> uint64, from: nat, ma: nat, mb: nat, ks: set<Key>)
      returns (t: nat)
    requires SomeSeedFits(hash, draw, from, ma, mb, ks)
    ensures FirstSeed(hash, draw, from, t, ma, mb, ks)
  {
    hide SeedFits;
    t := 0;
    while !SeedFits(hash, draw, from, t, ma, mb, ks)
      invariant t < MAX_REHASH && forall s :: 0 <= s < t ==> !SeedFits(hash, draw, from, s, ma, mb, ks)
      decreases MAX_REHASH - t
    {
      t := t + 1;
    }
  }

  lemma FirstSeedSome(hash: (uint64, Key) -> uint64, draw: nat -> uint64, from: nat, ma: nat, mb: nat, ks: set<Key>)
    requires SomeSeedFits(hash, draw, from, ma, mb, ks)
    ensures exists t: nat :: FirstSeed(hash, draw, from, t, ma, mb, ks)
  {
    var t := FirstSeedExists(hash, draw, from, ma, mb, ks);
  }

  /** Which attempt a build succeeds with. */
  ghost function FirstFit(hash: (uint64, Key) -> uint64, draw: nat -> uint64, from: nat, ma: nat, mb: nat,
      ks: set<Key>): (t: nat)
    requires SomeSeedFits(hash, draw, from, ma, mb, ks)
    ensures FirstSeed(hash, draw, from, t, ma, mb, ks)
  {
    FirstSeedSome(hash, draw, from, ma, mb, ks);
    var t: nat :| FirstSeed(hash, draw, from, t, ma, mb, ks);
    t
  }
}
