/** Control-plane Othello.  Every live key is an edge of a forest over `ma + mb` nodes;
    xoring the two end cells of a key gives its value (`mem`, one bit per cell) and its
    position in the key array (`indMem`). */
module ControlPlane {
  import opened Bits
  import opened PackedArray
  import opened DisjointSets
  import opened Forest
  import opened Adjacency
  import opened Walks
  import opened Connectivity
  import opened KeyGraphs
  import opened Growth
  import opened Wrappers

  predicate Odd(v: nat) {
    Bit(v, 0)
  }

  /** The value bits of all keys of `g` can be read off their end cells. */
  ghost predicate SolvedValues(mem: seq<nat>, g: Graph, values: seq<nat>) {
    forall i :: i in g ==>
      && i < |values| && g[i].a < WORD * |mem| && g[i].b < WORD * |mem|
      && (WordBit(mem, g[i].a) != WordBit(mem, g[i].b)) == Odd(values[i])
  }

  /** So can the indices. */
  ghost predicate SolvedIndex(indMem: seq<nat>, g: Graph) {
    forall i :: i in g ==>
      g[i].a < |indMem| && g[i].b < |indMem| && Xor(indMem[g[i].a], indMem[g[i].b]) == i
  }

  /** `contents` is exactly what `keys` and `values` hold below `cnt`. */
  ghost predicate Holds(keys: seq<Key>, values: seq<nat>, cnt: nat, contents: map<Key, nat>)
    requires cnt <= |keys| == |values|
  {
    && (forall i :: 0 <= i < cnt ==> keys[i] in contents && contents[keys[i]] == values[i])
    && (forall k :: k in contents ==> exists i :: 0 <= i < cnt && keys[i] == k)
  }

  /** Flipping the whole half tree `s` by `x` leaves every edge inside or outside alone. */
  lemma HalfValues(mem: seq<nat>, mem': seq<nat>, g: Graph, values: seq<nat>, i: nat, s: iset<nat>, x: bool)
    requires i in g && SolvedValues(mem, g - {i}, values) && |mem'| == |mem| && i < |values|
    requires g[i].a < WORD * |mem| && g[i].b < WORD * |mem|
    requires Closed(g - {i}, s) && g[i].a in s && g[i].b !in s
    requires forall u :: 0 <= u < WORD * |mem| ==> WordBit(mem', u) == (WordBit(mem, u) != (x && u in s))
    requires (WordBit(mem', g[i].a) != WordBit(mem', g[i].b)) == Odd(values[i])
    ensures SolvedValues(mem', g, values)
  {
    hide WordBit, Odd;
    var k := g - {i};
    forall j | j in g
      ensures j < |values| && g[j].a < WORD * |mem| && g[j].b < WORD * |mem|
           && (WordBit(mem', g[j].a) != WordBit(mem', g[j].b)) == Odd(values[j])
    {
      if j != i {
        assert j in k && (k[j].a in s <==> k[j].b in s);
      }
    }
  }

  lemma HalfIndex(ind: seq<nat>, ind': seq<nat>, g: Graph, i: nat, s: iset<nat>, x: nat)
    requires i in g && SolvedIndex(ind, g - {i}) && |ind'| == |ind|
    requires g[i].a < |ind| && g[i].b < |ind|
    requires Closed(g - {i}, s) && g[i].a in s && g[i].b !in s
    requires forall u :: 0 <= u < |ind| ==> ind'[u] == if u in s then Xor(x, ind[u]) else ind[u]
    requires Xor(ind'[g[i].a], ind'[g[i].b]) == i
    ensures SolvedIndex(ind', g)
  {
    hide Xor;
    var k := g - {i};
    forall j | j in g
      ensures g[j].a < |ind| && g[j].b < |ind| && Xor(ind'[g[j].a], ind'[g[j].b]) == j
    {
      if j != i {
        assert j in k && (k[j].a in s <==> k[j].b in s);
        XorBoth(ind[g[j].a], ind[g[j].b], x);
      }
    }
  }

  /** One cell of the bit array has become `b`, all others are as before. */
  ghost predicate Wrote(mem: seq<nat>, mem': seq<nat>, node: nat, b: bool)
    requires node < WORD * |mem|
  {
    && |mem'| == |mem|
    && mem' == (if b == WordBit(mem, node) then mem else FlipAt(mem, node))
    && forall i :: 0 <= i < WORD * |mem| ==> WordBit(mem', i) == if i == node then b else WordBit(mem, i)
  }

  /** The cells of the nodes in `seen` have been xored with `x`. */
  ghost predicate XoredOver(mem: seq<nat>, mem': seq<nat>, seen: iset<nat>, x: bool) {
    && |mem'| == |mem|
    && forall u :: 0 <= u < WORD * |mem| ==> WordBit(mem', u) == (WordBit(mem, u) != (x && u in seen))
  }

  ghost predicate IndexXored(ind: seq<nat>, ind': seq<nat>, seen: iset<nat>, ix: nat) {
    && |ind'| == |ind|
    && forall u :: 0 <= u < |ind| ==> ind'[u] == if u in seen then Xor(ix, ind[u]) else ind[u]
  }

  /** What a repair does: which arrays it touches and the two xor templates. */
  datatype Job = Job(fillValue: bool, fillIndex: bool, x: nat, ix: nat)

  /** The state a repair started from. */
  datatype Before = Before(mem: seq<nat>, ind: seq<nat>, flips: seq<nat>)

  /** The nodes in `seen` have been repaired, nothing else has changed, and the flips
      recorded since the start account for every change of `mem`. */
  ghost predicate Repairing(job: Job, from: Before, mem: seq<nat>, ind: seq<nat>, flips: seq<nat>, seen: set<nat>) {
    && job.x == (if job.fillValue then Digit(Odd(job.x)) else 0)
    && (if job.fillValue then XoredOver(from.mem, mem, ISet(seen), Odd(job.x)) else mem == from.mem)
    && (if job.fillIndex then IndexXored(from.ind, ind, ISet(seen), job.ix) else ind == from.ind)
    && Patched(from.mem, from.flips, mem, flips)
  }

  /** The xor templates of `job` are the ones edge `keyId` = `e` calls for. */
  ghost predicate Tailored(job: Job, from: Before, keyId: nat, e: Edge, values: seq<nat>) {
    && keyId < |values| && e.a < |from.ind| && e.b < |from.ind|
    && e.a < WORD * |from.mem| && e.b < WORD * |from.mem|
    && (job.fillValue ==>
          Odd(job.x) == (WordBit(from.mem, e.a) != (Odd(values[keyId]) != WordBit(from.mem, e.b))))
    && (job.fillIndex ==> Xor(job.ix, from.ind[e.a]) == Xor(keyId, from.ind[e.b]))
  }

  lemma XorDigits(a: bool, b: bool)
    ensures Xor(Digit(a), Digit(b)) == Digit(a != b)
  {
  }

  lemma XorTemplate(was: nat, now: nat)
    ensures Xor(Xor(was, now), was) == now
  {
    XorComm(was, now);
    XorCancel(now, was);
  }

  /** A finished repair: the edge comes out right and no other edge has changed. */
  lemma RepairSolves(net: Net, keyId: nat, e: Edge, seen: set<nat>, used: set<nat>, job: Job, from: Before,
      mem: seq<nat>, ind: seq<nat>, flips: seq<nat>, values: seq<nat>)
    requires keyId in net.g && net.g[keyId] == e
    requires Between(net, e.a, keyId, seen, used, [])
    requires Repairing(job, from, mem, ind, flips, seen) && Tailored(job, from, keyId, e, values)
    requires job.fillValue ==> SolvedValues(from.mem, net.g - {keyId}, values)
    requires job.fillIndex ==> SolvedIndex(from.ind, net.g - {keyId})
    ensures job.fillValue ==> SolvedValues(mem, net.g, values)
    ensures job.fillIndex ==> SolvedIndex(ind, net.g)
  {
    assert IsForest(net.g);
    hide Between, SolvedValues, SolvedIndex, Patched, Component, IsForest, Xor, WordBit, Odd, Closed;
    var s := ISet(seen);
    Finish(net, e.a, keyId, seen, used);
    HalfTree(net.g, keyId);
    if job.fillValue {
      HalfValues(from.mem, mem, net.g, values, keyId, s, Odd(job.x));
    }
    if job.fillIndex {
      XorCancel(keyId, from.ind[e.b]);
      HalfIndex(from.ind, ind, net.g, keyId, s, job.ix);
    }
  }

  /** The change a root underwent is the template its edge calls for, and the repair has begun. */
  lemma RootFixed(from: Before, mem: seq<nat>, ind: seq<nat>, keyId: nat, e: Edge, values: seq<nat>, job: Job)
    requires keyId < |values| && e.a < |from.ind| && e.b < |from.ind| && e.a != e.b
    requires e.a < WORD * |from.mem| && e.b < WORD * |from.mem| && |mem| == |from.mem|
    requires if job.fillValue then Wrote(from.mem, mem, e.a, Odd(values[keyId]) != WordBit(from.mem, e.b))
             else mem == from.mem
    requires job.x == if job.fillValue then Xor(Digit(WordBit(from.mem, e.a)), Digit(WordBit(mem, e.a))) else 0
    requires ind == if job.fillIndex then from.ind[e.a := Xor(keyId, from.ind[e.b])] else from.ind
    requires job.fillIndex ==> job.ix == Xor(from.ind[e.a], ind[e.a])
    ensures Tailored(job, from, keyId, e, values)
    ensures Repairing(job, from, mem, ind,
                      if WordBit(from.mem, e.a) == WordBit(mem, e.a) then from.flips else from.flips + [e.a], {e.a})
  {
    hide Xor, WordBit, FlipAt, Patched;
    PatchNone(from.mem, from.flips);
    PatchOne(from.mem, from.flips, from.mem, from.flips, e.a);
    XorDigits(WordBit(from.mem, e.a), WordBit(mem, e.a));
    if job.fillIndex { XorTemplate(from.ind[e.a], ind[e.a]); }
  }

  /** Only cells on one side of an edge have changed: nodes connected to its end `root` without it. */
  ghost predicate OneSide(mem: seq<nat>, mem': seq<nat>, g: Graph, root: nat) {
    && |mem'| == |mem|
    && forall u: nat :: u < WORD * |mem| && WordBit(mem', u) != WordBit(mem, u) ==> Linked(g, root, u)
  }

  ghost predicate OneSideIndex(ind: seq<nat>, ind': seq<nat>, g: Graph, root: nat) {
    |ind'| == |ind| && forall u: nat :: u < |ind| && ind'[u] != ind[u] ==> Linked(g, root, u)
  }

  lemma SidesUnchanged(mem: seq<nat>, ind: seq<nat>, g: Graph, root: nat)
    ensures OneSide(mem, mem, g, root) && OneSideIndex(ind, ind, g, root)
  {
  }

  lemma RepairSide(net: Net, keyId: nat, root: nat, seen: set<nat>, used: set<nat>, job: Job, from: Before,
      mem: seq<nat>, ind: seq<nat>, flips: seq<nat>)
    requires Between(net, root, keyId, seen, used, []) && Repairing(job, from, mem, ind, flips, seen)
    ensures OneSide(from.mem, mem, net.g - {keyId}, root) && OneSideIndex(from.ind, ind, net.g - {keyId}, root)
  {
    hide Between, Patched, Linked, WordBit, Xor, Odd;
    Finish(net, root, keyId, seen, used);
    assert forall u: nat :: u in ISet(seen) <==> Linked(net.g - {keyId}, root, u);
  }

  /** No key has this end. */
  ghost predicate Lonely(g: Graph, u: nat) {
    forall i :: i in g ==> !Touches(g[i], u)
  }

  /** The cells of `a` and `b` have been cleared where no key has them for an end any more. */
  ghost predicate Cleared(mem: seq<nat>, mem': seq<nat>, g: Graph, a: nat, b: nat) {
    && |mem'| == |mem|
    && forall u: nat :: u < WORD * |mem| ==>
         WordBit(mem', u) == (WordBit(mem, u) && !((u == a || u == b) && Lonely(g, u)))
  }

  lemma ClearedOne(mem: seq<nat>, mem': seq<nat>, g: Graph, root: nat)
    requires root < WORD * |mem| && Wrote(mem, mem', root, false) && forall i :: i in g ==> !Touches(g[i], root)
    ensures Cleared(mem, mem', g, root, root)
  {
    hide WordBit, FlipAt;
  }

  lemma ClearedNone(mem: seq<nat>, g: Graph, root: nat)
    requires !Lonely(g, root)
    ensures Cleared(mem, mem, g, root, root)
  {
    hide WordBit, Lonely;
  }

  lemma ClearedInTurn(mem0: seq<nat>, mem1: seq<nat>, mem2: seq<nat>, g: Graph, a: nat, b: nat)
    requires Cleared(mem0, mem1, g, a, a) && Cleared(mem1, mem2, g, b, b)
    ensures Cleared(mem0, mem2, g, a, b)
  {
    hide WordBit, Lonely;
  }

  lemma RepairFrames(job: Job, from: Before, mem: seq<nat>, ind: seq<nat>, flips: seq<nat>, seen: set<nat>)
    requires Repairing(job, from, mem, ind, flips, seen)
    ensures !job.fillValue ==> mem == from.mem
    ensures !job.fillIndex ==> ind == from.ind
    ensures Patched(from.mem, from.flips, mem, flips)
  {
  }

  /** The nodes in `seen` have been given the parent `root`. */
  ghost predicate Reparented(mem: seq<int>, mem': seq<int>, seen: set<nat>, root: nat) {
    && |mem'| == |mem| && root < |mem|
    && forall u :: 0 <= u < |mem| ==> mem'[u] == if u in seen then root else mem[u]
  }

  lemma ReparentOne(mem: seq<int>, mem': seq<int>, seen: set<nat>, root: nat, x: nat)
    requires Reparented(mem, mem', seen, root) && x < |mem|
    ensures |mem'| == |mem| && Reparented(mem, mem'[x := root], seen + {x}, root)
  {
  }

  lemma StartReparent(mem: seq<int>, root: nat)
    requires root < |mem|
    ensures Reparented(mem, mem[root := root], {root}, root)
  {
  }

  lemma ReparentedAll(net: Net, root: nat, seen: set<nat>, used: set<nat>, mem: seq<int>, mem': seq<int>)
    requires Between(net, root, NIL, seen, used, []) && NIL !in net.g
    requires Reparented(mem, mem', seen, root)
    ensures Rerooted(mem, mem', net.g, root)
  {
    hide Between;
    Finish(net, root, NIL, seen, used);
    assert net.g - {NIL} == net.g;
    assert forall u: nat :: u in seen <==> u in ISet(seen);
  }

  /** Clearing the cell of a node without keys disturbs no key. */
  lemma ClearIsolated(mem: seq<nat>, mem': seq<nat>, g: Graph, values: seq<nat>, root: nat)
    requires SolvedValues(mem, g, values) && root < WORD * |mem| && Wrote(mem, mem', root, false)
    requires forall i :: i in g ==> !Touches(g[i], root)
    ensures SolvedValues(mem', g, values)
  {
    hide WordBit, Odd, FlipAt;
  }

  lemma AdjacentIds(head: seq<Cell>, nextA: seq<Cell>, nextB: seq<Cell>, chains: seq<seq<nat>>, g: Graph, ma: nat,
      n: nat, i: nat)
    requires Adjacent(head, nextA, nextB, chains, g, ma, n) && i in g
    ensures i < NIL
  {
  }

  lemma RepLinks(rep: seq<nat>, g: Graph, a: nat, b: nat)
    requires Partition(rep, g) && a < |rep| && b < |rep|
    ensures rep[a] == rep[b] <==> Linked(g, a, b)
  {
  }

  /** A new key changes nothing for the keys before it. */
  lemma SolvedPush(mem: seq<nat>, ind: seq<nat>, g: Graph, values: seq<nat>, i: nat, e: Edge, v: nat)
    requires SolvedValues(mem, g, values) && SolvedIndex(ind, g) && i !in g && i < |values|
    ensures SolvedValues(mem, g[i := e] - {i}, values[i := v]) && SolvedIndex(ind, g[i := e] - {i})
  {
  }

  lemma HoldsPush(keys: seq<Key>, values: seq<nat>, cnt: nat, contents: map<Key, nat>, k: Key, v: nat)
    requires cnt < |keys| == |values| && Holds(keys, values, cnt, contents) && k !in contents
    ensures Holds(keys[cnt := k], values[cnt := v], cnt + 1, contents[k := v])
  {
    var keys', values', c' := keys[cnt := k], values[cnt := v], contents[k := v];
    forall x | x in c' ensures exists i :: 0 <= i < cnt + 1 && keys'[i] == x {
      if x == k {
        assert keys'[cnt] == x;
      } else {
        var i :| 0 <= i < cnt && keys[i] == x;
        assert keys'[i] == x;
      }
    }
  }

  /** What the move of the last key leaves to be repaired: its index only. */
  lemma SolvedMove(mem: seq<nat>, ind: seq<nat>, g: Graph, values: seq<nat>, last: nat, id: nat)
    requires SolvedValues(mem, g, values) && SolvedIndex(ind, g) && last in g && id !in g && id < |values|
    ensures last < |values|
    ensures SolvedValues(mem, Rename(g, last, id), values[id := values[last]])
    ensures SolvedIndex(ind, Rename(g, last, id) - {id})
    ensures id in Rename(g, last, id) && Rename(g, last, id)[id] == g[last]
  {
    hide WordBit, Xor, Odd;
  }

  lemma RerootedSize(mem: seq<int>, mem': seq<int>, g: Graph, root: nat)
    requires Rerooted(mem, mem', g, root)
    ensures |mem'| == |mem|
  {
  }

  lemma HoldsErase(keys: seq<Key>, values: seq<nat>, cnt: nat, contents: map<Key, nat>, id: nat)
    requires id < cnt <= |keys| == |values| && Holds(keys, values, cnt, contents)
    requires forall i :: 0 <= i < cnt && i != id ==> keys[i] != keys[id]
    ensures Holds(keys[id := keys[cnt - 1]], values[id := values[cnt - 1]], cnt - 1, contents - {keys[id]})
  {
    var keys', c' := keys[id := keys[cnt - 1]], contents - {keys[id]};
    forall x | x in c' ensures exists i :: 0 <= i < cnt - 1 && keys'[i] == x {
      var i :| 0 <= i < cnt && keys[i] == x;
      assert keys'[if i == cnt - 1 then id else i] == x;
    }
  }

  lemma SolvedMinus(mem: seq<nat>, ind: seq<nat>, g: Graph, values: seq<nat>, i: nat)
    requires SolvedValues(mem, g, values) && SolvedIndex(ind, g)
    ensures SolvedValues(mem, g - {i}, values) && SolvedIndex(ind, g - {i})
  {
  }

  /** Edge `i` = `e` gives its value and its index. */
  ghost predicate SolvedAt(mem: seq<nat>, ind: seq<nat>, e: Edge, values: seq<nat>, i: nat) {
    && i < |values| && e.a < |ind| && e.b < |ind| && e.a < WORD * |mem| && e.b < WORD * |mem|
    && (WordBit(mem, e.a) != WordBit(mem, e.b)) == Odd(values[i])
    && Xor(ind[e.a], ind[e.b]) == i
  }

  /** The keys in `used` are solved; the root and the nodes outside `seen` are as in `from`. */
  ghost predicate Filling(g: Graph, values: seq<nat>, root: nat, from: Before, mem: seq<nat>, ind: seq<nat>,
      seen: set<nat>, used: set<nat>) {
    && |mem| == |from.mem| && |ind| == |from.ind| && root in seen
    && (forall u :: 0 <= u < WORD * |mem| && (u !in seen || u == root) ==> WordBit(mem, u) == WordBit(from.mem, u))
    && (forall u :: 0 <= u < |ind| && (u !in seen || u == root) ==> ind[u] == from.ind[u])
    && (forall i :: i in used ==> i in g && SolvedAt(mem, ind, g[i], values, i))
  }

  lemma StartFilling(g: Graph, values: seq<nat>, mem: seq<nat>, ind: seq<nat>, root: nat)
    ensures Filling(g, values, root, Before(mem, ind, []), mem, ind, {root}, {})
  {
  }

  /** Filling a new node `far` over edge `i` from `near` keeps the earlier keys solved. */
  lemma FillOne(g: Graph, values: seq<nat>, root: nat, from: Before, mem: seq<nat>, ind: seq<nat>, mem': seq<nat>,
                ind': seq<nat>, seen: set<nat>, used: set<nat>, i: nat, near: nat, far: nat)
    requires Filling(g, values, root, from, mem, ind, seen, used) && far !in seen && near in seen
    requires UsedWithin(g, seen, used)
    requires i in g && Touches(g[i], near) && far == Far(g[i], near) && i < |values|
    requires near < |ind| && far < |ind| && near < WORD * |mem| && far < WORD * |mem|
    requires Wrote(mem, mem', far, Odd(values[i]) != WordBit(mem, near))
    requires ind' == ind[far := Xor(i, ind[near])]
    ensures Filling(g, values, root, from, mem', ind', seen + {far}, used + {i})
  {
    hide WordBit, Odd, Xor, FlipAt;
    XorCancel(i, ind[near]);
    XorComm(ind'[near], ind'[far]);
    forall j | j in used + {i} ensures j in g && SolvedAt(mem', ind', g[j], values, j) {
      if j in used { assert SolvedAt(mem, ind, g[j], values, j); }
    }
  }

  /** The keys of the tree of `root` are solved, and solved keys elsewhere stay so. */
  ghost predicate TreeSolved(mem: seq<nat>, ind: seq<nat>, mem': seq<nat>, ind': seq<nat>, g: Graph, values: seq<nat>,
      root: nat) {
    forall i :: i in g && (Linked(g, root, g[i].a) || SolvedAt(mem, ind, g[i], values, i)) ==>
        SolvedAt(mem', ind', g[i], values, i)
  }

  /** Nothing but the other nodes of the tree of `root` has changed. */
  ghost predicate TreeOnly(mem: seq<nat>, ind: seq<nat>, mem': seq<nat>, ind': seq<nat>, g: Graph, root: nat) {
    && |mem'| == |mem| && |ind'| == |ind|
    && (forall u: nat :: u < WORD * |mem| && WordBit(mem', u) != WordBit(mem, u) ==> u != root && Linked(g, root, u))
    && (forall u: nat :: u < |ind| && ind'[u] != ind[u] ==> u != root && Linked(g, root, u))
  }

  lemma FillTree(net: Net, root: nat, seen: set<nat>, used: set<nat>, values: seq<nat>, from: Before, mem: seq<nat>,
      ind: seq<nat>)
    requires Between(net, root, NIL, seen, used, []) && NIL !in net.g
    requires Filling(net.g, values, root, from, mem, ind, seen, used)
    ensures TreeOnly(from.mem, from.ind, mem, ind, net.g, root)
  {
    hide Between, WordBit, Linked, SolvedAt;
    Finish(net, root, NIL, seen, used);
    assert net.g - {NIL} == net.g;
    assert forall u: nat :: u in ISet(seen) <==> Linked(net.g, root, u);
  }

  /** The cells of roots and of nodes without keys are 0: with the values of the keys, this leaves
      no cell open. */
  ghost predicate ZeroRoots(mem: seq<nat>, uf: seq<int>, g: Graph) {
    forall u: nat :: u < |uf| && u < WORD * |mem| && (uf[u] == u || Lonely(g, u)) ==> !WordBit(mem, u)
  }

  /** A fill from the root `r` leaves the other roots alone. */
  lemma ZeroStays(mem: seq<nat>, ind: seq<nat>, mem': seq<nat>, ind': seq<nat>, uf: seq<int>, rep: seq<nat>, g: Graph,
      r: nat)
    requires ZeroRoots(mem, uf, g) && TreeOnly(mem, ind, mem', ind', g, r) && Partition(rep, g)
    requires |uf| == |rep| && r < |rep| && rep[r] == r && forall x :: 0 <= x < |rep| && uf[x] == x ==> rep[x] == x
    ensures ZeroRoots(mem', uf, g)
  {
    hide WordBit, Linked, Lonely;
    forall u: nat | u < |uf| && u < WORD * |mem| && (uf[u] == u || Lonely(g, u)) ensures !WordBit(mem', u) {
      RepLinks(rep, g, r, u);
      if Lonely(g, u) && Linked(g, r, u) { LonelyLinks(g, r, u); }
    }
  }

  lemma LonelyLinks(g: Graph, u: nat, v: nat)
    requires Lonely(g, v) && Linked(g, u, v)
    ensures u == v
  {
    LinkedSym(g, u, v);
    assert Closed(g, iset{v});
  }

  /** A finished fill: every key of the component of the root is solved. */
  lemma FillSolves(net: Net, root: nat, seen: set<nat>, used: set<nat>, values: seq<nat>, from: Before, mem: seq<nat>,
      ind: seq<nat>)
    requires Between(net, root, NIL, seen, used, []) && NIL !in net.g
    requires Filling(net.g, values, root, from, mem, ind, seen, used)
    ensures TreeSolved(from.mem, from.ind, mem, ind, net.g, values, root)
  {
    hide Between, WordBit, Odd, Xor;
    Finish(net, root, NIL, seen, used);
    assert net.g - {NIL} == net.g;
    assert forall u: nat :: u in seen <==> u in ISet(seen);
    forall i | i in net.g && !Linked(net.g, root, net.g[i].a) && SolvedAt(from.mem, from.ind, net.g[i], values, i)
      ensures SolvedAt(mem, ind, net.g[i], values, i)
    {
      hide Linked;
      assert net.g[i].a !in seen;
      assert net.g[i].b !in seen;
    }
  }

  lemma SolvedAll(mem: seq<nat>, ind: seq<nat>, g: Graph, values: seq<nat>)
    requires forall i :: i in g ==> SolvedAt(mem, ind, g[i], values, i)
    ensures SolvedValues(mem, g, values) && SolvedIndex(ind, g)
  {
    hide WordBit, Odd, Xor;
    forall i | i in g ensures SolvedAt(mem, ind, g[i], values, i) {}
  }

  /** The keys of the trees whose root lies below `bound` are solved. */
  ghost predicate SolvedBelow(mem: seq<nat>, ind: seq<nat>, g: Graph, values: seq<nat>, rep: seq<nat>, bound: nat) {
    forall i :: i in g && g[i].a < |rep| && rep[g[i].a] < bound ==> SolvedAt(mem, ind, g[i], values, i)
  }

  lemma SolvedNext(mem: seq<nat>, ind: seq<nat>, mem': seq<nat>, ind': seq<nat>, g: Graph, values: seq<nat>,
      rep: seq<nat>, r: nat)
    requires SolvedBelow(mem, ind, g, values, rep, r) && Partition(rep, g) && r < |rep| && rep[r] == r
    requires TreeSolved(mem, ind, mem', ind', g, values, r)
    ensures SolvedBelow(mem', ind', g, values, rep, r + 1)
  {
    hide SolvedAt, Linked;
    forall i | i in g && g[i].a < |rep| && rep[g[i].a] < r + 1 ensures SolvedAt(mem', ind', g[i], values, i) {
      RepLinks(rep, g, r, g[i].a);
    }
  }

  /** A node that no tree is rooted at adds no keys. */
  lemma SolvedSkip(mem: seq<nat>, ind: seq<nat>, g: Graph, values: seq<nat>, ufMem: seq<int>, rep: seq<nat>, ma: nat,
      r: nat)
    requires SolvedBelow(mem, ind, g, values, rep, r) && |ufMem| == |rep| && r < |rep|
    requires RootsInA(ufMem, rep, g, ma) && ufMem[r] != r
    ensures SolvedBelow(mem, ind, g, values, rep, r + 1)
  {
    hide SolvedAt;
  }

  lemma StartSolved(mem: seq<nat>, ind: seq<nat>, g: Graph, values: seq<nat>, rep: seq<nat>)
    ensures SolvedBelow(mem, ind, g, values, rep, 0)
  {
  }

  /** The assertion `root < ma` of `fillTreeDFS`. */
  lemma RootIsA(ufMem: seq<int>, rep: seq<nat>, g: Graph, ma: nat, r: nat)
    requires |ufMem| == |rep| && RootsInA(ufMem, rep, g, ma) && r < |rep| && ufMem[r] == r
    ensures r < ma
  {
  }

  lemma AllBelow(mem: seq<nat>, ind: seq<nat>, g: Graph, values: seq<nat>, ufMem: seq<int>, rep: seq<nat>, ma: nat)
    requires |ufMem| == |rep| && RootsInA(ufMem, rep, g, ma) && SolvedBelow(mem, ind, g, values, rep, |rep|)
    ensures SolvedValues(mem, g, values) && SolvedIndex(ind, g)
  {
    hide SolvedAt, SolvedValues, SolvedIndex;
    SolvedAll(mem, ind, g, values);
  }

  /** Capacities up to this bound keep all 32-bit size arithmetic from wrapping. */
  const SIZE_LIMIT: nat := 0x1000_0000

  /** The factor between the sizes of the arrays B and A is sensible. */
  ghost predicate Scales(scaleMa: nat -> nat) {
    forall m: nat :: 0 < m <= 4 * SIZE_LIMIT ==> 0 < scaleMa(m) && scaleMa(m) + m + WORD - 1 < WRAP32
  }

  lemma ScaledSizes(scaleMa: nat -> nat, m: nat)
    requires Scales(scaleMa) && 0 < m <= 4 * SIZE_LIMIT
    ensures 0 < scaleMa(m) && scaleMa(m) + m + WORD - 1 < WRAP32
  {
  }

  /** `vector::resize`. */
  function Resized<T>(s: seq<T>, n: nat, d: T): (r: seq<T>)
    ensures |r| == n && (|s| <= n ==> s <= r)
  {
    if n <= |s| then s[..n] else s + seq(n - |s|, i => d)
  }

  lemma HeldKeys(keys: seq<Key>, values: seq<nat>, cnt: nat, contents: map<Key, nat>)
    requires cnt <= |keys| == |values| && Holds(keys, values, cnt, contents)
    ensures contents.Keys == KeySet(keys, cnt)
  {
    forall k | k in contents ensures k in KeySet(keys, cnt) {
      var i :| 0 <= i < cnt && keys[i] == k;
    }
  }

  lemma HoldsGrow(keys: seq<Key>, values: seq<nat>, keys': seq<Key>, values': seq<nat>, cnt: nat,
      contents: map<Key, nat>)
    requires cnt <= |keys| == |values| && |keys'| == |values'| && keys <= keys' && values <= values'
    requires Holds(keys, values, cnt, contents)
    ensures Holds(keys', values', cnt, contents)
  {
    forall k | k in contents ensures exists i :: 0 <= i < cnt && keys'[i] == k {
      var i :| 0 <= i < cnt && keys[i] == k;
      assert keys'[i] == k;
    }
  }

  lemma SolvedGrow(mem: seq<nat>, g: Graph, values: seq<nat>, values': seq<nat>)
    requires SolvedValues(mem, g, values) && values <= values'
    ensures SolvedValues(mem, g, values')
  {
  }

  lemma WordsResized(mem: seq<nat>, n: nat)
    requires Words(mem)
    ensures Words(Resized(mem, n, 0))
  {
  }

  class ControlPlaneOthello {
    const hash: (uint64, Key) -> uint64
    /** The seed made from the numbers at a position of the program's random generator. */
    const draw: nat -> uint64
    /** The size of array A for a size of array B: a float factor in the source. */
    const scaleMa: nat -> nat
    const minimalKeyCapacity: nat
    const connectivityForest: DisjointSet
    /** The position in the stream of random numbers. */
    var drawn: nat
    var seed: uint64
    var ma: nat
    var mb: nat
    var mem: seq<nat>
    var indMem: seq<nat>
    var keys: seq<Key>
    var values: seq<nat>
    var keyCnt: nat
    var head: seq<Cell>
    var nextAtA: seq<Cell>
    var nextAtB: seq<Cell>
    ghost var chains: seq<seq<nat>>
    ghost var contents: map<Key, nat>

    /** An empty structure for `minimal` keys before it has to grow.  The initial hash functions
        take three random numbers from position `start` on. */
    constructor (hash: (uint64, Key) -> uint64, draw: nat -> uint64, scaleMa: nat -> nat, minimal: nat, start: nat)
      requires Scales(scaleMa) && 0 < minimal <= SIZE_LIMIT
      ensures Valid() && contents == map[] && keyCnt == 0
      ensures fresh(connectivityForest)
      ensures this.hash == hash && this.draw == draw && this.scaleMa == scaleMa && minimalKeyCapacity == minimal
      ensures LayoutNow() == NewLayout(GrowthRules(), start)
      ensures ma == scaleMa(minimal) && mb == minimal && |keys| == if minimal <= 128 then 256 else 2 * minimal
      ensures seed == draw(start + 5) && drawn == start + 7
    {
      this.hash, this.draw, this.scaleMa, this.minimalKeyCapacity := hash, draw, scaleMa, minimal;
      connectivityForest := new DisjointSet();
      drawn, seed, ma, mb, keyCnt, contents := start + 3, 0, 0, 0, 0, map[];
      mem, indMem, keys, values, head, nextAtA, nextAtB, chains := [], [], [], [], [], [], [], [];
      new;
      Initialize();
    }

    /** The calls of the constructor body. */
    method Initialize()
      requires Scales(scaleMa) && 0 < minimalKeyCapacity <= SIZE_LIMIT
      requires ma == 0 && keyCnt == 0 && mem == [] && contents == map[]
      requires keys == [] && values == [] && nextAtA == [] && nextAtB == []
      modifies this, connectivityForest
      ensures Valid() && contents == map[] && keyCnt == 0
      ensures drawn == old(drawn) + 4 && seed == draw(old(drawn) + 2)
      ensures |keys| == Roomy(minimalKeyCapacity) && ma == scaleMa(minimalKeyCapacity) && mb == minimalKeyCapacity
    {
      hide ControlPlaneOthello.Valid, Adjacent, Partition, Represents, Words, RootsInA, IsForest, WordBit;
      hide Enlarged, Attempt, ZeroRoots;
      assert contents.Keys == {};
      EmptyEnlarged(GrowthRules(), LayoutNow());
      var ok := ResizeKey(0, true);
      BuildEmpty();
    }

    /** The calls that follow `resizeKey`. */
    method BuildEmpty()
      requires Valid() && keyCnt == 0
      modifies this`seed, this`drawn, this`mem, this`indMem, this`head, this`nextAtA, this`nextAtB, this`chains
      modifies connectivityForest
      ensures Valid() && drawn == old(drawn) + 2 && seed == draw(old(drawn))
    {
      hide ControlPlaneOthello.Valid, Adjacent, Partition, Represents, Words, RootsInA, IsForest, WordBit;
      hide Attempt, ZeroRoots;
      ValidIsStore();
      ResetBuildState();
      EmptyIsForest();
      ghost var from := drawn;
      var ok;
      ghost var last;
      ok, last := Build();
      assert Attempt(from, 0) && last == 0;
    }

    /** What decides which keys the structure takes. */
    ghost function GrowthRules(): Rules {
      Rules(hash, draw, scaleMa, minimalKeyCapacity)
    }

    ghost function LayoutNow(): Layout
      reads this`keys, this`keyCnt, this`ma, this`mb, this`seed, this`drawn
    {
      Layout(|keys|, keyCnt, ma, mb, seed, drawn)
    }

    function Ends(k: Key): Edge
      reads this`seed, this`ma, this`mb
    {
      Indices(hash(seed, k), ma, mb)
    }

    /** The edges of the live keys. */
    ghost function G(): Graph
      reads this`seed, this`ma, this`mb, this`keys, this`keyCnt
    {
      EdgeMap(hash, seed, ma, mb, keys, keyCnt)
    }

    /** These keys form a forest under the current seed and sizes. */
    ghost predicate Fits(ks: set<Key>)
      reads this`seed, this`ma, this`mb
    {
      KeysFit(hash, seed, ma, mb, ks)
    }

    ghost function N(): Net
      reads this`head, this`nextAtA, this`nextAtB, this`chains, this`seed, this`ma, this`mb, this`keys, this`keyCnt
    {
      Net(head, nextAtA, nextAtB, chains, G(), ma, ma + mb)
    }

    /** Sizes agree and 32-bit arithmetic on cell numbers does not wrap. */
    ghost predicate Shape()
      reads this`ma, this`mb, this`mem, this`indMem, this`head, this`chains
      reads this`keyCnt, this`keys, this`values, this`nextAtA, this`nextAtB
    {
      && ma > 0 && mb > 0 && ma + mb + WORD - 1 < WRAP32
      && |mem| == WordsFor(1, ma + mb) && Words(mem)
      && |indMem| == |head| == |chains| == ma + mb
      && keyCnt <= |keys| == |values| == |nextAtA| == |nextAtB| <= NIL
    }

    ghost predicate ListsExact()
      reads this`head, this`nextAtA, this`nextAtB, this`chains, this`seed, this`ma, this`mb, this`keys, this`keyCnt
    {
      Adjacent(head, nextAtA, nextAtB, chains, G(), ma, ma + mb)
    }

    function MemGetAt(index: nat): (v: nat)
      requires Shape() && index < ma + mb
      reads this
      ensures v == Digit(WordBit(mem, index))
    {
      BitGet(mem, index)
    }

    /** Sets `nodeToFill` so that it and `oppositeNode` give the value and index of `keyId`. */
    method FillSingle(keyId: nat, nodeToFill: nat, oppositeNode: nat, fillValue: bool, fillIndex: bool)
      requires Shape() && keyId < |values| && nodeToFill < ma + mb && oppositeNode < ma + mb
      modifies this`mem, this`indMem
      ensures Shape()
      ensures !fillValue ==> mem == old(mem)
      ensures fillValue ==> Wrote(old(mem), mem, nodeToFill, Odd(values[keyId]) != WordBit(old(mem), oppositeNode))
      ensures indMem == if fillIndex then old(indMem)[nodeToFill := Xor(keyId, old(indMem)[oppositeNode])]
          else old(indMem)
    {
      hide Xor, MemSet, MemGet, WordBit, FlipAt;
      if fillValue {
        XorCell(mem, values[keyId], oppositeNode);
        var valueToFill := Xor(values[keyId], MemGet(mem, 1, oppositeNode));
        CellWrite(mem, nodeToFill, valueToFill);
        mem := MemSet(mem, 1, nodeToFill, valueToFill);
      }
      if fillIndex {
        indMem := indMem[nodeToFill := Xor(keyId, indMem[oppositeNode])];
      }
    }

    /** Xors the value of a node with `x` and its index with `ix`. */
    method FixSingle(nodeToFix: nat, x: nat, ix: nat, fillValue: bool, fillIndex: bool)
      requires Shape() && nodeToFix < ma + mb
      modifies this`mem, this`indMem
      ensures Shape()
      ensures !fillValue ==> mem == old(mem)
      ensures fillValue ==> Wrote(old(mem), mem, nodeToFix, Odd(x) != WordBit(old(mem), nodeToFix))
      ensures indMem == if fillIndex then old(indMem)[nodeToFix := Xor(ix, old(indMem)[nodeToFix])] else old(indMem)
    {
      hide Xor, MemSet, MemGet, WordBit, FlipAt;
      if fillValue {
        XorCell(mem, x, nodeToFix);
        var valueToFill := Xor(x, MemGet(mem, 1, nodeToFix));
        CellWrite(mem, nodeToFix, valueToFill);
        mem := MemSet(mem, 1, nodeToFix, valueToFill);
      }
      if fillIndex {
        indMem := indMem[nodeToFix := Xor(ix, indMem[nodeToFix])];
      }
    }

    /** `fixSingle` on a node just met, with its flip recorded. */
    method FixMet(nextNode: nat, job: Job, ghost from: Before, ghost seen: set<nat>, flips: seq<nat>)
        returns (flips': seq<nat>)
      requires Shape() && nextNode < ma + mb && nextNode !in seen
      requires Repairing(job, from, mem, indMem, flips, seen)
      modifies this`mem, this`indMem
      ensures Shape()
      ensures Repairing(job, from, mem, indMem, flips', seen + {nextNode})
    {
      hide Xor, MemSet, MemGet, WordBit, FlipAt, Patched;
      FixSingle(nextNode, job.x, job.ix, job.fillValue, job.fillIndex);
      flips' := flips;
      if job.x != 0 {
        PatchOne(from.mem, from.flips, old(mem), flips, nextNode);
        flips' := flips' + [nextNode];
      }
    }

    lemma ShapeSizes()
      requires Shape()
      ensures |head| == |chains| == ma + mb && |nextAtA| == |nextAtB| == |values|
    {
    }

    /** What the ghost snapshot `net` stands for. */
    lemma NetFields(net: Net, u: nat)
      requires |head| == |chains| == ma + mb && u < |net.head| && net == N()
      ensures u < |head| && head[u] == net.head[u] && u < |net.chains|
      ensures ma == net.ma && nextAtA == net.nextA && nextAtB == net.nextB && ma + mb == net.n
    {
    }

    /** The list loop of the repair: every neighbour but the one `it` came by is fixed
        and put on the stack. */
    method FixList(it: Item, stack: seq<Item>, job: Job, flips: seq<nat>,
                   ghost net: Net, ghost root: nat, ghost skip: nat, ghost from: Before, ghost seen: set<nat>,
                       ghost used: set<nat>)
      returns (stack': seq<Item>, flips': seq<nat>, ghost seen': set<nat>, ghost used': set<nat>)
      requires Shape() && net == N() && it.node < |net.head|
      requires At(net, root, skip, seen, used, stack, it, 0, net.head[it.node])
      requires Repairing(job, from, mem, indMem, flips, seen)
      modifies this`mem, this`indMem
      ensures Shape()
      ensures Between(net, root, skip, seen', used', stack')
      ensures Repairing(job, from, mem, indMem, flips', seen')
      ensures Unseen(net.n, seen') < Unseen(net.n, seen)
          || (Unseen(net.n, seen') == Unseen(net.n, seen) && stack' == stack)
    {
      hide *;
      ShapeSizes();
      NetFields(net, it.node);
      var nextKeyOfThisKey := if it.node < ma then nextAtA else nextAtB;
      var cell := head[it.node];
      stack', flips', seen', used' := stack, flips, seen, used;
      ghost var j := 0;
      while cell.keyId != NIL
        invariant Shape() && At(net, root, skip, seen', used', stack', it, j, cell)
        invariant Unseen(net.n, seen') < Unseen(net.n, seen)
            || (Unseen(net.n, seen') == Unseen(net.n, seen) && stack' == stack)
        invariant Repairing(job, from, mem, indMem, flips', seen')
        decreases |net.chains[it.node]| - j
      {
        Step(net, root, skip, seen', used', stack', it, j, cell);
        if cell.keyId != it.prev {
          flips' := FixMet(cell.nodeId, job, from, seen', flips');
          stack' := stack' + [Item(cell.keyId, cell.nodeId)];
          seen', used' := seen' + {cell.nodeId}, used' + {cell.keyId};
        }
        cell := nextKeyOfThisKey[cell.keyId];
        j := j + 1;
      }
      Step(net, root, skip, seen', used', stack', it, j, cell);
    }

    /** The search part of the repair: every node met beyond the root is fixed once. */
    method FixReached(keyId: nat, root: nat, job: Job, flips: seq<nat>, ghost net: Net, ghost from: Before)
      returns (flips': seq<nat>, ghost seen: set<nat>, ghost used: set<nat>)
      requires Shape() && net == N()
      requires Between(net, root, keyId, {root}, {}, [Item(keyId, root)])
      requires Repairing(job, from, mem, indMem, flips, {root})
      modifies this`mem, this`indMem
      ensures Shape()
      ensures Between(net, root, keyId, seen, used, [])
      ensures Repairing(job, from, mem, indMem, flips', seen)
    {
      hide *;
      flips' := flips;
      var stack := [Item(keyId, root)];
      seen, used := {root}, {};
      while stack != []
        invariant Shape() && Between(net, root, keyId, seen, used, stack)
        invariant Repairing(job, from, mem, indMem, flips', seen)
        decreases Unseen(net.n, seen), |stack|
      {
        var it := stack[|stack| - 1];
        Pop(net, root, keyId, seen, used, stack);
        stack, flips', seen, used := FixList(it, stack[..|stack| - 1], job, flips', net, root, keyId, from, seen, used);
      }
    }

    lemma NodeSizes(u: nat)
      requires Shape() && u < ma + mb
      ensures u < |indMem| && u < WORD * |mem| && |mem| == WordsFor(1, ma + mb)
    {
      hide Words;
    }

    /** The start of the repair: the root is filled from `hb`, and the change it underwent
        becomes the xor template. */
    method FixRoot(keyId: nat, root: nat, hb: nat, fillValue: bool, fillIndex: bool, flips: seq<nat>)
      returns (job: Job, flips': seq<nat>)
      requires Shape() && keyId < |values| && root < ma + mb && hb < ma + mb && root != hb
      modifies this`mem, this`indMem
      ensures Shape()
      ensures job.fillValue == fillValue && job.fillIndex == fillIndex
      ensures Tailored(job, Before(old(mem), old(indMem), flips), keyId, Edge(root, hb), values)
      ensures Repairing(job, Before(old(mem), old(indMem), flips), mem, indMem, flips', {root})
    {
      hide Xor, MemSet, WordBit, FlipAt, Patched, Tailored, Repairing, Wrote, ControlPlaneOthello.Shape;
      NodeSizes(root);
      NodeSizes(hb);
      ghost var from := Before(mem, indMem, flips);
      var pre, was, x, ix := MemGetAt(root), indMem[root], 0, 0;
      FillSingle(keyId, root, hb, fillValue, fillIndex);
      NodeSizes(root);
      var post := MemGetAt(root);
      flips' := flips;
      if pre != post {
        flips' := flips + [root];
      }
      if fillValue {
        x := Xor(pre, post);
      }
      if fillIndex {
        ix := Xor(was, indMem[root]);
      }
      job := Job(fillValue, fillIndex, x, ix);
      RootFixed(from, mem, indMem, keyId, Edge(root, hb), values, job);
    }

    lemma BeginRepair(keyId: nat, root: nat, hb: nat)
      requires Shape() && ListsExact() && IsForest(G())
      requires keyId in G() && G()[keyId] == Edge(root, hb)
      ensures keyId < |values| && root < ma + mb && hb < ma + mb && root != hb
      ensures N().g == G() && Between(N(), root, keyId, {root}, {}, [Item(keyId, root)])
    {
      hide Between, IsForest, Words;
      Begin(N(), root, keyId);
    }

    /** Repair of one half tree after the edge `keyId` = (`root`, `hb`) got a new value
        or index: the half at `root` is xored so that the edge comes out right. */
    method FixHalfTreeOnDemand(keyId: nat, root: nat, hb: nat, fillValue: bool, fillIndex: bool, flips: seq<nat>)
      returns (flips': seq<nat>)
      requires Shape() && ListsExact() && IsForest(G())
      requires keyId in G() && G()[keyId] == Edge(root, hb)
      requires fillValue ==> SolvedValues(mem, G() - {keyId}, values)
      requires fillIndex ==> SolvedIndex(indMem, G() - {keyId})
      modifies this`mem, this`indMem
      ensures Shape()
      ensures fillValue ==> SolvedValues(mem, G(), values)
      ensures !fillValue ==> mem == old(mem)
      ensures fillIndex ==> SolvedIndex(indMem, G())
      ensures !fillIndex ==> indMem == old(indMem)
      ensures Patched(old(mem), flips, mem, flips')
      ensures OneSide(old(mem), mem, G() - {keyId}, root) && OneSideIndex(old(indMem), indMem, G() - {keyId}, root)
    {
      hide *;
      ghost var from := Before(mem, indMem, flips);
      ghost var net := N();
      BeginRepair(keyId, root, hb);
      var job, flips1 := FixRoot(keyId, root, hb, fillValue, fillIndex, flips);
      ghost var seen, used;
      flips', seen, used := FixReached(keyId, root, job, flips1, net, from);
      RepairSolves(net, keyId, Edge(root, hb), seen, used, job, from, mem, indMem, flips', values);
      RepairFrames(job, from, mem, indMem, flips', seen);
      RepairSide(net, keyId, root, seen, used, job, from, mem, indMem, flips');
    }

    /** The list loop of `connectBFS`. */
    method ConnectList(it: Item, stack: seq<Item>, root: nat,
                       ghost net: Net, ghost mem0: seq<int>, ghost seen: set<nat>, ghost used: set<nat>)
      returns (stack': seq<Item>, ghost seen': set<nat>, ghost used': set<nat>)
      requires |head| == |chains| == ma + mb && net == N() && it.node < |net.head| && |connectivityForest.mem| == net.n
      requires At(net, root, NIL, seen, used, stack, it, 0, net.head[it.node])
      requires |mem0| == net.n && Reparented(mem0, connectivityForest.mem, seen, root)
      modifies connectivityForest`mem
      ensures |connectivityForest.mem| == net.n
      ensures Between(net, root, NIL, seen', used', stack')
      ensures Reparented(mem0, connectivityForest.mem, seen', root)
      ensures Unseen(net.n, seen') < Unseen(net.n, seen)
          || (Unseen(net.n, seen') == Unseen(net.n, seen) && stack' == stack)
    {
      hide *;
      NetFields(net, it.node);
      var nextKeyOfThisKey := if it.node < ma then nextAtA else nextAtB;
      var cell := head[it.node];
      stack', seen', used' := stack, seen, used;
      ghost var j := 0;
      while cell.keyId != NIL
        invariant |connectivityForest.mem| == net.n
        invariant At(net, root, NIL, seen', used', stack', it, j, cell)
        invariant Unseen(net.n, seen') < Unseen(net.n, seen)
            || (Unseen(net.n, seen') == Unseen(net.n, seen) && stack' == stack)
        invariant Reparented(mem0, connectivityForest.mem, seen', root)
        decreases |net.chains[it.node]| - j
      {
        Step(net, root, NIL, seen', used', stack', it, j, cell);
        if cell.keyId != it.prev {
          ReparentOne(mem0, connectivityForest.mem, seen', root, cell.nodeId);
          connectivityForest.Set(cell.nodeId, root);
          stack' := stack' + [Item(cell.keyId, cell.nodeId)];
          seen', used' := seen' + {cell.nodeId}, used' + {cell.keyId};
        }
        cell := nextKeyOfThisKey[cell.keyId];
        j := j + 1;
      }
      Step(net, root, NIL, seen', used', stack', it, j, cell);
    }

    /** The search of `connectBFS`. */
    method ConnectReached(root: nat, ghost net: Net, ghost mem0: seq<int>)
      requires |head| == |chains| == ma + mb && net == N() && |connectivityForest.mem| == net.n && NIL !in net.g
      requires Between(net, root, NIL, {root}, {}, [Item(NIL, root)])
      requires |mem0| == net.n && Reparented(mem0, connectivityForest.mem, {root}, root)
      modifies connectivityForest`mem
      ensures Rerooted(mem0, connectivityForest.mem, net.g, root)
    {
      hide *;
      var stack := [Item(NIL, root)];
      ghost var seen, used: set<nat> := {root}, {};
      while stack != []
        invariant |connectivityForest.mem| == net.n
        invariant Between(net, root, NIL, seen, used, stack)
        invariant Reparented(mem0, connectivityForest.mem, seen, root)
        decreases Unseen(net.n, seen), |stack|
      {
        var it := stack[|stack| - 1];
        Pop(net, root, NIL, seen, used, stack);
        stack, seen, used := ConnectList(it, stack[..|stack| - 1], root, net, mem0, seen, used);
      }
      ReparentedAll(net, root, seen, used, mem0, connectivityForest.mem);
    }

    /** A node without keys is a component of its own, and no edge touches it. */
    lemma Isolated(root: nat)
      requires Shape() && ListsExact() && root < ma + mb && head[root].keyId == NIL
      ensures forall i :: i in G() ==> !Touches(G()[i], root)
      ensures forall u :: Linked(G(), root, u) <==> u == root
    {
      FirstCell(head, nextAtA, nextAtB, chains, G(), ma, ma + mb, root);
      NextCell(head, nextAtA, nextAtB, chains, G(), ma, ma + mb, root, 0, head[root]);
      hide Adjacent, Words;
      assert Closed(G(), iset{root});
    }

    lemma NotLonely(root: nat)
      requires Shape() && ListsExact() && root < ma + mb && head[root].keyId != NIL
      ensures !Lonely(G(), root)
    {
      FirstCell(head, nextAtA, nextAtB, chains, G(), ma, ma + mb, root);
      NextCell(head, nextAtA, nextAtB, chains, G(), ma, ma + mb, root, 0, head[root]);
      hide Adjacent, Words;
      assert chains[root][0] in chains[root];
    }

    lemma BeginConnect(root: nat)
      requires Shape() && ListsExact() && IsForest(G()) && root < ma + mb
      ensures NIL !in N().g && N().n == ma + mb && N().g == G()
      ensures Between(N(), root, NIL, {root}, {}, [Item(NIL, root)])
    {
      hide IsForest, Between, Words;
      Begin(N(), root, NIL);
    }

    /** Clears the cell of a node that has lost its last key. */
    method ClearCell(root: nat, flips: seq<nat>) returns (flips': seq<nat>)
      requires Shape() && root < ma + mb
      modifies this`mem
      ensures Shape() && Wrote(old(mem), mem, root, false)
      ensures Patched(old(mem), flips, mem, flips')
    {
      hide Xor, And, MemSet, MemGet, WordBit, FlipAt, Patched;
      var pre := MemGetAt(root);
      var cleared := And(pre, ShlW(TWO64 - 1, 1));
      BitAnd(pre, ShlW(TWO64 - 1, 1), 0);
      BitShlW(TWO64 - 1, 1, 0);
      CellWrite(mem, root, cleared);
      mem := MemSet(mem, 1, root, cleared);
      var post := MemGetAt(root);
      PatchNone(old(mem), flips);
      flips' := flips;
      if pre != post {
        PatchOne(old(mem), flips, old(mem), flips, root);
        flips' := flips + [root];
      }
    }

    /** Makes `root` the representative of its whole component. */
    method ConnectBFSOnDemand(root: nat, flips: seq<nat>) returns (flips': seq<nat>)
      requires Shape() && ListsExact() && IsForest(G()) && root < ma + mb
      requires |connectivityForest.mem| == ma + mb && SolvedValues(mem, G(), values)
      modifies this`mem, connectivityForest`mem
      ensures Shape() && SolvedValues(mem, G(), values)
      ensures Rerooted(old(connectivityForest.mem), connectivityForest.mem, G(), root)
      ensures Patched(old(mem), flips, mem, flips')
      ensures Cleared(old(mem), mem, G(), root, root)
    {
      hide Adjacent, IsForest, Linked, Between, Reparented, SolvedValues, Patched, Wrote, Words, Cleared, Lonely;
      BeginConnect(root);
      StartReparent(connectivityForest.mem, root);
      connectivityForest.Set(root, root);
      if head[root].keyId == NIL {
        Isolated(root);
        flips' := ClearCell(root, flips);
        ClearIsolated(old(mem), mem, G(), values, root);
        ClearedOne(old(mem), mem, G(), root);
      } else {
        NotLonely(root);
        ClearedNone(mem, G(), root);
        PatchNone(mem, flips);
        flips' := flips;
        ConnectReached(root, N(), old(connectivityForest.mem));
      }
    }

    /** Links the key `key` with ends `ha`, `hb` into the lists and the union-find. */
    method AddEdge(key: nat, ha: nat, hb: nat, ghost g: Graph)
      requires Adjacent(head, nextAtA, nextAtB, chains, g, ma, ma + mb) && ha < ma <= hb < ma + mb
      requires key !in g && key < |nextAtA| && key < |nextAtB| && key < NIL
      requires connectivityForest.Valid() && |connectivityForest.mem| == |connectivityForest.rep| == ma + mb
      modifies this`head, this`nextAtA, this`nextAtB, this`chains, connectivityForest
      ensures Adjacent(head, nextAtA, nextAtB, chains, g[key := Edge(ha, hb)], ma, ma + mb)
      ensures |head| == |chains| == ma + mb && |nextAtA| == |old(nextAtA)| && |nextAtB| == |old(nextAtB)|
      ensures connectivityForest.Valid() && |connectivityForest.mem| == ma + mb
      ensures connectivityForest.rep == Merged(old(connectivityForest.rep), ha, hb)
      ensures RootsMerged(old(connectivityForest.mem), connectivityForest.mem, old(connectivityForest.rep), ha, hb)
    {
      hide Side, RootsMerged, Represents, Merged;
      AddBoth(head, nextAtA, nextAtB, chains, g, ma, ma + mb, key, Edge(ha, hb));
      nextAtA := nextAtA[key := head[ha]];
      head := head[ha := Cell(key, hb)];
      nextAtB := nextAtB[key := head[hb]];
      head := head[hb := Cell(key, ha)];
      chains := chains[ha := [key] + chains[ha]];
      chains := chains[hb := [key] + chains[hb]];
      connectivityForest.Merge(ha, hb);
    }

    /** Takes the edge `keyId` out of the lists of both its ends. */
    method UnlinkEdge(keyId: nat, ha: nat, hb: nat, ghost g: Graph)
      requires Adjacent(head, nextAtA, nextAtB, chains, g, ma, ma + mb)
      requires keyId in g && g[keyId] == Edge(ha, hb)
      modifies this`head, this`nextAtA, this`nextAtB, this`chains
      ensures Adjacent(head, nextAtA, nextAtB, chains, g - {keyId}, ma, ma + mb)
      ensures |head| == |chains| == ma + mb && |nextAtA| == |old(nextAtA)| && |nextAtB| == |old(nextAtB)|
    {
      ghost var chains1, chains2;
      hide Side;
      head, nextAtA, chains1 := Unlink(head, nextAtA, ha, keyId, chains, g, 0, ma);
      SideFrame(old(head), nextAtB, chains, g, ma, ma + mb, head, chains1);
      ghost var head1 := head;
      head, nextAtB, chains2 := Unlink(head, nextAtB, hb, keyId, chains1, g, ma, ma + mb);
      BothSides(head1, nextAtA, nextAtB, chains1, g - {keyId}, ma, ma + mb, head, chains2, hb);
      chains := chains2;
    }

    /** Hands the list positions of the key `last` over to the free id `keyId`. */
    method RelinkEdge(keyId: nat, last: nat, hal: nat, hbl: nat, ghost g: Graph)
      requires Adjacent(head, nextAtA, nextAtB, chains, g, ma, ma + mb)
      requires last in g && g[last] == Edge(hal, hbl) && keyId !in g && keyId < last
      modifies this`head, this`nextAtA, this`nextAtB, this`chains
      ensures Adjacent(head, nextAtA, nextAtB, chains, Rename(g, last, keyId), ma, ma + mb)
      ensures |head| == |chains| == ma + mb && |nextAtA| == |old(nextAtA)| && |nextAtB| == |old(nextAtB)|
    {
      ghost var chains1, chains2;
      hide Side;
      assert last < NIL by { AdjacentIds(head, nextAtA, nextAtB, chains, g, ma, ma + mb, last); }
      head, nextAtA, chains1 := Relink(head, nextAtA, hal, last, keyId, hbl, chains, g, 0, ma);
      SideFrame(old(head), nextAtB, chains, g, ma, ma + mb, head, chains1);
      ghost var head1 := head;
      head, nextAtB, chains2 := Relink(head, nextAtB, hbl, last, keyId, hal, chains1, g, ma, ma + mb);
      BothSides(head1, nextAtA, nextAtB, chains1, Rename(g, last, keyId), ma, ma + mb, head, chains2, hbl);
      chains := chains2;
    }

    // ---- The invariant ----

    ghost predicate UnionFindExact()
      reads this`seed, this`ma, this`mb, this`keys, this`keyCnt, connectivityForest
    {
      && connectivityForest.Valid() && |connectivityForest.mem| == |connectivityForest.rep| == ma + mb
      && Partition(connectivityForest.rep, G())
    }

    /** What `checkIntegrity` checks, together with everything it rests on. */
    ghost predicate Valid()
      reads this, connectivityForest
    {
      && Shape() && ListsExact() && IsForest(G()) && UnionFindExact()
      && SolvedValues(mem, G(), values) && SolvedIndex(indMem, G())
      && Holds(keys, values, keyCnt, contents)
    }

    // ---- Lookups ----

    function QueryIndex(k: Key): nat
      requires Shape()
      reads this
    {
      var e := Ends(k);
      Xor(indMem[e.a], indMem[e.b])
    }

    /** The value bit read for any key, stored or not. */
    function Query(k: Key): nat
      requires Shape()
      reads this
    {
      var e := Ends(k);
      Xor(MemGetAt(e.a), MemGetAt(e.b))
    }

    predicate IsMember(k: Key)
      requires Shape()
      reads this
    {
      var index := QueryIndex(k);
      index < keyCnt && keys[index] == k
    }

    /** Every stored key finds its own position and value. */
    lemma LookupsExact(i: nat)
      requires Valid() && i < keyCnt
      ensures QueryIndex(keys[i]) == i && Query(keys[i]) == Digit(Odd(values[i]))
    {
      hide Adjacent, IsForest, Partition, Words, WordBit, Xor;
      var e := Ends(keys[i]);
      assert G()[i] == e;
      XorDigits(WordBit(mem, e.a), WordBit(mem, e.b));
    }

    /** Membership is decided exactly, also for keys never inserted. */
    lemma MembershipExact(k: Key)
      requires Valid()
      ensures IsMember(k) <==> k in contents
      ensures IsMember(k) ==> contents[k] == values[QueryIndex(k)]
      ensures k in contents ==> Query(k) == Digit(Odd(contents[k]))
    {
      hide Adjacent, IsForest, Partition, Words, SolvedValues, SolvedIndex;
      if k in contents {
        var i :| 0 <= i < keyCnt && keys[i] == k;
        LookupsExact(i);
      }
    }

    /** Stored keys are pairwise distinct. */
    lemma KeysDistinct(i: nat, j: nat)
      requires Valid() && i < j < keyCnt
      ensures keys[i] != keys[j]
    {
      hide Adjacent, IsForest, Partition, Words, SolvedValues, SolvedIndex;
      LookupsExact(i);
      LookupsExact(j);
    }

    /** The end nodes of a key go by its hash under the seed, as `IndicesByHalves` says, and a query
        xors their cells. */
    lemma QueryByHalves(k: Key, high: nat, low: nat)
      requires Shape() && hash(seed, k) == high * WRAP32 + low && high < WRAP32 && low < WRAP32
      ensures var e := Ends(k);
              && ma <= e.b < ma + mb <= WORD * |mem|
              && e.a * WRAP32 <= low * ma < (e.a + 1) * WRAP32
              && (e.b - ma) * WRAP32 <= high * mb < (e.b - ma + 1) * WRAP32
              && Query(k) == if WordBit(mem, e.a) == WordBit(mem, e.b) then 0 else 1
    {
      hide Words, Indices, WordBit;
      IndicesByHalves(hash(seed, k), high, low, ma, mb);
      XorDigits(WordBit(mem, Ends(k).a), WordBit(mem, Ends(k).b));
    }

    // ---- Insertion of one key ----

    /** In a valid state the stored keys fit, and they are the edges. */
    lemma StoredFit()
      requires Valid()
      ensures keyCnt <= |keys| && DistinctKeys(keys, keyCnt) && contents.Keys == KeySet(keys, keyCnt)
          && Fits(contents.Keys)
    {
      hide Adjacent, IsForest, Partition, Words, SolvedIndex, SolvedValues, EdgeMap, KeyEdges, KeysFit;
      forall i, j | 0 <= i < j < keyCnt ensures keys[i] != keys[j] {
        KeysDistinct(i, j);
      }
      HeldKeys(keys, values, keyCnt, contents);
      ForestByKey(hash, seed, ma, mb, keys, keyCnt);
    }

    /** A new key fits exactly when its ends are not connected yet. */
    lemma NewKeyFits(k: Key)
      requires Valid() && k !in contents
      ensures Fits(contents.Keys + {k}) <==> !Linked(G(), Ends(k).a, Ends(k).b)
    {
      hide ControlPlaneOthello.Valid, Linked, EdgeMap, KeyEdges, KeysFit, Indices, DistinctKeys, KeySet;
      StoredFit();
      OneMoreFits(hash, seed, ma, mb, contents.Keys, k);
      LinkedByKey(hash, seed, ma, mb, keys, keyCnt, Ends(k).a, Ends(k).b);
    }

    /** The graph, lists and union-find agree with `g` and form a forest. */
    ghost predicate Linkage(g: Graph)
      reads this`head, this`nextAtA, this`nextAtB, this`chains, this`ma, this`mb, connectivityForest
    {
      && Adjacent(head, nextAtA, nextAtB, chains, g, ma, ma + mb) && IsForest(g)
      && connectivityForest.Valid() && |connectivityForest.mem| == |connectivityForest.rep| == ma + mb
      && Partition(connectivityForest.rep, g)
    }

    lemma LinkageOfValid()
      requires Shape()
      ensures ListsExact() && IsForest(G()) && UnionFindExact() <==> Linkage(G())
    {
      hide Adjacent, IsForest, Partition, Words;
    }

    /** `isConnectedDFS` with a maintained disjoint set. */
    method IsConnectedDFS(ha: nat, hb: nat, ghost g: Graph) returns (same: bool)
      requires Linkage(g) && ha < ma + mb && hb < ma + mb
      modifies connectivityForest`mem
      ensures Linkage(g) && (same <==> Linked(g, ha, hb))
    {
      RepLinks(connectivityForest.rep, g, ha, hb);
      hide Adjacent, IsForest, Partition, Linked, Represents;
      same := connectivityForest.SameSet(ha, hb);
    }

    /** Enters an edge between two components. */
    method LinkEdge(i: nat, e: Edge, ghost g: Graph)
      requires Linkage(g) && i !in g && i < |nextAtA| && i < |nextAtB| && i < NIL
      requires e.a < ma <= e.b < ma + mb && !Linked(g, e.a, e.b)
      modifies this`head, this`nextAtA, this`nextAtB, this`chains, connectivityForest
      ensures Linkage(g[i := e])
      ensures |head| == |chains| == ma + mb && |nextAtA| == |old(nextAtA)| && |nextAtB| == |old(nextAtB)|
    {
      hide Adjacent, IsForest, Linked, Represents;
      RepLinks(connectivityForest.rep, g, e.a, e.b);
      ForestPlus(g, i, e);
      MergePartition(connectivityForest.rep, g, i, e);
      AddEdge(i, e.a, e.b, g);
    }

    /** The acyclic case: the edge of the key at `i` is entered and its half tree repaired. */
    method AttachKey(i: nat, e: Edge, flips: seq<nat>, ghost g: Graph) returns (flips': seq<nat>)
      requires Shape() && Linkage(g) && i !in g && i < |keys| && G() == g[i := e]
      requires e.a < ma <= e.b < ma + mb && !Linked(g, e.a, e.b)
      requires SolvedValues(mem, g[i := e] - {i}, values) && SolvedIndex(indMem, g[i := e] - {i})
      modifies this`head, this`nextAtA, this`nextAtB, this`chains, this`mem, this`indMem, connectivityForest
      ensures Shape() && Linkage(G()) && SolvedValues(mem, G(), values) && SolvedIndex(indMem, G())
      ensures Patched(old(mem), flips, mem, flips')
      ensures OneSide(old(mem), mem, g, e.a) && OneSideIndex(old(indMem), indMem, g, e.a)
    {
      hide Linkage, Patched, SolvedValues, SolvedIndex, EdgeMap, Words, OneSide, OneSideIndex;
      assert g[i := e] - {i} == g;
      LinkEdge(i, e, g);
      LinkageOfValid();
      flips' := FixHalfTreeOnDemand(i, e.a, e.b, true, true, flips);
      LinkageOfValid();
    }

    lemma BeforeInsert(k: Key, v: nat, flips: seq<nat>)
      requires Valid() && k !in contents && keyCnt < |keys|
      ensures Shape() && Linkage(G())
      ensures keyCnt !in G() && Patched(mem, flips, mem, flips)
      ensures var e := Ends(k);
              && EdgeMap(hash, seed, ma, mb, keys[keyCnt := k], keyCnt + 1) == G()[keyCnt := e]
              && e.a < ma <= e.b < ma + mb
              && SolvedValues(mem, G()[keyCnt := e] - {keyCnt}, values[keyCnt := v])
              && SolvedIndex(indMem, G()[keyCnt := e] - {keyCnt})
      ensures Holds(keys[keyCnt := k], values[keyCnt := v], keyCnt + 1, contents[k := v])
    {
      var e := Ends(k);
      EdgeMapPush(hash, seed, ma, mb, keys, keyCnt, k);
      SolvedPush(mem, indMem, G(), values, keyCnt, e, v);
      HoldsPush(keys, values, keyCnt, contents, k, v);
      LinkageOfValid();
      PatchNone(mem, flips);
    }

    lemma ValidFromParts()
      requires Shape() && Linkage(G()) && SolvedValues(mem, G(), values) && SolvedIndex(indMem, G())
      requires Holds(keys, values, keyCnt, contents)
      ensures Valid()
    {
      hide Adjacent, IsForest, Partition, Words, SolvedValues, SolvedIndex, Holds, EdgeMap;
    }

    /** `insert_on_demand`.  The key must be new and the key array must have room for it.
        The answer is false exactly when the ends of the key are already connected; the
        key count has been raised all the same, and only a rebuild can follow. */
    method InsertOnDemand(k: Key, v: nat, flips: seq<nat>) returns (ok: bool, flips': seq<nat>)
      requires Valid() && k !in contents && keyCnt < |keys|
      modifies this, connectivityForest
      ensures ok <==> !Linked(old(G()), Ends(k).a, Ends(k).b)
      ensures ok <==> old(Fits(contents.Keys + {k}))
      ensures ok ==> Valid() && contents == old(contents)[k := v]
      ensures seed == old(seed) && ma == old(ma) && mb == old(mb) && |keys| == old(|keys|) && drawn == old(drawn)
      ensures keyCnt == old(keyCnt) + 1
      ensures Patched(old(mem), flips, mem, flips')
      ensures !ok ==> mem == old(mem) && flips' == flips
      ensures OneSide(old(mem), mem, old(G()), Ends(k).a) && OneSideIndex(old(indMem), indMem, old(G()), Ends(k).a)
    {
      hide OneSide, OneSideIndex;
      ghost var g := G();
      var lastIndex := keyCnt;
      var e := Ends(k);
      hide ControlPlaneOthello.Valid, ControlPlaneOthello.Linkage, Linked, SolvedValues, SolvedIndex, Represents;
      hide Patched, Words, EdgeMap, Holds, KeysFit;
      NewKeyFits(k);
      BeforeInsert(k, v, flips);
      keyCnt := keyCnt + 1;
      keys := keys[lastIndex := k];
      values := values[lastIndex := v];
      contents := contents[k := v];
      ok, flips' := AttachOrRefuse(lastIndex, e, flips, g);
    }

    /** The last key gets its edge, unless the edge closes a cycle. */
    method AttachOrRefuse(i: nat, e: Edge, flips: seq<nat>, ghost g: Graph) returns (ok: bool, flips': seq<nat>)
      requires Shape() && Linkage(g) && i !in g && i < |keys| && G() == g[i := e]
      requires e.a < ma <= e.b < ma + mb && Holds(keys, values, keyCnt, contents)
      requires SolvedValues(mem, g[i := e] - {i}, values) && SolvedIndex(indMem, g[i := e] - {i})
      modifies this`head, this`nextAtA, this`nextAtB, this`chains, this`mem, this`indMem, connectivityForest
      ensures ok <==> !Linked(g, e.a, e.b)
      ensures ok ==> Valid()
      ensures Patched(old(mem), flips, mem, flips')
      ensures !ok ==> mem == old(mem) && flips' == flips && Shape() && |connectivityForest.mem| == ma + mb
      ensures OneSide(old(mem), mem, g, e.a) && OneSideIndex(old(indMem), indMem, g, e.a)
    {
      hide ControlPlaneOthello.Valid, ControlPlaneOthello.Linkage, Linked, SolvedValues, SolvedIndex, Represents;
      hide Patched, Words, EdgeMap, Holds, OneSide, OneSideIndex;
      SidesUnchanged(mem, indMem, g, e.a);
      var same := IsConnectedDFS(e.a, e.b, g);
      if same {
        LinkageSizes(g);
        PatchNone(mem, flips);
        ok, flips' := false, flips;
      } else {
        flips' := AttachKey(i, e, flips, g);
        ValidFromParts();
        ok := true;
      }
    }

    // ---- Changing the value of a stored key ----

    /** `updateValueAt_on_demand`; an index out of range makes the source throw. */
    method UpdateValueAtOnDemand(keyId: nat, v: nat, flips: seq<nat>) returns (thrown: bool, flips': seq<nat>)
      requires Valid()
      modifies this`values, this`contents, this`mem, this`indMem
      ensures Valid() && (thrown <==> keyId >= keyCnt)
      ensures contents == if thrown then old(contents) else old(contents)[keys[keyId] := v]
      ensures Patched(old(mem), flips, mem, flips')
      ensures thrown ==> mem == old(mem) && indMem == old(indMem) && flips' == flips
      ensures !thrown ==> OneSide(old(mem), mem, G() - {keyId}, Ends(keys[keyId]).a) && indMem == old(indMem)
    {
      hide OneSide, OneSideIndex;
      hide ControlPlaneOthello.Valid, ControlPlaneOthello.Linkage, SolvedValues, SolvedIndex, Patched, Words, Holds;
      hide EdgeMap, Adjacent, IsForest;
      PatchNone(mem, flips);
      if keyId >= keyCnt {
        return true, flips;
      }
      BeforeUpdate(keyId, v);
      values := values[keyId := v];
      contents := contents[keys[keyId] := v];
      var e := Ends(keys[keyId]);
      flips' := FixHalfTreeOnDemand(keyId, e.a, e.b, true, false, flips);
      LinkageOfValid();
      ValidFromParts();
      thrown := false;
    }

    lemma BeforeUpdate(keyId: nat, v: nat)
      requires Valid() && keyId < keyCnt
      ensures Shape() && ListsExact() && IsForest(G()) && Linkage(G()) && SolvedIndex(indMem, G())
      ensures keyId in G() && G()[keyId] == Ends(keys[keyId])
      ensures SolvedValues(mem, G() - {keyId}, values[keyId := v])
      ensures Holds(keys, values[keyId := v], keyCnt, contents[keys[keyId] := v])
    {
      hide Adjacent, IsForest, Partition, Words, SolvedIndex;
      LinkageOfValid();
      forall i | 0 <= i < keyCnt && i != keyId ensures keys[i] != keys[keyId] {
        if i < keyId { KeysDistinct(i, keyId); } else { KeysDistinct(keyId, i); }
      }
    }

    /** `valueFlip_on_demand` of a stored key. */
    method ValueFlipOnDemand(k: Key, v: nat, flips: seq<nat>) returns (flips': seq<nat>)
      requires Valid() && k in contents
      modifies this`values, this`contents, this`mem, this`indMem
      ensures Valid() && contents == old(contents)[k := v]
      ensures Patched(old(mem), flips, mem, flips')
      ensures OneSide(old(mem), mem, G() - {QueryIndex(k)}, Ends(k).a) && indMem == old(indMem)
    {
      MembershipExact(k);
      hide ControlPlaneOthello.Valid, Patched, Words, Adjacent, OneSide;
      var thrown;
      thrown, flips' := UpdateValueAtOnDemand(QueryIndex(k), v, flips);
    }

    // ---- Deletion ----

    /** The last key moves to the free place `keyId`: arrays, lists, and the index stored
        in the cells. */
    method MoveLast(keyId: nat, last: nat, flips: seq<nat>, ghost g: Graph) returns (flips': seq<nat>)
      requires Shape() && keyCnt == last && keyId < last < |keys|
      requires Adjacent(head, nextAtA, nextAtB, chains, g, ma, ma + mb) && IsForest(g)
      requires last in g && keyId !in g && g[last] == Ends(keys[last])
      requires EdgeMap(hash, seed, ma, mb, keys[keyId := keys[last]], last) == Rename(g, last, keyId)
      requires SolvedValues(mem, g, values) && SolvedIndex(indMem, g)
      modifies this`keys, this`values, this`head, this`nextAtA, this`nextAtB, this`chains, this`mem, this`indMem
      ensures Shape() && ListsExact() && IsForest(G()) && G() == Rename(g, last, keyId)
      ensures SolvedValues(mem, G(), values) && SolvedIndex(indMem, G())
      ensures keys == old(keys)[keyId := old(keys)[last]] && values == old(values)[keyId := old(values)[last]]
      ensures Patched(old(mem), flips, mem, flips') && mem == old(mem)
    {
      hide SolvedValues, SolvedIndex, Patched, Words, EdgeMap, Adjacent, IsForest, Rename;
      SolvedMove(mem, indMem, g, values, last, keyId);
      RenameKeeps(g, last, keyId);
      var lastKey := keys[last];
      keys := keys[keyId := lastKey];
      values := values[keyId := values[last]];
      var e := Ends(lastKey);
      RelinkEdge(keyId, last, e.a, e.b, g);
      flips' := FixHalfTreeOnDemand(keyId, e.a, e.b, false, true, flips);
    }

    /** Re-roots the two halves that the deletion of edge `i` of `g` has left. */
    method Reconnect(ha: nat, hb: nat, flips: seq<nat>, ghost g: Graph, ghost i: nat) returns (flips': seq<nat>)
      requires Shape() && ListsExact() && IsForest(G()) && SolvedValues(mem, G(), values)
      requires connectivityForest.Valid() && |connectivityForest.mem| == ma + mb && Partition(connectivityForest.rep, g)
      requires IsForest(g) && i in g && g[i] == Edge(ha, hb) && ha < ma + mb && hb < ma + mb && SameLinks(g - {i}, G())
      modifies this`mem, connectivityForest
      ensures Shape() && SolvedValues(mem, G(), values) && UnionFindExact()
      ensures Patched(old(mem), flips, mem, flips')
      ensures Cleared(old(mem), mem, G(), ha, hb)
    {
      hide Cleared;
      ghost var m0, rep, depth := connectivityForest.mem, connectivityForest.rep, connectivityForest.depth;
      assert |rep| == ma + mb;
      hide SolvedValues, Patched, Words, EdgeMap, Adjacent, IsForest, Linked, Represents, Rerooted, Partition;
      hide SameLinks;
      flips' := ConnectBFSOnDemand(ha, flips);
      ghost var m1, f1, mem1 := connectivityForest.mem, flips', mem;
      assert |m1| == |m0| by { RerootedSize(m0, m1, G(), ha); }
      flips' := ConnectBFSOnDemand(hb, flips');
      ghost var m2 := connectivityForest.mem;
      PatchTrans(old(mem), flips, mem1, f1, mem, flips');
      ClearedInTurn(old(mem), mem1, mem, G(), ha, hb);
      SplitOverRename(m0, m1, m2, rep, depth, g, i, G());
      RerootedSize(m1, m2, G(), hb);
      connectivityForest.Relabel(SplitRep(rep, g - {i}, Edge(ha, hb)), SplitDepth(depth, g - {i}, Edge(ha, hb)));
    }

    /** The array part of a deletion: afterwards keys, lists and cells agree on the graph
        without the erased edge, and only the union-find is still the old one. */
    method Detach(keyId: nat, flips: seq<nat>) returns (flips': seq<nat>)
      requires Valid() && keyId < keyCnt
      modifies this`keyCnt, this`keys, this`values, this`head, this`nextAtA, this`nextAtB, this`chains, this`mem,
          this`indMem
      ensures Shape() && ListsExact() && IsForest(G()) && SameLinks(old(G()) - {keyId}, G())
      ensures SolvedValues(mem, G(), values) && SolvedIndex(indMem, G())
      ensures keyCnt == old(keyCnt) - 1
      ensures keys == old(keys)[keyId := old(keys)[keyCnt]] && values == old(values)[keyId := old(values)[keyCnt]]
      ensures Patched(old(mem), flips, mem, flips') && mem == old(mem)
    {
      hide ControlPlaneOthello.Valid, SolvedValues, SolvedIndex, Patched, Words, EdgeMap, Adjacent, IsForest, SameLinks;
      hide Rename, Linked;
      ghost var g := G();
      BeforeErase(keyId, flips);
      var e := Ends(keys[keyId]);
      keyCnt := keyCnt - 1;
      UnlinkEdge(keyId, e.a, e.b, g);
      flips' := flips;
      if keyId != keyCnt {
        flips' := MoveLast(keyId, keyCnt, flips, g - {keyId});
      } else {
        assert keys == keys[keyId := keys[keyCnt]] && values == values[keyId := values[keyCnt]];
      }
    }

    lemma BeforeErase(keyId: nat, flips: seq<nat>)
      requires Valid() && keyId < keyCnt
      ensures Shape() && ListsExact() && IsForest(G() - {keyId}) && Patched(mem, flips, mem, flips)
      ensures var e := Ends(keys[keyId]);
              keyId in G() && G()[keyId] == e && e.a < ma <= e.b < ma + mb
      ensures var g1, last := G() - {keyId}, keyCnt - 1;
              && SolvedValues(mem, g1, values) && SolvedIndex(indMem, g1)
              && keyId !in g1 && SameLinks(g1, g1)
              && (keyId == last ==> EdgeMap(hash, seed, ma, mb, keys, last) == g1)
              && (keyId != last ==>
                    && last in g1 && g1[last] == Ends(keys[last])
                    && EdgeMap(hash, seed, ma, mb, keys[keyId := keys[last]], last) == Rename(g1, last, keyId)
                    && SameLinks(g1, Rename(g1, last, keyId)))
    {
      hide Adjacent, IsForest, Partition, Words, SolvedValues, SolvedIndex, Linked, EdgeMap, Holds, Rename, Patched;
      ForestMinus(G(), keyId);
      PatchNone(mem, flips);
      EdgeMapMove(hash, seed, ma, mb, keys, keyId, keyCnt - 1);
      SolvedMinus(mem, indMem, G(), values, keyId);
      if keyId != keyCnt - 1 {
        RenameKeeps(G() - {keyId}, keyCnt - 1, keyId);
      }
    }

    /** Deletion of the key at a known position. */
    method EraseAt(keyId: nat, flips: seq<nat>) returns (flips': seq<nat>)
      requires Valid() && keyId < keyCnt
      modifies this, connectivityForest
      ensures Valid() && contents == old(contents) - {old(keys[keyId])}
      ensures seed == old(seed) && ma == old(ma) && mb == old(mb) && |keys| == old(|keys|) && drawn == old(drawn)
      ensures keyCnt == old(keyCnt) - 1
      ensures Patched(old(mem), flips, mem, flips')
      ensures var e := Ends(old(keys[keyId])); Cleared(old(mem), mem, G(), e.a, e.b)
    {
      hide ControlPlaneOthello.Valid, ControlPlaneOthello.ListsExact, SolvedValues, SolvedIndex, Patched, Words;
      hide Cleared;
      hide EdgeMap, IsForest, SameLinks, Linked, Holds, Partition, Represents;
      ghost var g := G();
      BeforeReconnect(keyId);
      var k := keys[keyId];
      var e := Ends(k);
      flips' := Detach(keyId, flips);
      ghost var mem1, flips1 := mem, flips';
      flips' := Reconnect(e.a, e.b, flips', g, keyId);
      PatchTrans(old(mem), flips, mem1, flips1, mem, flips');
      contents := contents - {k};
      LinkageOfValid();
      ValidFromParts();
    }

    /** `erase_on_demand`: a key that is not stored is left alone. */
    method EraseOnDemand(k: Key, flips: seq<nat>) returns (flips': seq<nat>)
      requires Valid()
      modifies this, connectivityForest
      ensures Valid() && contents == old(contents) - {k}
      ensures seed == old(seed) && ma == old(ma) && mb == old(mb) && |keys| == old(|keys|) && drawn == old(drawn)
      ensures keyCnt == old(keyCnt) - (if k in old(contents) then 1 else 0)
      ensures Patched(old(mem), flips, mem, flips')
      ensures k !in old(contents) ==> mem == old(mem) && flips' == flips
      ensures k in old(contents) ==> Cleared(old(mem), mem, G(), Ends(k).a, Ends(k).b)
    {
      MembershipExact(k);
      hide ControlPlaneOthello.Valid, Patched, Words, Cleared;
      var keyId := QueryIndex(k);
      if keyId >= keyCnt || keys[keyId] != k {
        PatchNone(mem, flips);
        assert contents - {k} == contents;
        return flips;
      }
      flips' := EraseAt(keyId, flips);
    }

    lemma BeforeReconnect(keyId: nat)
      requires Valid() && keyId < keyCnt
      ensures var e := Ends(keys[keyId]);
              && keyId in G() && G()[keyId] == e && e.a < ma + mb && e.b < ma + mb
      ensures Shape() && IsForest(G()) && UnionFindExact()
      ensures Holds(keys[keyId := keys[keyCnt - 1]], values[keyId := values[keyCnt - 1]], keyCnt - 1,
          contents - {keys[keyId]})
    {
      hide Adjacent, IsForest, Partition, Words, SolvedIndex, SolvedValues;
      var last := keyCnt - 1;
      forall i | 0 <= i < keyCnt && i != keyId ensures keys[i] != keys[keyId] {
        if i < keyId { KeysDistinct(i, keyId); } else { KeysDistinct(keyId, i); }
      }
      HoldsErase(keys, values, keyCnt, contents, keyId);
    }

    // ---- Building from scratch ----

    /** The list loop of `fillTreeDFS`. */
    method FillList(it: Item, stack: seq<Item>,
                    ghost net: Net, ghost root: nat, ghost from: Before, ghost seen: set<nat>, ghost used: set<nat>)
      returns (stack': seq<Item>, ghost seen': set<nat>, ghost used': set<nat>)
      requires Shape() && net == N() && it.node < |net.head|
      requires At(net, root, NIL, seen, used, stack, it, 0, net.head[it.node])
      requires Filling(net.g, values, root, from, mem, indMem, seen, used)
      modifies this`mem, this`indMem
      ensures Shape()
      ensures Between(net, root, NIL, seen', used', stack')
      ensures Filling(net.g, values, root, from, mem, indMem, seen', used')
      ensures Unseen(net.n, seen') < Unseen(net.n, seen)
          || (Unseen(net.n, seen') == Unseen(net.n, seen) && stack' == stack)
    {
      hide *;
      ShapeSizes();
      NetFields(net, it.node);
      var nextKeyOfThisKey := if it.node < ma then nextAtA else nextAtB;
      var cell := head[it.node];
      stack', seen', used' := stack, seen, used;
      ghost var j := 0;
      while cell.keyId != NIL
        invariant Shape() && At(net, root, NIL, seen', used', stack', it, j, cell)
        invariant Unseen(net.n, seen') < Unseen(net.n, seen)
            || (Unseen(net.n, seen') == Unseen(net.n, seen) && stack' == stack)
        invariant Filling(net.g, values, root, from, mem, indMem, seen', used')
        decreases |net.chains[it.node]| - j
      {
        Step(net, root, NIL, seen', used', stack', it, j, cell);
        if cell.keyId != it.prev {
          Crossed(net, root, NIL, seen', used', stack', it, j, cell);
          FillMet(cell.keyId, cell.nodeId, it.node, net.g, root, from, seen', used');
          stack' := stack' + [Item(cell.keyId, cell.nodeId)];
          seen', used' := seen' + {cell.nodeId}, used' + {cell.keyId};
        }
        cell := nextKeyOfThisKey[cell.keyId];
        j := j + 1;
      }
      Step(net, root, NIL, seen', used', stack', it, j, cell);
    }

    /** `fillSingle` on a node just met. */
    method FillMet(keyId: nat, nextNode: nat, nid: nat, ghost g: Graph, ghost root: nat, ghost from: Before,
        ghost seen: set<nat>, ghost used: set<nat>)
      requires Shape() && keyId < |values| && nextNode < ma + mb && nid < ma + mb
      requires Filling(g, values, root, from, mem, indMem, seen, used) && nextNode !in seen && nid in seen
      requires UsedWithin(g, seen, used)
      requires keyId in g && Touches(g[keyId], nid) && nextNode == Far(g[keyId], nid)
      modifies this`mem, this`indMem
      ensures Shape()
      ensures Filling(g, values, root, from, mem, indMem, seen + {nextNode}, used + {keyId})
    {
      hide Filling, Touches, Far, Odd, WordBit, Xor, Wrote, Words;
      FillSingle(keyId, nextNode, nid, true, true);
      FillOne(g, values, root, from, old(mem), old(indMem), mem, indMem, seen, used, keyId, nid, nextNode);
    }

    /** The search of `fillTreeDFS`. */
    method FillReached(root: nat, ghost net: Net, ghost from: Before)
      returns (ghost seen: set<nat>, ghost used: set<nat>)
      requires Shape() && net == N()
      requires Between(net, root, NIL, {root}, {}, [Item(NIL, root)])
      requires Filling(net.g, values, root, from, mem, indMem, {root}, {})
      modifies this`mem, this`indMem
      ensures Shape()
      ensures Between(net, root, NIL, seen, used, [])
      ensures Filling(net.g, values, root, from, mem, indMem, seen, used)
    {
      hide *;
      var stack := [Item(NIL, root)];
      seen, used := {root}, {};
      while stack != []
        invariant Shape() && Between(net, root, NIL, seen, used, stack)
        invariant Filling(net.g, values, root, from, mem, indMem, seen, used)
        decreases Unseen(net.n, seen), |stack|
      {
        var it := stack[|stack| - 1];
        Pop(net, root, NIL, seen, used, stack);
        stack, seen, used := FillList(it, stack[..|stack| - 1], net, root, from, seen, used);
      }
    }

    /** Solves every key of the tree of `root`, which is a node of array A, without
        disturbing the keys of other trees. */
    method FillTreeDFS(root: nat)
      requires Shape() && ListsExact() && IsForest(G()) && root < ma
      modifies this`mem, this`indMem
      ensures Shape()
      ensures TreeSolved(old(mem), old(indMem), mem, indMem, G(), values, root)
      ensures TreeOnly(old(mem), old(indMem), mem, indMem, G(), root)
    {
      hide Linked, Between, Filling, SolvedAt, TreeSolved, TreeOnly, Adjacent, IsForest, EdgeMap, Words;
      ghost var net, from := N(), Before(mem, indMem, []);
      BeginConnect(root);
      StartFilling(net.g, values, mem, indMem, root);
      ghost var seen, used := FillReached(root, net, from);
      FillSolves(net, root, seen, used, values, from, mem, indMem);
      FillTree(net, root, seen, used, values, from, mem, indMem);
    }

    /** `resetBuildState`: zero cells, empty lists, every node alone. */
    method ResetBuildState()
      requires Shape() && |connectivityForest.mem| == ma + mb
      modifies this`mem, this`head, this`nextAtA, this`nextAtB, this`chains, connectivityForest
      ensures Shape() && Linkage(map[])
      ensures forall u :: 0 <= u < ma + mb ==> !WordBit(mem, u)
      ensures RootsInA(connectivityForest.mem, connectivityForest.rep, map[], ma)
    {
      hide WordBit, Words, FlipAt, MemSet, Represents, Adjacent, IsForest, Partition, RootsInA;
      hide ControlPlaneOthello.Linkage;
      ghost var size := |mem|;
      for i := 0 to ma + mb
        invariant |mem| == size && Words(mem)
        invariant forall u :: 0 <= u < i ==> !WordBit(mem, u)
        modifies this`mem
      {
        CellWrite(mem, i, 0);
        mem := MemSet(mem, 1, i, 0);
      }
      ClearLinks();
    }

    /** No edges: empty lists, and every node alone. */
    method ClearLinks()
      requires Shape() && |connectivityForest.mem| == ma + mb
      modifies this`head, this`nextAtA, this`nextAtB, this`chains, connectivityForest
      ensures Shape() && Linkage(map[])
      ensures RootsInA(connectivityForest.mem, connectivityForest.rep, map[], ma)
    {
      hide Words, Represents, Adjacent, IsForest, Partition;
      head := seq(|head|, i => NIL_CELL);
      nextAtA := seq(|nextAtA|, i => NIL_CELL);
      nextAtB := seq(|nextAtB|, i => NIL_CELL);
      chains := seq(|chains|, i => []);
      connectivityForest.Reset();
      assert |connectivityForest.rep| == ma + mb by { RepresentsSize(connectivityForest); }
      NoEdges(head, nextAtA, nextAtB, chains, ma, ma + mb);
      EmptyPartition(connectivityForest.rep);
    }

    lemma RepresentsSize(d: DisjointSet)
      requires d.Valid()
      ensures |d.rep| == |d.mem| && forall x :: 0 <= x < |d.rep| ==> d.rep[x] < |d.rep|
    {
    }

    /** The edges of the first `cnt` keys. */
    ghost function Prefix(cnt: nat): Graph
      reads this`seed, this`ma, this`mb, this`keys
    {
      EdgeMap(hash, seed, ma, mb, keys, cnt)
    }

    lemma LinkedForest(g: Graph)
      requires Linkage(g)
      ensures IsForest(g)
    {
    }

    lemma PrefixEnds()
      ensures Prefix(0) == map[] && Prefix(keyCnt) == G()
    {
    }

    lemma PrefixStep(i: nat)
      requires Shape() && i < keyCnt
      ensures i !in Prefix(i) && Prefix(i + 1) == Prefix(i)[i := Ends(keys[i])]
      ensures Linked(Prefix(i), Ends(keys[i]).a, Ends(keys[i]).b) ==> !IsForest(G())
    {
      hide Words, Linked;
      EdgeMapPush(hash, seed, ma, mb, keys, i, keys[i]);
      assert keys[i := keys[i]] == keys;
      if Linked(Prefix(i), Ends(keys[i]).a, Ends(keys[i]).b) {
        SubValues(Prefix(i), G() - {i});
        LinkedMono(Prefix(i), G() - {i}, Ends(keys[i]).a, Ends(keys[i]).b);
        assert i in G();
      }
    }

    /** Enters the key at `i` unless it closes a cycle. */
    method TestKey(i: nat) returns (ok: bool)
      requires Shape() && i < keyCnt && Linkage(Prefix(i))
      requires RootsInA(connectivityForest.mem, connectivityForest.rep, Prefix(i), ma)
      modifies this`head, this`nextAtA, this`nextAtB, this`chains, connectivityForest
      ensures Shape() && |connectivityForest.mem| == |connectivityForest.rep| == ma + mb
      ensures ok <==> !Linked(Prefix(i), Ends(keys[i]).a, Ends(keys[i]).b)
      ensures ok ==>
          Linkage(Prefix(i + 1)) && RootsInA(connectivityForest.mem, connectivityForest.rep, Prefix(i + 1), ma)
    {
      hide EdgeMap, Words, Adjacent, IsForest, Partition, Linked, Represents, RootsInA, Merged, RootsMerged;
      hide RootsTouched;
      ghost var g, rep, mem0 := Prefix(i), connectivityForest.rep, connectivityForest.mem;
      var e := Ends(keys[i]);
      RepresentsSize(connectivityForest);
      PrefixStep(i);
      RepLinks(rep, g, e.a, e.b);
      var same := connectivityForest.SameSet(e.a, e.b);
      if same {
        return false;
      }
      ghost var mem1 := connectivityForest.mem;
      AddEdge(i, e.a, e.b, g);
      ForestPlus(g, i, e);
      MergePartition(rep, g, i, e);
      RootsStay(mem0, mem1, connectivityForest.mem, rep, g, ma, i, e);
      ok := true;
    }

    /** `testHash`: succeeds exactly when the edges of all keys form a forest. */
    method TestHash() returns (ok: bool)
      requires Shape() && |connectivityForest.mem| == |connectivityForest.rep| == ma + mb && keyCnt <= |keys|
      requires Linkage(map[]) && RootsInA(connectivityForest.mem, connectivityForest.rep, map[], ma)
      modifies this`head, this`nextAtA, this`nextAtB, this`chains, connectivityForest
      ensures Shape() && |connectivityForest.mem| == |connectivityForest.rep| == ma + mb && (ok <==> IsForest(G()))
      ensures ok ==> Linkage(G()) && RootsInA(connectivityForest.mem, connectivityForest.rep, G(), ma)
    {
      hide EdgeMap, Words, Linked, RootsInA, IsForest, ControlPlaneOthello.Linkage, ControlPlaneOthello.Prefix;
      hide ControlPlaneOthello.G, ControlPlaneOthello.Shape;
      PrefixEnds();
      for i := 0 to keyCnt
        invariant Shape() && Linkage(Prefix(i)) && |connectivityForest.mem| == |connectivityForest.rep| == ma + mb
        invariant RootsInA(connectivityForest.mem, connectivityForest.rep, Prefix(i), ma)
      {
        PrefixStep(i);
        ok := TestKey(i);
        if !ok { return; }
      }
      LinkedForest(G());
      ok := true;
    }

    /** `fillValue`: every key gets its value and index. */
    method FillValue()
      requires Shape() && Linkage(G()) && RootsInA(connectivityForest.mem, connectivityForest.rep, G(), ma)
      requires ZeroRoots(mem, connectivityForest.mem, G())
      modifies this`mem, this`indMem
      ensures Shape() && SolvedValues(mem, G(), values) && SolvedIndex(indMem, G())
      ensures ZeroRoots(mem, connectivityForest.mem, G())
    {
      hide EdgeMap, Words, Adjacent, IsForest, Linked, RootsInA, SolvedAt, TreeSolved, Represents, SolvedBelow;
      hide ZeroRoots, TreeOnly;
      hide SolvedValues, SolvedIndex;
      ghost var g, rep := G(), connectivityForest.rep;
      RepresentsSize(connectivityForest);
      RootsHaveRep(connectivityForest);
      StartSolved(mem, indMem, g, values, rep);
      for i := 0 to ma + mb
        invariant Shape() && SolvedBelow(mem, indMem, g, values, rep, i)
        invariant ZeroRoots(mem, connectivityForest.mem, g)
      {
        ghost var mem1, ind1 := mem, indMem;
        if connectivityForest.IsRoot(i) {
          RootIsA(connectivityForest.mem, rep, g, ma, i);
          FillTreeDFS(i);
          SolvedNext(mem1, ind1, mem, indMem, g, values, rep, i);
          ZeroStays(mem1, ind1, mem, indMem, connectivityForest.mem, rep, g, i);
        } else {
          SolvedSkip(mem, indMem, g, values, connectivityForest.mem, rep, ma, i);
        }
      }
      AllBelow(mem, indMem, g, values, connectivityForest.mem, rep, ma);
    }

    lemma RootsHaveRep(d: DisjointSet)
      requires d.Valid()
      ensures |d.rep| == |d.mem| && forall x :: 0 <= x < |d.mem| && d.IsRoot(x) ==> d.rep[x] == x
    {
    }

    /** One build attempt with the current seed. */
    method TryBuild() returns (ok: bool)
      requires Shape() && |connectivityForest.mem| == ma + mb && Holds(keys, values, keyCnt, contents)
      modifies this`mem, this`indMem, this`head, this`nextAtA, this`nextAtB, this`chains, connectivityForest
      ensures Shape() && |connectivityForest.mem| == ma + mb
      ensures ok <==> IsForest(G())
      ensures ok ==> Valid() && ZeroRoots(mem, connectivityForest.mem, G())
    {
      hide EdgeMap, Words, Adjacent, IsForest, Partition, RootsInA, Represents, SolvedValues, SolvedIndex, Holds;
      hide WordBit, ZeroRoots;
      ResetBuildState();
      AllZero();
      if keyCnt == 0 {
        EmptyGraph();
        ValidFromParts();
        return true;
      }
      ok := TestHash();
      if ok {
        FillValue();
        ValidFromParts();
      }
    }

    lemma AllZero()
      requires Shape()
      ensures (forall u :: 0 <= u < ma + mb ==> !WordBit(mem, u)) ==>
                forall uf: seq<int>, g: Graph :: |uf| == ma + mb ==> ZeroRoots(mem, uf, g)
    {
      hide WordBit, Lonely, Words;
    }

    lemma EmptyGraph()
      requires keyCnt == 0
      ensures G() == map[] && IsForest(G()) && SolvedValues(mem, G(), values) && SolvedIndex(indMem, G())
    {
    }

    /** The graph of the stored keys under another seed. */
    ghost function GraphFor(s: uint64): Graph
      reads this`ma, this`mb, this`keys, this`keyCnt
    {
      EdgeMap(hash, s, ma, mb, keys, keyCnt)
    }

    /** Attempt `t` of a build from position `from` finds a forest. */
    ghost predicate Attempt(from: nat, t: nat)
      reads this`ma, this`mb, this`keys, this`keyCnt
    {
      IsForest(GraphFor(draw(from + 2 * t)))
    }

    /** `build`: succeeds exactly when one of the next fifty seeds does, and takes the first of
        them; the source throws otherwise.  A seed takes two random numbers. */
    method Build() returns (built: bool, ghost last: nat)
      requires Shape() && |connectivityForest.mem| == ma + mb && Holds(keys, values, keyCnt, contents)
      modifies this`seed, this`drawn, this`mem, this`indMem, this`head, this`nextAtA, this`nextAtB, this`chains,
          connectivityForest
      ensures built ==> Valid() && ZeroRoots(mem, connectivityForest.mem, G())
      ensures built <==> exists t :: 0 <= t < 50 && Attempt(old(drawn), t)
      ensures last < MAX_REHASH && forall t :: 0 <= t < last ==> !Attempt(old(drawn), t)
      ensures built ==> Attempt(old(drawn), last) && seed == draw(old(drawn) + 2 * last)
      ensures drawn == old(drawn) + 2 * last + 2
    {
      hide ControlPlaneOthello.Valid, Holds, IsForest, EdgeMap, ControlPlaneOthello.Shape, ControlPlaneOthello.Attempt;
      hide ZeroRoots;
      ghost var from := drawn;
      built := false;
      var tryCount: nat := 0;
      while !built && tryCount < MAX_REHASH
        invariant tryCount <= MAX_REHASH && drawn == from + 2 * tryCount && (built ==> tryCount > 0)
        invariant Shape() && |connectivityForest.mem| == ma + mb
        invariant forall t :: 0 <= t < tryCount - 1 ==> !Attempt(from, t)
        invariant tryCount > 0 ==> (built <==> Attempt(from, tryCount - 1))
        invariant built ==> Valid() && ZeroRoots(mem, connectivityForest.mem, G())
        invariant built ==> seed == draw(from + 2 * (tryCount - 1))
      {
        seed := draw(drawn);
        drawn := drawn + 2;
        built := TryBuild();
        AttemptIs(from, tryCount);
        tryCount := tryCount + 1;
      }
      last := tryCount - 1;
    }

    lemma AttemptIs(from: nat, t: nat)
      ensures seed == draw(from + 2 * t) ==> (Attempt(from, t) <==> IsForest(G()))
    {
    }

    lemma EmptyIsForest()
      ensures keyCnt == 0 ==> Attempt(drawn, 0)
    {
      if keyCnt == 0 {
        assert GraphFor(draw(drawn)) == map[];
      }
    }

    /** The attempts of a build are about the set of stored keys. */
    lemma AttemptsByKey(from: nat)
      requires keyCnt <= |keys| == |values| && Holds(keys, values, keyCnt, contents) && DistinctKeys(keys, keyCnt)
      ensures forall t: nat :: Attempt(from, t) <==> SeedFits(hash, draw, from, t, ma, mb, contents.Keys)
    {
      hide Holds, IsForest, EdgeMap, KeysFit, DistinctKeys, KeySet;
      HeldKeys(keys, values, keyCnt, contents);
      forall t: nat ensures Attempt(from, t) <==> SeedFits(hash, draw, from, t, ma, mb, contents.Keys) {
        ForestByKey(hash, draw(from + 2 * t), ma, mb, keys, keyCnt);
      }
    }

    /** The key arrays alone. */
    ghost predicate Store()
      reads this
    {
      && keyCnt <= |keys| == |values| == |nextAtA| == |nextAtB| <= NIL
      && Holds(keys, values, keyCnt, contents)
    }

    lemma ValidIsStore()
      requires Valid()
      ensures Store() && |connectivityForest.mem| == ma + mb && Shape()
    {
      hide Adjacent, IsForest, Partition, Words, SolvedIndex, SolvedValues, Holds, EdgeMap;
    }

    lemma BeforeGrow(keys': seq<Key>, values': seq<nat>, nextA': seq<Cell>, nextB': seq<Cell>)
      requires Valid() && keys <= keys' && values <= values' && nextAtA <= nextA' && nextAtB <= nextB'
      ensures Shape() && Linkage(G()) && SolvedIndex(indMem, G())
      ensures Adjacent(head, nextA', nextB', chains, G(), ma, ma + mb)
      ensures EdgeMap(hash, seed, ma, mb, keys', keyCnt) == G()
      ensures SolvedValues(mem, G(), values')
    {
      LinkageOfValid();
      GrowNext(head, nextAtA, nextAtB, nextA', nextB', chains, G(), ma, ma + mb);
      EdgeMapGrow(hash, seed, ma, mb, keys, keys', keyCnt);
      SolvedGrow(mem, G(), values, values');
    }

    /** More room in the key arrays. */
    method GrowArrays(n: nat)
      requires Store() && |keys| <= n <= NIL
      modifies this`keys, this`values, this`nextAtA, this`nextAtB
      ensures Store() && |keys| == n && (old(Valid()) ==> Valid())
    {
      hide ControlPlaneOthello.Valid, Adjacent, IsForest, Partition, Words, SolvedIndex, SolvedValues, Holds, EdgeMap;
      hide Represents;
      var keys', values' := Resized(keys, n, 0), Resized(values, n, 0);
      var nextA', nextB' := Resized(nextAtA, n, Cell(0, 0)), Resized(nextAtB, n, Cell(0, 0));
      HoldsGrow(keys, values, keys', values', keyCnt, contents);
      ghost var valid := Valid();
      if valid {
        BeforeGrow(keys', values', nextA', nextB');
      }
      keys, values, nextAtA, nextAtB := keys', values', nextA', nextB';
      if valid {
        ValidFromParts();
      }
    }

    /** A build, as a question about the set of keys. */
    method BuildKeys() returns (ok: bool)
      requires Shape() && |connectivityForest.mem| == ma + mb && Holds(keys, values, keyCnt, contents)
      requires DistinctKeys(keys, keyCnt)
      modifies this`seed, this`drawn, this`mem, this`indMem, this`head, this`nextAtA, this`nextAtB, this`chains,
          connectivityForest
      ensures ok ==> Valid()
      ensures var next := Reseeded(GrowthRules(), old(LayoutNow()), contents.Keys);
              (ok <==> next.Some?) && (ok ==> LayoutNow() == next.value)
    {
      hide ControlPlaneOthello.Valid, Holds, IsForest, EdgeMap, Words, DistinctKeys, SeedFits, Reseeded;
      hide ControlPlaneOthello.Attempt, ZeroRoots;
      ghost var last;
      ghost var s := LayoutNow();
      ok, last := Build();
      AttemptsByKey(s.drawn);
      if ok {
        assert FirstSeed(hash, draw, s.drawn, last, ma, mb, contents.Keys);
        ReseededIs(GrowthRules(), s, contents.Keys, last);
        assert LayoutNow() == s.(seed := draw(s.drawn + 2 * last), drawn := s.drawn + 2 * last + 2);
      } else {
        ReseededWhen(GrowthRules(), s, contents.Keys);
        forall t: nat | t < MAX_REHASH ensures !SeedFits(hash, draw, s.drawn, t, ma, mb, contents.Keys) {
          assert !Attempt(s.drawn, t);
        }
        assert !SomeSeedFits(hash, draw, s.drawn, ma, mb, contents.Keys);
      }
    }

    /** New sizes for both node arrays, and a build. */
    method Rehash(nextMa: nat, nextMb: nat) returns (ok: bool)
      requires Store() && nextMa > 0 && nextMb > 0 && nextMa + nextMb + WORD - 1 < WRAP32
      requires Words(mem) && DistinctKeys(keys, keyCnt)
      modifies this, connectivityForest
      ensures ok ==> Valid()
      ensures var next := Reseeded(GrowthRules(), old(LayoutNow()).(ma := nextMa, mb := nextMb), contents.Keys);
              (ok <==> next.Some?) && (ok ==> LayoutNow() == next.value)
      ensures keys == old(keys) && contents == old(contents) && keyCnt == old(keyCnt)
    {
      hide ControlPlaneOthello.Valid, Holds, IsForest, EdgeMap, Words, DistinctKeys, Reseeded;
      Reallocate(nextMa, nextMb);
      ok := BuildKeys();
    }

    method Reallocate(nextMa: nat, nextMb: nat)
      requires Store() && nextMa > 0 && nextMb > 0 && nextMa + nextMb + WORD - 1 < WRAP32
      requires Words(mem)
      modifies this`ma, this`mb, this`mem, this`indMem, this`head, this`chains, connectivityForest
      ensures Shape() && |connectivityForest.mem| == ma + mb && ma == nextMa && mb == nextMb
    {
      hide Holds, Words, Resized;
      ma, mb := nextMa, nextMb;
      var n := ma + mb;
      WordsResized(mem, WordsFor(1, n));
      mem := Resized(mem, WordsFor(1, n), 0);
      indMem := Resized(indMem, n, 0);
      head := Resized(head, n, Cell(0, 0));
      chains := seq(n, i => []);
      connectivityForest.Resize(n);
    }

    lemma NoWords()
      ensures mem == [] ==> Words(mem)
      ensures Valid() ==> ma > 0
    {
    }

    /** `resizeKey`; false stands for the exceptions of the source, which come exactly when the
        capacity is too small for the keys or new sizes are due and no seed fits them. */
    method ResizeKey(capacity: nat, compact: bool) returns (ok: bool)
      requires Store() && (Valid() || (ma == 0 && keyCnt == 0 && mem == [])) && Scales(scaleMa)
      requires 0 < minimalKeyCapacity <= SIZE_LIMIT && capacity <= SIZE_LIMIT
      modifies this, connectivityForest
      ensures ok ==> Valid() && |keys| >= capacity && |keys| >= |old(keys)|
      ensures var next := Enlarged(GrowthRules(), old(LayoutNow()), contents.Keys, capacity, compact);
              (ok <==> next.Some?) && (ok ==> LayoutNow() == next.value)
      ensures contents == old(contents) && keyCnt == old(keyCnt)
      ensures old(ma) == 0 ==> ok
    {
      hide ControlPlaneOthello.Valid, Holds, Words, Reseeded, ControlPlaneOthello.Store, Scales, Doubled;
      if ma > 0 {
        ValidIsStore();
      }
      CountedKeys();
      NoWords();
      var targetCapacity := if capacity > minimalKeyCapacity then capacity else minimalKeyCapacity;
      if targetCapacity < keyCnt {
        return false;
      }
      var nextMb := SizeB(targetCapacity, compact);
      ScaledSizes(scaleMa, nextMb);
      if targetCapacity > |keys| {
        GrowArrays(if targetCapacity * 2 > 256 then targetCapacity * 2 else 256);
      }
      ok := ResizeNodes(nextMb);
    }

    /** New sizes for the node arrays, if they are due. */
    method ResizeNodes(nextMb: nat) returns (ok: bool)
      requires Store() && (Valid() || (ma == 0 && keyCnt == 0 && mem == []))
      requires nextMb > 0 && 0 < scaleMa(nextMb) && scaleMa(nextMb) + nextMb + WORD - 1 < WRAP32
      modifies this, connectivityForest
      ensures ok ==> Valid()
      ensures var nextMa := scaleMa(nextMb);
              var next := if nextMa > old(ma) || 10 * nextMa < 8 * old(ma)
                          then Reseeded(GrowthRules(), old(LayoutNow()).(ma := nextMa, mb := nextMb), contents.Keys)
                          else Some(old(LayoutNow()));
              (ok <==> next.Some?) && (ok ==> LayoutNow() == next.value)
      ensures keys == old(keys) && contents == old(contents) && keyCnt == old(keyCnt)
      ensures old(ma) == 0 ==> ok
    {
      hide ControlPlaneOthello.Valid, Holds, IsForest, EdgeMap, Words, DistinctKeys, KeySet, KeysFit, Reseeded;
      if ma > 0 {
        ValidIsStore();
        StoredFit();
      }
      NoWords();
      var nextMa := scaleMa(nextMb);
      ok := true;
      if nextMa > ma || 10 * nextMa < 8 * ma {
        if keyCnt == 0 { EmptyFits(nextMa, nextMb); }
        ok := Rehash(nextMa, nextMb);
      }
    }

    lemma CountedKeys()
      requires Store()
      ensures keyCnt <= |keys| <= NIL
    {
    }

    lemma EmptyFits(nextMa: nat, nextMb: nat)
      requires keyCnt == 0 && Store()
      ensures DistinctKeys(keys, keyCnt)
      ensures Reseeded(GrowthRules(), LayoutNow().(ma := nextMa, mb := nextMb), contents.Keys).Some?
    {
      hide Reseeded;
      HeldKeys(keys, values, keyCnt, contents);
      assert contents.Keys == {};
      EmptyReseeded(GrowthRules(), LayoutNow().(ma := nextMa, mb := nextMb));
    }

    /** The doubling loop. */
    method SizeB(target: nat, compact: bool) returns (nextMb: nat)
      requires 0 < minimalKeyCapacity <= target
      ensures nextMb == if compact then target else Doubled(minimalKeyCapacity, target)
      ensures minimalKeyCapacity <= nextMb < 2 * target
    {
      nextMb := if compact then target else minimalKeyCapacity;
      while nextMb < target
        invariant minimalKeyCapacity <= nextMb < 2 * target && (compact ==> nextMb == target)
        invariant !compact ==> Doubled(nextMb, target) == Doubled(minimalKeyCapacity, target)
        decreases target - nextMb
      {
        nextMb := 2 * nextMb;
      }
    }

    /** `insert`: grows the arrays when they are full and rebuilds when the key closes a
        cycle; false stands for the exceptions of the source. */
    method Insert(k: Key, v: nat) returns (ok: bool)
      requires Valid() && k !in contents && Scales(scaleMa)
      requires 0 < minimalKeyCapacity <= SIZE_LIMIT && keyCnt + 1 <= SIZE_LIMIT
      modifies this, connectivityForest
      ensures var next := Grown(GrowthRules(), old(LayoutNow()), old(contents.Keys), k);
              (ok <==> next.Some?) && (ok ==> LayoutNow() == next.value)
      ensures ok ==> Valid() && contents == old(contents)[k := v] && keyCnt == old(keyCnt) + 1
      ensures ok ==> |keys| >= |old(keys)|
    {
      hide ControlPlaneOthello.Valid, EdgeMap, Holds, Attached, Enlarged;
      ValidIsStore();
      if keyCnt + 1 >= |keys| || keyCnt >= mb {
        ok := ResizeKey(keyCnt + 1, false);
        if !ok {
          return;
        }
      }
      ok := InsertOrBuild(k, v);
    }

    /** `insert` once there is room: a cycle makes it build anew. */
    method InsertOrBuild(k: Key, v: nat) returns (ok: bool)
      requires Valid() && k !in contents && keyCnt < |keys|
      modifies this, connectivityForest
      ensures var next := Attached(GrowthRules(), old(LayoutNow()), old(contents.Keys), k);
              (ok <==> next.Some?) && (ok ==> LayoutNow() == next.value)
      ensures ok ==> Valid() && contents == old(contents)[k := v] && keyCnt == old(keyCnt) + 1
      ensures |keys| == |old(keys)|
    {
      hide ControlPlaneOthello.Valid, ControlPlaneOthello.Linkage, Linked, SolvedValues, SolvedIndex, Represents;
      hide Patched;
      hide Words, EdgeMap, Holds, KeysFit, Reseeded, DistinctKeys, Indices;
      hide ControlPlaneOthello.UnionFindExact, ControlPlaneOthello.ListsExact, IsForest;
      ghost var g := G();
      var lastIndex := keyCnt;
      var e := Ends(k);
      NewKeyFits(k);
      BeforeInsert(k, v, []);
      ValidIsStore();
      StillDistinct(k);
      keyCnt := keyCnt + 1;
      keys := keys[lastIndex := k];
      values := values[lastIndex := v];
      contents := contents[k := v];
      assert contents.Keys == old(contents).Keys + {k};
      ok := AttachOrBuild(lastIndex, e, g);
    }

    /** The last key gets its edge, or a build if the edge closes a cycle. */
    method AttachOrBuild(i: nat, e: Edge, ghost g: Graph) returns (ok: bool)
      requires Shape() && Linkage(g) && i !in g && i < |keys| && G() == g[i := e]
      requires e.a < ma <= e.b < ma + mb
      requires SolvedValues(mem, g[i := e] - {i}, values) && SolvedIndex(indMem, g[i := e] - {i})
      requires Holds(keys, values, keyCnt, contents) && DistinctKeys(keys, keyCnt)
      modifies this`seed, this`drawn, this`mem, this`indMem, this`head, this`nextAtA, this`nextAtB, this`chains
      modifies connectivityForest
      ensures ok ==> Valid()
      ensures var next := if Linked(g, e.a, e.b) then Reseeded(GrowthRules(), old(LayoutNow()), contents.Keys)
                          else Some(old(LayoutNow()));
              (ok <==> next.Some?) && (ok ==> LayoutNow() == next.value)
    {
      hide ControlPlaneOthello.Valid, ControlPlaneOthello.Linkage;
      hide Linked, SolvedValues, SolvedIndex, Represents, Patched;
      hide Words, EdgeMap, Holds, Reseeded, DistinctKeys, OneSide, OneSideIndex;
      var flips;
      ok, flips := AttachOrRefuse(i, e, [], g);
      if !ok {
        ok := BuildKeys();
      }
    }

    lemma StillDistinct(k: Key)
      requires Valid() && k !in contents && keyCnt < |keys|
      ensures DistinctKeys(keys[keyCnt := k], keyCnt + 1)
    {
      hide Adjacent, IsForest, Partition, Words, SolvedIndex, SolvedValues, EdgeMap, KeysFit;
      StoredFit();
    }

    lemma LinkageSizes(g: Graph)
      requires Linkage(g)
      ensures |connectivityForest.mem| == ma + mb
    {
    }
  }
}
