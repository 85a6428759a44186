/** The intrusive linked lists of incident keys: `head[u]` starts the list of node `u`,
    and the vector `next` of u's side continues it.  A ghost chain names the keys. */
module Adjacency {
  import opened Forest

  datatype Cell = Cell(keyId: nat, nodeId: nat)

  /** `uint32_t(-1)`, the end of a list. */
  const NIL: nat := 0xFFFF_FFFF

  const NIL_CELL := Cell(NIL, NIL)

  /** The cell that leads to position `j` of chain `c` of node `u`. */
  ghost function CellAt(c: seq<nat>, j: nat, g: Graph, u: nat): Cell
    requires j < |c| ==> c[j] in g
  {
    if j < |c| then Cell(c[j], Far(g[c[j]], u)) else NIL_CELL
  }

  /** The slot of the key at position `j` leads to position `j + 1`. */
  ghost predicate Follows(next: seq<Cell>, c: seq<nat>, j: nat, g: Graph, u: nat)
    requires forall k :: 0 <= k < |c| ==> c[k] in g && c[k] < |next|
    requires j < |c|
  {
    next[c[j]] == CellAt(c, j + 1, g, u)
  }

  /** `first` and `next` spell out chain `c`. */
  ghost predicate IsChain(first: Cell, next: seq<Cell>, c: seq<nat>, g: Graph, u: nat) {
    && (forall j :: 0 <= j < |c| ==> c[j] in g && c[j] < |next|)
    && first == CellAt(c, 0, g, u)
    && (forall j :: 0 <= j < |c| ==> Follows(next, c, j, g, u))
  }

  /** `c` lists every live key incident to `u` exactly once. */
  ghost predicate Lists(c: seq<nat>, g: Graph, u: nat) {
    && (forall i, j :: 0 <= i < j < |c| ==> c[i] != c[j])
    && (forall i :: i in c <==> i in g && Touches(g[i], u))
  }

  /** Every edge has exactly one end among the nodes `lo .. hi`, and its id is no `NIL`. */
  ghost predicate OneEnd(g: Graph, lo: nat, hi: nat) {
    forall i :: i in g ==> i < NIL && ((lo <= g[i].a < hi) != (lo <= g[i].b < hi)) && g[i].a != g[i].b
  }

  /** The lists of the nodes `lo .. hi`, all kept in `next`, are exact. */
  ghost predicate Side(head: seq<Cell>, next: seq<Cell>, chains: seq<seq<nat>>, g: Graph, lo: nat, hi: nat) {
    && lo <= hi <= |head| == |chains|
    && OneEnd(g, lo, hi)
    && (forall u :: lo <= u < hi ==> IsChain(head[u], next, chains[u], g, u) && Lists(chains[u], g, u))
  }

  /** No two lists of one side share a key. */
  lemma SideDisjoint(head: seq<Cell>, next: seq<Cell>, chains: seq<seq<nat>>, g: Graph, lo: nat, hi: nat, u: nat,
      v: nat, i: nat)
    requires Side(head, next, chains, g, lo, hi) && lo <= u < hi && lo <= v < hi
    requires i in chains[u] && i in chains[v]
    ensures u == v
  {
  }

  /** A list is unaffected by changes outside its own slots and edges. */
  lemma KeepChain(first: Cell, next: seq<Cell>, next': seq<Cell>, c: seq<nat>, g: Graph, g': Graph, u: nat)
    requires IsChain(first, next, c, g, u) && Lists(c, g, u) && |next'| >= |next|
    requires forall i :: i in c ==> i < |next| && next'[i] == next[i] && i in g' && g'[i] == g[i]
    requires forall i :: i in g' && Touches(g'[i], u) ==> i in g && g'[i] == g[i]
    ensures IsChain(first, next', c, g', u) && Lists(c, g', u)
  {
    hide Far, Touches;
    forall j | 0 <= j < |c| ensures c[j] in g' && Follows(next, c, j, g, u) {
      assert c[j] in c;
    }
    forall j | 0 <= j < |c| ensures Follows(next', c, j, g', u) {
      assert c[j] in c && Follows(next, c, j, g, u);
    }
  }

  lemma PushChain(first: Cell, next: seq<Cell>, c: seq<nat>, g: Graph, u: nat, key: nat, e: Edge)
    requires IsChain(first, next, c, g, u) && Lists(c, g, u)
    requires key !in g && key < |next| && Touches(e, u)
    ensures IsChain(Cell(key, Far(e, u)), next[key := first], [key] + c, g[key := e], u)
    ensures Lists([key] + c, g[key := e], u)
  {
    hide Far, Touches;
    var c', g' := [key] + c, g[key := e];
    assert forall i :: i in c' <==> i == key || i in c;
    assert forall j :: 0 <= j < |c| ==> c[j] in c;
    forall j | 0 <= j < |c'| ensures c'[j] in g' && c'[j] < |next| {
      assert j > 0 ==> c'[j] == c[j - 1];
    }
    var next' := next[key := first];
    forall j | 0 <= j < |c'| ensures Follows(next', c', j, g', u) {
      if j > 0 {
        assert c'[j] == c[j - 1] && Follows(next, c, j - 1, g, u);
        assert j + 1 < |c'| ==> c'[j + 1] == c[j];
      } else {
        assert 1 < |c'| ==> c'[1] == c[0];
      }
    }
  }

  /** One end of `addEdge`: the new key goes to the front of the list of `u`. */
  lemma PushFront(head: seq<Cell>, next: seq<Cell>, chains: seq<seq<nat>>, g: Graph, lo: nat, hi: nat, key: nat,
      e: Edge, u: nat)
    requires Side(head, next, chains, g, lo, hi) && lo <= u < hi
    requires key !in g && key < |next| && key < NIL && Touches(e, u)
    requires OneEnd(g[key := e], lo, hi)
    ensures Side(head[u := Cell(key, Far(e, u))], next[key := head[u]],
                 chains[u := [key] + chains[u]], g[key := e], lo, hi)
  {
    hide IsChain, Lists;
    var g', head', next' := g[key := e], head[u := Cell(key, Far(e, u))], next[key := head[u]];
    var chains' := chains[u := [key] + chains[u]];
    forall v | lo <= v < hi
      ensures IsChain(head'[v], next', chains'[v], g', v) && Lists(chains'[v], g', v)
    {
      if v == u {
        PushChain(head[u], next, chains[u], g, u, key, e);
      } else {
        assert !Touches(e, v) by { assert key in g'; }
        ChainIds(head[v], next, chains[v], g, v);
        KeepChain(head[v], next, next', chains[v], g, g', v);
      }
    }
  }

  lemma ChainIds(first: Cell, next: seq<Cell>, c: seq<nat>, g: Graph, u: nat)
    requires IsChain(first, next, c, g, u) && Lists(c, g, u)
    ensures forall i :: i in c ==> i in g && i < |next| && Touches(g[i], u)
  {
  }

  /** The lists of one side do not read the heads of the other. */
  lemma SideFrame(head: seq<Cell>, next: seq<Cell>, chains: seq<seq<nat>>, g: Graph, lo: nat, hi: nat, head': seq<Cell>,
      chains': seq<seq<nat>>)
    requires Side(head, next, chains, g, lo, hi) && |head'| == |chains'| == |head|
    requires forall u :: lo <= u < hi ==> head'[u] == head[u] && chains'[u] == chains[u]
    ensures Side(head', next, chains', g, lo, hi)
  {
  }

  function Without(c: seq<nat>, p: nat): seq<nat>
    requires p < |c|
  {
    c[..p] + c[p + 1..]
  }

  ghost function Position(c: seq<nat>, key: nat): (p: nat)
    requires key in c
    ensures p < |c| && c[p] == key
  {
    var p :| 0 <= p < |c| && c[p] == key;
    p
  }

  lemma WithoutAt(c: seq<nat>, p: nat)
    requires p < |c|
    ensures |Without(c, p)| == |c| - 1
    ensures forall j :: 0 <= j < |c| - 1 ==> Without(c, p)[j] == c[if j < p then j else j + 1]
  {
  }

  lemma WithoutElements(c: seq<nat>, p: nat)
    requires p < |c| && forall i, j :: 0 <= i < j < |c| ==> c[i] != c[j]
    ensures forall i :: i in Without(c, p) <==> i in c && i != c[p]
  {
    var c' := Without(c, p);
    WithoutAt(c, p);
    hide Without;
    forall i | i in c && i != c[p] ensures i in c' {
      var j :| 0 <= j < |c| && c[j] == i;
      assert c'[if j < p then j else j - 1] == i;
    }
    forall i | i in c' ensures i in c && i != c[p] {
      var j :| 0 <= j < |c'| && c'[j] == i;
      assert c[if j < p then j else j + 1] == i;
    }
  }

  lemma WithoutLists(c: seq<nat>, g: Graph, u: nat, p: nat)
    requires Lists(c, g, u) && p < |c|
    ensures Lists(Without(c, p), g - {c[p]}, u)
  {
    hide Touches, Without;
    WithoutAt(c, p);
    WithoutElements(c, p);
  }

  lemma UnlinkChain(first: Cell, next: seq<Cell>, c: seq<nat>, g: Graph, u: nat, p: nat, next': seq<Cell>)
    requires IsChain(first, next, c, g, u) && Lists(c, g, u) && p < |c|
    requires next' == if p == 0 then next else next[c[p - 1] := next[c[p]]]
    ensures IsChain(if p == 0 then next[c[0]] else first, next', Without(c, p), g - {c[p]}, u)
  {
    var c', g' := Without(c, p), g - {c[p]};
    WithoutAt(c, p);
    hide Far, Touches, Without;
    forall j | 0 <= j < |c'| ensures c'[j] in g' && c'[j] < |next'| {
      assert c'[j] == c[if j < p then j else j + 1];
    }
    assert Follows(next, c, p, g, u) && (p > 0 ==> Follows(next, c, p - 1, g, u));
    forall j | 0 <= j < |c'| ensures Follows(next', c', j, g', u) {
      assert Follows(next, c, if j < p then j else j + 1, g, u);
      assert j + 1 < |c'| ==> c'[j + 1] == c[if j + 1 < p then j + 1 else j + 2];
    }
  }

  lemma UnlinkOther(first: Cell, next: seq<Cell>, c: seq<nat>, cu: seq<nat>, g: Graph, v: nat, p: nat, next': seq<Cell>)
    requires IsChain(first, next, c, g, v) && Lists(c, g, v) && p < |cu|
    requires forall i :: i in cu ==> i !in c
    requires |next'| == |next|
    requires forall i :: 0 <= i < |next| && (p > 0 ==> i != cu[p - 1]) ==> next'[i] == next[i]
    ensures IsChain(first, next', c, g - {cu[p]}, v) && Lists(c, g - {cu[p]}, v)
  {
    assert cu[p] in cu && (p > 0 ==> cu[p - 1] in cu);
    ChainIds(first, next, c, g, v);
    hide IsChain, Lists, Touches;
    KeepChain(first, next, next', c, g, g - {cu[p]}, v);
  }

  lemma UnlinkSide(head: seq<Cell>, next: seq<Cell>, chains: seq<seq<nat>>, g: Graph, lo: nat, hi: nat, u: nat, p: nat,
                   head': seq<Cell>, next': seq<Cell>)
    requires Side(head, next, chains, g, lo, hi) && lo <= u < hi && p < |chains[u]|
    requires forall j :: 0 <= j < |chains[u]| ==> chains[u][j] < |next|
    requires var c := chains[u];
             head' == if p == 0 then head[u := next[c[0]]] else head
    requires var c := chains[u];
             next' == if p == 0 then next else next[c[p - 1] := next[c[p]]]
    ensures Side(head', next', chains[u := Without(chains[u], p)], g - {chains[u][p]}, lo, hi)
  {
    var c := chains[u];
    var key := c[p];
    hide IsChain, Lists, Without, Touches, Far;
    assert OneEnd(g - {key}, lo, hi);
    hide OneEnd;
    var chains' := chains[u := Without(c, p)];
    forall v | lo <= v < hi
      ensures IsChain(head'[v], next', chains'[v], g - {key}, v) && Lists(chains'[v], g - {key}, v)
    {
      if v == u {
        UnlinkChain(head[u], next, c, g, u, p, next');
        WithoutLists(c, g, u, p);
      } else {
        SideApart(head, next, chains, g, lo, hi, u, v);
        UnlinkOther(head[v], next, chains[v], c, g, v, p, next');
      }
    }
  }

  lemma SideApart(head: seq<Cell>, next: seq<Cell>, chains: seq<seq<nat>>, g: Graph, lo: nat, hi: nat, u: nat, v: nat)
    requires Side(head, next, chains, g, lo, hi) && lo <= u < hi && lo <= v < hi && u != v
    ensures forall i :: i in chains[u] ==> i !in chains[v]
  {
    forall i | i in chains[u] ensures i !in chains[v] {
      if i in chains[v] { SideDisjoint(head, next, chains, g, lo, hi, u, v, i); }
    }
  }

  /** Taking the edge `keyId` out of the list of its end `u`. */
  method Unlink(head: seq<Cell>, next: seq<Cell>, u: nat, keyId: nat,
                ghost chains: seq<seq<nat>>, ghost g: Graph, ghost lo: nat, ghost hi: nat)
    returns (head': seq<Cell>, next': seq<Cell>, ghost chains': seq<seq<nat>>)
    requires Side(head, next, chains, g, lo, hi) && lo <= u < hi
    requires keyId in g && Touches(g[keyId], u)
    ensures Side(head', next', chains', g - {keyId}, lo, hi)
    ensures |head'| == |head| && |next'| == |next| && |chains'| == |chains| == |head|
    ensures forall v :: 0 <= v < |head| && v != u ==> head'[v] == head[v] && chains'[v] == chains[v]
  {
    ghost var c := chains[u];
    ghost var p := Position(c, keyId);
    assert IsChain(head[u], next, c, g, u) && Lists(c, g, u);
    hide Side;
    chains' := chains[u := Without(c, p)];
    head', next' := head, next;
    if head[u].keyId == keyId {
      head' := head[u := next[keyId]];
    } else {
      var t := head[u].keyId;
      ghost var j := 0;
      while next[t].keyId != keyId
        invariant 0 <= j < p && t == c[j]
        decreases p - j
      {
        assert Follows(next, c, j, g, u);
        t := next[t].keyId;
        j := j + 1;
      }
      assert Follows(next, c, j, g, u);
      next' := next[t := next[keyId]];
    }
    UnlinkSide(head, next, chains, g, lo, hi, u, p, head', next');
  }

  function Replaced(c: seq<nat>, p: nat, id: nat): seq<nat>
    requires p < |c|
  {
    c[p := id]
  }

  lemma RenameLists(c: seq<nat>, g: Graph, u: nat, p: nat, id: nat)
    requires Lists(c, g, u) && p < |c| && id !in g
    ensures Lists(Replaced(c, p, id), Rename(g, c[p], id), u)
  {
    var c', from := Replaced(c, p, id), c[p];
    hide Touches;
    assert id !in c && from in c;
    forall i ensures i in c' <==> i == id || (i in c && i != from) {
      if i == id { assert c'[p] == i; }
      if i in c && i != from {
        var j :| 0 <= j < |c| && c[j] == i;
        assert c'[j] == i;
      }
    }
    forall i, j | 0 <= i < j < |c'| ensures c'[i] != c'[j] {
      assert c[i] in c && c[j] in c;
    }
  }

  lemma RenameChain(first: Cell, next: seq<Cell>, c: seq<nat>, g: Graph, u: nat, p: nat, id: nat, next1: seq<Cell>,
      next': seq<Cell>)
    requires IsChain(first, next, c, g, u) && Lists(c, g, u) && p < |c| && id !in g && id < |next|
    requires next1 == next[id := next[c[p]]]
    requires next' == if p == 0 then next1 else next1[c[p - 1] := Cell(id, Far(g[c[p]], u))]
    ensures IsChain(if p == 0 then Cell(id, Far(g[c[0]], u)) else first, next', Replaced(c, p, id), Rename(g, c[p], id),
        u)
  {
    hide Far, Touches;
    var c', g' := Replaced(c, p, id), Rename(g, c[p], id);
    forall j | 0 <= j < |c'| ensures c'[j] in g' && c'[j] < |next'| {
      assert j != p ==> c[j] != c[p];
    }
    assert Follows(next, c, p, g, u) && (p > 0 ==> Follows(next, c, p - 1, g, u));
    forall j | 0 <= j < |c'| ensures Follows(next', c', j, g', u) {
      assert Follows(next, c, j, g, u);
      assert j != p ==> c[j] != c[p] && c[j] != id;
    }
  }

  lemma RenameElsewhere(c: seq<nat>, g: Graph, v: nat, from: nat, id: nat)
    requires Lists(c, g, v) && from in g && from !in c && id !in g
    ensures var g' := Rename(g, from, id);
            && (forall i :: i in c ==> i != id && i in g' && g'[i] == g[i])
            && (forall i :: i in g' && Touches(g'[i], v) ==> i in g && g'[i] == g[i])
  {
  }

  lemma RenameOther(first: Cell, next: seq<Cell>, c: seq<nat>, cu: seq<nat>, g: Graph, v: nat, p: nat, id: nat,
      next': seq<Cell>)
    requires IsChain(first, next, c, g, v) && Lists(c, g, v) && p < |cu| && cu[p] in g && id !in g
    requires forall i :: i in cu ==> i !in c
    requires |next'| == |next|
    requires forall i :: 0 <= i < |next| && i != id && (p > 0 ==> i != cu[p - 1]) ==> next'[i] == next[i]
    ensures IsChain(first, next', c, Rename(g, cu[p], id), v) && Lists(c, Rename(g, cu[p], id), v)
  {
    assert cu[p] in cu && (p > 0 ==> cu[p - 1] in cu);
    RenameElsewhere(c, g, v, cu[p], id);
    ChainIds(first, next, c, g, v);
    hide Rename, IsChain, Lists, Touches;
    KeepChain(first, next, next', c, g, Rename(g, cu[p], id), v);
  }

  lemma RenameSide(head: seq<Cell>, next: seq<Cell>, chains: seq<seq<nat>>, g: Graph, lo: nat, hi: nat, u: nat, p: nat,
      id: nat, head': seq<Cell>, next1: seq<Cell>, next': seq<Cell>)
    requires Side(head, next, chains, g, lo, hi) && lo <= u < hi && p < |chains[u]| && id !in g && id < |next|
        && id < NIL
    requires forall j :: 0 <= j < |chains[u]| ==> chains[u][j] in g && chains[u][j] < |next|
    requires var c := chains[u];
             head' == if p == 0 then head[u := Cell(id, Far(g[c[0]], u))] else head
    requires next1 == next[id := next[chains[u][p]]]
    requires var c := chains[u];
             next' == if p == 0 then next1 else next1[c[p - 1] := Cell(id, Far(g[c[p]], u))]
    ensures Side(head', next', chains[u := Replaced(chains[u], p, id)], Rename(g, chains[u][p], id), lo, hi)
  {
    var c := chains[u];
    var from := c[p];
    var g' := Rename(g, from, id);
    hide IsChain, Lists, Touches, Far;
    assert OneEnd(g', lo, hi);
    hide OneEnd, Rename;
    var chains' := chains[u := Replaced(c, p, id)];
    forall v | lo <= v < hi
      ensures IsChain(head'[v], next', chains'[v], g', v) && Lists(chains'[v], g', v)
    {
      if v == u {
        RenameChain(head[u], next, c, g, u, p, id, next1, next');
        RenameLists(c, g, u, p, id);
      } else {
        SideApart(head, next, chains, g, lo, hi, u, v);
        RenameOther(head[v], next, chains[v], c, g, v, p, id, next');
      }
    }
  }

  /** After the key `from` has moved to the free id `id`: its place in the list of its
      end `u`, whose opposite node is `far`, is handed over. */
  method Relink(head: seq<Cell>, next: seq<Cell>, u: nat, from: nat, id: nat, far: nat,
                ghost chains: seq<seq<nat>>, ghost g: Graph, ghost lo: nat, ghost hi: nat)
    returns (head': seq<Cell>, next': seq<Cell>, ghost chains': seq<seq<nat>>)
    requires Side(head, next, chains, g, lo, hi) && lo <= u < hi
    requires from in g && Touches(g[from], u) && far == Far(g[from], u)
    requires id !in g && id < |next| && id < NIL
    ensures Side(head', next', chains', Rename(g, from, id), lo, hi)
    ensures |head'| == |head| && |next'| == |next| && |chains'| == |chains| == |head|
    ensures forall v :: 0 <= v < |head| && v != u ==> head'[v] == head[v] && chains'[v] == chains[v]
  {
    ghost var c := chains[u];
    ghost var p := Position(c, from);
    assert IsChain(head[u], next, c, g, u) && Lists(c, g, u);
    hide Side, Far, Touches;
    chains' := chains[u := Replaced(c, p, id)];
    head', next' := head, next[id := next[from]];
    ghost var next1 := next';
    if head[u].keyId == from {
      head' := head[u := Cell(id, far)];
    } else {
      var t := head[u].keyId;
      ghost var j := 0;
      while next'[t].keyId != from
        invariant 0 <= j < p && t == c[j]
        decreases p - j
      {
        assert Follows(next, c, j, g, u) && c[j] != id;
        t := next'[t].keyId;
        j := j + 1;
      }
      assert Follows(next, c, j, g, u) && c[j] != id;
      next' := next'[t := Cell(id, far)];
    }
    RenameSide(head, next, chains, g, lo, hi, u, p, id, head', next1, next');
  }

  /** Both sides' lists are exact. */
  ghost predicate Adjacent(head: seq<Cell>, nextA: seq<Cell>, nextB: seq<Cell>, chains: seq<seq<nat>>, g: Graph,
      ma: nat, n: nat) {
    && |head| == |chains| == n && ma <= n && (forall i :: i in g ==> i < |nextA| && i < |nextB|)
    && Side(head, nextA, chains, g, 0, ma)
    && Side(head, nextB, chains, g, ma, n)
    && (forall i :: i in g ==> g[i].a < ma <= g[i].b < n)
  }

  lemma AdjacentAt(head: seq<Cell>, nextA: seq<Cell>, nextB: seq<Cell>, chains: seq<seq<nat>>, g: Graph, ma: nat,
      n: nat, u: nat)
    requires Adjacent(head, nextA, nextB, chains, g, ma, n) && u < n
    ensures u < |head| == |chains|
    ensures IsChain(head[u], if u < ma then nextA else nextB, chains[u], g, u) && Lists(chains[u], g, u)
    ensures forall i :: i in chains[u] ==> i in g && i < NIL && i < |nextA| && i < |nextB| && Far(g[i], u) < n
  {
  }

  /** `cell` leads to position `j` of the list of `u`. */
  ghost predicate Leads(c: seq<nat>, j: nat, g: Graph, u: nat, cell: Cell) {
    && j <= |c|
    && (j < |c| ==> c[j] in g)
    && cell == CellAt(c, j, g, u)
  }

  lemma FirstCell(head: seq<Cell>, nextA: seq<Cell>, nextB: seq<Cell>, chains: seq<seq<nat>>, g: Graph, ma: nat, n: nat,
      u: nat)
    requires Adjacent(head, nextA, nextB, chains, g, ma, n) && u < n
    ensures u < |head| == |chains| && Leads(chains[u], 0, g, u, head[u]) && Lists(chains[u], g, u)
  {
    AdjacentAt(head, nextA, nextB, chains, g, ma, n, u);
  }

  /** Reading a cell: the end of the list, or the next key with its far node. */
  lemma NextCell(head: seq<Cell>, nextA: seq<Cell>, nextB: seq<Cell>, chains: seq<seq<nat>>, g: Graph, ma: nat, n: nat,
      u: nat, j: nat, cell: Cell)
    requires Adjacent(head, nextA, nextB, chains, g, ma, n) && u < n == |chains|
    requires Leads(chains[u], j, g, u, cell)
    ensures j <= |chains[u]| && (cell.keyId == NIL <==> j == |chains[u]|)
    ensures j < |chains[u]| ==>
              && cell.keyId == chains[u][j] && cell.keyId < |nextA| && cell.keyId < |nextB| && cell.nodeId < n
              && Leads(chains[u], j + 1, g, u, if u < ma then nextA[cell.keyId] else nextB[cell.keyId])
  {
    AdjacentAt(head, nextA, nextB, chains, g, ma, n, u);
    if j < |chains[u]| {
      assert chains[u][j] in chains[u];
      assert Follows(if u < ma then nextA else nextB, chains[u], j, g, u);
    }
  }

  /** `addEdge`: the new key enters the lists of both its ends. */
  lemma AddBoth(head: seq<Cell>, nextA: seq<Cell>, nextB: seq<Cell>, chains: seq<seq<nat>>, g: Graph, ma: nat, n: nat,
      key: nat, e: Edge)
    requires Adjacent(head, nextA, nextB, chains, g, ma, n) && e.a < ma <= e.b < n
    requires key !in g && key < |nextA| && key < |nextB| && key < NIL
    ensures |head| == |chains| == n
    ensures Adjacent(head[e.a := Cell(key, e.b)][e.b := Cell(key, e.a)],
                     nextA[key := head[e.a]], nextB[key := head[e.b]],
                     chains[e.a := [key] + chains[e.a]][e.b := [key] + chains[e.b]], g[key := e], ma, n)
  {
    var g' := g[key := e];
    var head1, chains1 := head[e.a := Cell(key, e.b)], chains[e.a := [key] + chains[e.a]];
    var head2, chains2 := head1[e.b := Cell(key, e.a)], chains1[e.b := [key] + chains1[e.b]];
    var nextA', nextB' := nextA[key := head[e.a]], nextB[key := head1[e.b]];
    assert OneEnd(g', 0, ma) && OneEnd(g', ma, n) && Far(e, e.a) == e.b && Far(e, e.b) == e.a;
    hide IsChain, Lists, OneEnd, Far;
    PushFront(head, nextA, chains, g, 0, ma, key, e, e.a);
    SideFrame(head1, nextA', chains1, g', 0, ma, head2, chains2);
    SideFrame(head, nextB, chains, g, ma, n, head1, chains1);
    PushFront(head1, nextB, chains1, g, ma, n, key, e, e.b);
  }

  /** No keys, all lists empty. */
  lemma NoEdges(head: seq<Cell>, nextA: seq<Cell>, nextB: seq<Cell>, chains: seq<seq<nat>>, ma: nat, n: nat)
    requires |head| == |chains| == n && ma <= n
    requires forall u :: 0 <= u < n ==> head[u] == NIL_CELL && chains[u] == []
    ensures Adjacent(head, nextA, nextB, chains, map[], ma, n)
  {
  }

  /** Side lemmas put together for one whole update: the A-list first, then the B-list. */
  lemma BothSides(head: seq<Cell>, nextA: seq<Cell>, nextB: seq<Cell>, chains: seq<seq<nat>>, g: Graph, ma: nat, n: nat,
                  head1: seq<Cell>, chains1: seq<seq<nat>>, u: nat)
    requires Side(head, nextA, chains, g, 0, ma) && Side(head1, nextB, chains1, g, ma, n)
    requires |head| == |head1| == |chains| == |chains1| == n && ma <= u < n
    requires forall v :: 0 <= v < n && v != u ==> head1[v] == head[v] && chains1[v] == chains[v]
    requires forall i :: i in g ==> g[i].a < ma <= g[i].b < n && i < |nextA| && i < |nextB|
    ensures Adjacent(head1, nextA, nextB, chains1, g, ma, n)
  {
    SideFrame(head, nextA, chains, g, 0, ma, head1, chains1);
  }

  /** Longer `next` vectors carry the same lists. */
  lemma GrowNext(head: seq<Cell>, nextA: seq<Cell>, nextB: seq<Cell>, nextA': seq<Cell>, nextB': seq<Cell>,
      chains: seq<seq<nat>>, g: Graph, ma: nat, n: nat)
    requires Adjacent(head, nextA, nextB, chains, g, ma, n) && nextA <= nextA' && nextB <= nextB'
    ensures Adjacent(head, nextA', nextB', chains, g, ma, n)
  {
    forall u | 0 <= u < n
      ensures IsChain(head[u], if u < ma then nextA' else nextB', chains[u], g, u)
    {
      AdjacentAt(head, nextA, nextB, chains, g, ma, n, u);
      hide Adjacent, IsChain, Lists;
      KeepChain(head[u], if u < ma then nextA else nextB, if u < ma then nextA' else nextB', chains[u], g, g, u);
    }
  }
}
