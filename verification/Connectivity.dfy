/** The union-find of Othello mirrors the connectivity of its graph: after an edge is
    added, and after a deletion has re-rooted the two halves. */
module Connectivity {
  import opened DisjointSets
  import opened Forest

  /** Two nodes have the same representative exactly when they are connected. */
  ghost predicate Partition(rep: seq<nat>, g: Graph) {
    forall u, v :: 0 <= u < |rep| && 0 <= v < |rep| ==> (rep[u] == rep[v] <==> Linked(g, u, v))
  }

  lemma EmptyPartition(rep: seq<nat>)
    requires forall u :: 0 <= u < |rep| ==> rep[u] == u
    ensures Partition(rep, map[]) && IsForest(map[])
  {
    var g: Graph := map[];
    forall u, v | 0 <= u < |rep| && 0 <= v < |rep| ensures rep[u] == rep[v] <==> Linked(g, u, v) {
      if u != v {
        assert Closed(g, iset{u});
      }
    }
  }

  /** Merging the ends of a new edge. */
  lemma MergePartition(rep: seq<nat>, g: Graph, i: nat, e: Edge)
    requires Partition(rep, g) && i !in g && e.a < |rep| && e.b < |rep|
    ensures Partition(Merged(rep, e.a, e.b), g[i := e])
  {
    hide Linked;
    var rep', h := Merged(rep, e.a, e.b), g[i := e];
    forall u, v | 0 <= u < |rep'| && 0 <= v < |rep'|
      ensures rep'[u] == rep'[v] <==> Linked(h, u, v)
    {
      LinkedPlus(g, i, e, u, v);
      MergedSame(rep, e.a, e.b, u, v);
    }
  }

  lemma MergedSame(rep: seq<nat>, a: nat, b: nat, u: nat, v: nat)
    requires a < |rep| && b < |rep| && u < |rep| && v < |rep|
    ensures var r := Merged(rep, a, b);
            r[u] == r[v] <==>
                rep[u] == rep[v] || (rep[u] == rep[a] && rep[b] == rep[v]) || (rep[u] == rep[b] && rep[a] == rep[v])
  {
  }

  /** The parents after `connectBFS` from `root`: its whole component points to it. */
  ghost predicate Rerooted(mem: seq<int>, mem': seq<int>, g: Graph, root: nat) {
    && |mem'| == |mem|
    && forall u :: 0 <= u < |mem| ==> mem'[u] == if Linked(g, root, u) then root else mem[u]
  }

  ghost function SplitRep(rep: seq<nat>, g: Graph, e: Edge): (r: seq<nat>)
    ensures |r| == |rep|
  {
    seq(|rep|, u requires 0 <= u < |rep| =>
      if Linked(g, e.b, u) then e.b else if Linked(g, e.a, u) then e.a else rep[u])
  }

  ghost function SplitDepth(depth: seq<nat>, g: Graph, e: Edge): (r: seq<nat>)
    ensures |r| == |depth|
  {
    seq(|depth|, u requires 0 <= u < |depth| =>
      if u == e.a || u == e.b then 0 else if Linked(g, e.b, u) || Linked(g, e.a, u) then 1 else depth[u])
  }

  /** Where a node of the old component went, and that the halves do not meet. */
  lemma Halves(g: Graph, i: nat, u: nat, v: nat)
    requires IsForest(g) && i in g && Linked(g, u, v)
    ensures var k, e := g - {i}, g[i];
            && !(Linked(k, e.a, u) && Linked(k, e.b, u))
            && (Linked(k, e.a, u) || Linked(k, e.b, u) <==> Linked(k, e.a, v) || Linked(k, e.b, v))
  {
    var k, e := g - {i}, g[i];
    SplitComponent(g, i, u, v);
    SplitComponent(g, i, v, u);
    if Linked(k, e.a, u) && Linked(k, e.b, u) {
      LinkedSym(k, e.b, u);
    }
    LinkedSym(g, u, v);
  }

  /** Two `connectBFS` calls after the deletion of edge `i` restore the union-find. */
  lemma SplitPartition(mem: seq<int>, mem1: seq<int>, mem2: seq<int>, rep: seq<nat>, depth: seq<nat>, g: Graph, i: nat)
    requires Represents(mem, rep, depth) && Partition(rep, g) && IsForest(g)
    requires i in g && g[i].a < |rep| && g[i].b < |rep|
    requires Rerooted(mem, mem1, g - {i}, g[i].a) && Rerooted(mem1, mem2, g - {i}, g[i].b)
    ensures Partition(SplitRep(rep, g - {i}, g[i]), g - {i})
    ensures Represents(mem2, SplitRep(rep, g - {i}, g[i]), SplitDepth(depth, g - {i}, g[i]))
  {
    var k, e := g - {i}, g[i];
    var rep', depth' := SplitRep(rep, k, e), SplitDepth(depth, k, e);
    forall u, v | 0 <= u < |rep'| && 0 <= v < |rep'| ensures rep'[u] == rep'[v] <==> Linked(k, u, v) {
      SplitSame(rep, g, i, u, v);
    }
    forall u | 0 <= u < |mem2|
      ensures mem2[u] < |mem2| && rep'[u] < |mem2| && Top(mem2, rep'[u])
           && (Top(mem2, u) ==> rep'[u] == u)
           && (!Top(mem2, u) ==> rep'[mem2[u]] == rep'[u] && depth'[mem2[u]] < depth'[u] && depth'[rep'[u]] < depth'[u])
    {
      SplitNode(mem, mem1, mem2, rep, depth, g, i, u);
    }
  }

  lemma SplitSame(rep: seq<nat>, g: Graph, i: nat, u: nat, v: nat)
    requires Partition(rep, g) && IsForest(g) && i in g && g[i].a < |rep| && g[i].b < |rep| && u < |rep| && v < |rep|
    requires forall x :: 0 <= x < |rep| ==> rep[x] < |rep| && rep[rep[x]] == rep[x]
    ensures var r := SplitRep(rep, g - {i}, g[i]);
            r[u] == r[v] <==> Linked(g - {i}, u, v)
  {
    var k, e := g - {i}, g[i];
    SplitComponent(g, i, u, v);
    SplitComponent(g, i, v, u);
    Halves(g, i, u, u);
    Halves(g, i, v, v);
    Halves(g, i, e.a, e.a);
    Halves(g, i, e.b, e.b);
    assert Linked(k, e.a, e.a) && Linked(k, e.b, e.b);
    hide IsForest, Linked;
    assert rep[u] == rep[v] <==> Linked(g, u, v);
    assert rep[e.a] == rep[u] <==> Linked(g, e.a, u);
    assert rep[e.a] == rep[v] <==> Linked(g, e.a, v);
    assert rep[e.a] == rep[e.b] by {
      SplitComponent(g, i, e.b, e.b);
    }
  }

  lemma SplitNode(mem: seq<int>, mem1: seq<int>, mem2: seq<int>, rep: seq<nat>, depth: seq<nat>, g: Graph, i: nat,
      u: nat)
    requires Represents(mem, rep, depth) && Partition(rep, g) && IsForest(g) && u < |rep|
    requires i in g && g[i].a < |rep| && g[i].b < |rep|
    requires Rerooted(mem, mem1, g - {i}, g[i].a) && Rerooted(mem1, mem2, g - {i}, g[i].b)
    ensures var rep', depth' := SplitRep(rep, g - {i}, g[i]), SplitDepth(depth, g - {i}, g[i]);
            && mem2[u] < |mem2| && rep'[u] < |mem2| && Top(mem2, rep'[u])
            && (Top(mem2, u) ==> rep'[u] == u)
            && (!Top(mem2, u) ==>
                rep'[mem2[u]] == rep'[u] && depth'[mem2[u]] < depth'[u] && depth'[rep'[u]] < depth'[u])
  {
    var k, e := g - {i}, g[i];
    Halves(g, i, e.a, e.a);
    Halves(g, i, e.b, e.b);
    assert Linked(k, e.a, e.a) && Linked(k, e.b, e.b);
    if Linked(k, e.b, u) || Linked(k, e.a, u) {
    } else {
      assert Linked(g, u, rep[u]);
      Halves(g, i, u, rep[u]);
      if !Top(mem, u) {
        assert Linked(g, u, mem[u]);
        Halves(g, i, u, mem[u]);
      }
    }
  }

  ghost predicate SameLinks(g: Graph, h: Graph) {
    forall u, v :: Linked(g, u, v) <==> Linked(h, u, v)
  }

  lemma SplitOverRename(mem: seq<int>, mem1: seq<int>, mem2: seq<int>, rep: seq<nat>, depth: seq<nat>, g: Graph, i: nat,
      h: Graph)
    requires Represents(mem, rep, depth) && Partition(rep, g) && IsForest(g)
    requires i in g && g[i].a < |rep| && g[i].b < |rep| && SameLinks(g - {i}, h)
    requires Rerooted(mem, mem1, h, g[i].a) && Rerooted(mem1, mem2, h, g[i].b)
    ensures Partition(SplitRep(rep, g - {i}, g[i]), h)
    ensures Represents(mem2, SplitRep(rep, g - {i}, g[i]), SplitDepth(depth, g - {i}, g[i]))
  {
    hide Linked, Represents, SplitRep, SplitDepth, IsForest;
    SplitPartition(mem, mem1, mem2, rep, depth, g, i);
  }

  /** While a graph is being built: roots of the union-find are A-nodes (below `ma`), and
      every node with a key has a representative that is its own parent. */
  ghost predicate RootsInA(mem: seq<int>, rep: seq<nat>, g: Graph, ma: nat)
    requires |mem| == |rep|
  {
    && (forall x :: 0 <= x < |rep| && mem[x] == x ==> x < ma)
    && (forall x :: 0 <= x < |rep| && rep[x] != x ==> rep[x] < ma)
    && (forall i :: i in g ==> g[i].a < |rep| && rep[g[i].a] < |rep| && mem[rep[g[i].a]] == rep[g[i].a])
  }

  /** Adding an edge between two components, as `testHash` does, keeps roots in A. */
  lemma RootsStay(mem: seq<int>, mem1: seq<int>, mem2: seq<int>, rep: seq<nat>, g: Graph, ma: nat, i: nat, e: Edge)
    requires |mem| == |rep| && RootsInA(mem, rep, g, ma)
    requires e.a < ma && e.a < |rep| && e.b < |rep| && rep[e.a] != rep[e.b]
    requires forall x :: 0 <= x < |rep| ==> rep[x] < |rep|
    requires RootsTouched(mem, mem1, rep, e.a, e.b) && RootsMerged(mem1, mem2, rep, e.a, e.b)
    ensures |mem2| == |rep| && RootsInA(mem2, Merged(rep, e.a, e.b), g[i := e], ma)
  {
    assert rep[e.a] < ma;
  }
}
