/** The graph behind Othello: every live key is an edge between a node of array A and a
    node of array B.  Connectivity is defined by closed node sets, and a forest is a
    graph in which every edge is a bridge. */
module Forest {

  /** `a` indexes array A, `b` indexes array B (offset by the size of A). */
  datatype Edge = Edge(a: nat, b: nat)

  /** Live key ids with their edges. */
  type Graph = map<nat, Edge>

  predicate Touches(e: Edge, u: nat) {
    e.a == u || e.b == u
  }

  /** The other end of an edge. */
  function Far(e: Edge, u: nat): nat {
    if e.a == u then e.b else e.a
  }

  ghost predicate Closed(g: Graph, s: iset<nat>) {
    forall i :: i in g ==> (g[i].a in s <==> g[i].b in s)
  }

  /** `v` lies in every closed set around `u`: the two are connected. */
  ghost predicate Linked(g: Graph, u: nat, v: nat) {
    forall s: iset<nat> :: Closed(g, s) && u in s ==> v in s
  }

  /** The connected component of `u`. */
  ghost function Component(g: Graph, u: nat): iset<nat> {
    iset v: nat | Linked(g, u, v)
  }

  /** No cycles: taking an edge away always separates its ends. */
  ghost predicate IsForest(g: Graph) {
    forall i :: i in g ==> !Linked(g - {i}, g[i].a, g[i].b)
  }

  lemma LinkedSym(g: Graph, u: nat, v: nat)
    requires Linked(g, u, v)
    ensures Linked(g, v, u)
  {
    forall s: iset<nat> | Closed(g, s) && v in s ensures u in s {
      var outside := iset x: nat | x !in s;
      assert Closed(g, outside);
    }
  }

  lemma LinkedEdge(g: Graph, i: nat)
    requires i in g
    ensures Linked(g, g[i].a, g[i].b) && Linked(g, g[i].b, g[i].a)
  {
  }

  /** A graph with more edges (under whatever ids) links more. */
  lemma LinkedMono(g: Graph, h: Graph, u: nat, v: nat)
    requires Linked(g, u, v) && g.Values <= h.Values
    ensures Linked(h, u, v)
  {
    forall s: iset<nat> | Closed(h, s) && u in s ensures v in s {
      forall i | i in g ensures g[i].a in s <==> g[i].b in s {
        assert g[i] in h.Values;
        var j :| j in h && h[j] == g[i];
      }
      assert Closed(g, s);
    }
  }

  lemma SubValues(g: Graph, h: Graph)
    requires forall i :: i in g ==> i in h && h[i] == g[i]
    ensures g.Values <= h.Values
  {
    forall e | e in g.Values ensures e in h.Values {
      var i :| i in g && g[i] == e;
      assert i in h;
    }
  }

  /** A walk along the edges named in `p`. */
  ghost predicate Path(g: Graph, u: nat, v: nat, p: seq<nat>)
    decreases |p|
  {
    if p == [] then u == v
    else p[0] in g && Touches(g[p[0]], u) && Path(g, Far(g[p[0]], u), v, p[1..])
  }

  ghost predicate Reaches(g: Graph, u: nat, v: nat) {
    exists p :: Path(g, u, v, p)
  }

  lemma {:induction false} PathLinks(g: Graph, u: nat, v: nat, p: seq<nat>)
    requires Path(g, u, v, p)
    ensures Linked(g, u, v)
    decreases |p|
  {
    if p != [] {
      LinkedEdge(g, p[0]);
      PathLinks(g, Far(g[p[0]], u), v, p[1..]);
    }
  }

  lemma {:induction false} PathSnoc(g: Graph, u: nat, v: nat, p: seq<nat>, i: nat)
    requires Path(g, u, v, p) && i in g && Touches(g[i], v)
    ensures Path(g, u, Far(g[i], v), p + [i])
    decreases |p|
  {
    if p == [] {
      assert (p + [i])[1..] == [];
    } else {
      PathSnoc(g, Far(g[p[0]], u), v, p[1..], i);
      assert (p + [i])[1..] == p[1..] + [i];
    }
  }

  /** The closed-set definition is reachability along edges. */
  lemma LinkedIsPath(g: Graph, u: nat, v: nat)
    ensures Linked(g, u, v) <==> Reaches(g, u, v)
  {
    var s := iset x: nat | Reaches(g, u, x);
    assert Path(g, u, u, []);
    forall i | i in g ensures g[i].a in s <==> g[i].b in s {
      if Reaches(g, u, g[i].a) {
        var p :| Path(g, u, g[i].a, p);
        PathSnoc(g, u, g[i].a, p, i);
      }
      if Reaches(g, u, g[i].b) {
        var p :| Path(g, u, g[i].b, p);
        PathSnoc(g, u, g[i].b, p, i);
      }
    }
    assert Closed(g, s);
    if Reaches(g, u, v) {
      var p :| Path(g, u, v, p);
      PathLinks(g, u, v, p);
    }
  }

  lemma ComponentClosed(g: Graph, u: nat)
    ensures Closed(g, Component(g, u))
  {
    forall i | i in g ensures g[i].a in Component(g, u) <==> g[i].b in Component(g, u) {
      LinkedEdge(g, i);
    }
  }

  /** A set that is closed and whose members are all reachable is the component. */
  lemma ComponentIs(g: Graph, u: nat, s: iset<nat>)
    requires u in s && Closed(g, s) && forall x :: x in s ==> Linked(g, u, x)
    ensures s == Component(g, u)
  {
  }

  /** What one more edge connects. */
  lemma LinkedPlus(g: Graph, i: nat, e: Edge, u: nat, v: nat)
    requires i !in g
    ensures Linked(g[i := e], u, v) <==>
              || Linked(g, u, v)
              || (Linked(g, u, e.a) && Linked(g, e.b, v))
              || (Linked(g, u, e.b) && Linked(g, e.a, v))
  {
    var h := g[i := e];
    if Linked(h, u, v) && !Linked(g, u, v)
       && !(Linked(g, u, e.a) && Linked(g, e.b, v)) && !(Linked(g, u, e.b) && Linked(g, e.a, v)) {
      var s := if Linked(g, u, e.a) then Component(g, u) + Component(g, e.b)
               else if Linked(g, u, e.b) then Component(g, u) + Component(g, e.a)
               else Component(g, u);
      ComponentClosed(g, u);
      ComponentClosed(g, e.a);
      ComponentClosed(g, e.b);
      assert Closed(h, s);
    }
    if Linked(g, u, v) || (Linked(g, u, e.a) && Linked(g, e.b, v)) || (Linked(g, u, e.b) && Linked(g, e.a, v)) {
      LinkedPlusBack(g, i, e, u, v);
    }
  }

  lemma LinkedPlusBack(g: Graph, i: nat, e: Edge, u: nat, v: nat)
    requires i !in g
    requires || Linked(g, u, v)
             || (Linked(g, u, e.a) && Linked(g, e.b, v))
             || (Linked(g, u, e.b) && Linked(g, e.a, v))
    ensures Linked(g[i := e], u, v)
  {
    var h := g[i := e];
    SubValues(g, h);
    assert h[i] == e;
    LinkedEdge(h, i);
    if Linked(g, u, v) {
      LinkedMono(g, h, u, v);
    } else if Linked(g, u, e.a) && Linked(g, e.b, v) {
      LinkedMono(g, h, u, e.a);
      LinkedMono(g, h, e.b, v);
    } else {
      LinkedMono(g, h, u, e.b);
      LinkedMono(g, h, e.a, v);
    }
  }

  /** A forest stays one under another edge exactly when the edge joins two components. */
  lemma ForestPlus(g: Graph, i: nat, e: Edge)
    requires IsForest(g) && i !in g
    ensures IsForest(g[i := e]) <==> !Linked(g, e.a, e.b)
  {
    if Linked(g, e.a, e.b) {
      assert g[i := e] - {i} == g;
      assert i in g[i := e];
    } else {
      ForestGrows(g, i, e);
    }
  }

  lemma ForestGrows(g: Graph, i: nat, e: Edge)
    requires IsForest(g) && i !in g && !Linked(g, e.a, e.b)
    ensures IsForest(g[i := e])
  {
    var h := g[i := e];
    forall j | j in h ensures !Linked(h - {j}, h[j].a, h[j].b) {
      if j == i {
        assert h - {j} == g;
      } else {
        var k := g - {j};
        assert h - {j} == k[i := e];
        if Linked(h - {j}, g[j].a, g[j].b) {
          LinkedPlus(k, i, e, g[j].a, g[j].b);
          SubValues(k, g);
          LinkedEdge(g, j);
          BridgeBack(g, k, e, g[j].a, g[j].b);
        }
      }
    }
  }

  /** A part of a forest is a forest, whatever the ids of the edges. */
  lemma ForestPart(g: Graph, h: Graph)
    requires IsForest(h)
    requires forall i :: i in g ==> exists j :: j in h && h[j] == g[i] && (g - {i}).Values <= (h - {j}).Values
    ensures IsForest(g)
  {
    forall i | i in g ensures !Linked(g - {i}, g[i].a, g[i].b) {
      var j :| j in h && h[j] == g[i] && (g - {i}).Values <= (h - {j}).Values;
      if Linked(g - {i}, g[i].a, g[i].b) {
        LinkedMono(g - {i}, h - {j}, g[i].a, g[i].b);
      }
    }
  }

  lemma BridgeBack(g: Graph, k: Graph, e: Edge, a: nat, b: nat)
    requires k.Values <= g.Values && Linked(g, a, b) && Linked(g, b, a)
    requires (Linked(k, a, e.a) && Linked(k, e.b, b)) || (Linked(k, a, e.b) && Linked(k, e.a, b))
    ensures Linked(g, e.a, e.b)
  {
    if Linked(k, a, e.a) && Linked(k, e.b, b) {
      LinkedMono(k, g, a, e.a);
      LinkedMono(k, g, e.b, b);
      LinkedSym(g, a, e.a);
      LinkedSym(g, e.b, b);
    } else {
      LinkedMono(k, g, a, e.b);
      LinkedMono(k, g, e.a, b);
    }
  }

  /** Removing edges keeps a forest. */
  lemma ForestMinus(g: Graph, i: nat)
    requires IsForest(g)
    ensures IsForest(g - {i})
  {
    var h := g - {i};
    forall j | j in h ensures !Linked(h - {j}, h[j].a, h[j].b) {
      var e := h[j];
      if Linked(h - {j}, e.a, e.b) {
        SubValues(h - {j}, g - {j});
        LinkedMono(h - {j}, g - {j}, e.a, e.b);
      }
    }
  }

  /** The graph after the id `from` is reused under the name `id`. */
  function Rename(g: Graph, from: nat, id: nat): Graph
    requires from in g
  {
    (g - {from})[id := g[from]]
  }

  /** Renaming an edge changes neither connectivity nor being a forest. */
  lemma RenameKeeps(g: Graph, from: nat, id: nat)
    requires from in g && id !in g
    ensures forall u, v :: Linked(Rename(g, from, id), u, v) <==> Linked(g, u, v)
    ensures IsForest(g) ==> IsForest(Rename(g, from, id))
  {
    var h := Rename(g, from, id);
    assert h.Values == g.Values by {
      SubRename(g, from, id);
    }
    forall u, v ensures Linked(h, u, v) <==> Linked(g, u, v) {
      if Linked(h, u, v) { LinkedMono(h, g, u, v); }
      if Linked(g, u, v) { LinkedMono(g, h, u, v); }
    }
    if IsForest(g) {
      forall j | j in h ensures !Linked(h - {j}, h[j].a, h[j].b) {
        if j == id {
          assert h - {j} == g - {from};
        } else if Linked(h - {j}, h[j].a, h[j].b) {
          var k := g - {j};
          assert h - {j} == Rename(k, from, id);
          SubRename(k, from, id);
          LinkedMono(h - {j}, k, h[j].a, h[j].b);
        }
      }
    }
  }

  lemma SubRename(g: Graph, from: nat, id: nat)
    requires from in g && id !in g
    ensures Rename(g, from, id).Values == g.Values
  {
    var h := Rename(g, from, id);
    forall e | e in h.Values ensures e in g.Values {
      var i :| i in h && h[i] == e;
      assert g[if i == id then from else i] == e;
    }
    forall e | e in g.Values ensures e in h.Values {
      var i :| i in g && g[i] == e;
      assert h[if i == from then id else i] == e;
    }
  }

  /** Cutting edge `i` of a forest: the half at its A-end is closed in what remains and
      does not reach the B-end. */
  lemma HalfTree(g: Graph, i: nat)
    requires IsForest(g) && i in g
    ensures var half := Component(g - {i}, g[i].a);
            Closed(g - {i}, half) && g[i].a in half && g[i].b !in half
  {
    ComponentClosed(g - {i}, g[i].a);
  }

  /** How deletion of edge `i` splits a component: exactly into the two halves. */
  lemma SplitComponent(g: Graph, i: nat, u: nat, v: nat)
    requires i in g && IsForest(g)
    ensures var k := g - {i};
            Linked(g, g[i].a, u) <==> Linked(k, g[i].a, u) || Linked(k, g[i].b, u)
    ensures var k := g - {i};
            Linked(k, u, v) <==>
              Linked(g, u, v) && (Linked(k, g[i].a, u) <==> Linked(k, g[i].a, v))
                              && (Linked(k, g[i].b, u) <==> Linked(k, g[i].b, v))
  {
    var k, e := g - {i}, g[i];
    assert g == k[i := e];
    LinkedPlus(k, i, e, e.a, u);
    LinkedPlus(k, i, e, u, v);
    SubValues(k, g);
    if Linked(k, u, v) {
      LinkedMono(k, g, u, v);
      LinkedSym(k, u, v);
    } else if Linked(g, u, v) {
      if Linked(k, u, e.a) {
        LinkedSym(k, u, e.a);
        LinkedSym(k, u, e.a);
      }
      if Linked(k, u, e.b) { LinkedSym(k, u, e.b); }
    }
  }
}
