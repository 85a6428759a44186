/** The explicit-stack depth-first search that Othello runs over a tree: started at a
    root, optionally kept from crossing one edge, it meets every node of the component
    exactly once.  `seen` and `used` are the nodes and keys met so far. */
module Walks {
  import opened Forest
  import opened Adjacency

  /** A stack entry: the key through which the node was reached, and the node. */
  datatype Item = Item(prev: nat, node: nat)

  function Restrict(g: Graph, used: set<nat>): Graph {
    map i | i in g && i in used :: g[i]
  }

  /** The used keys touching the node of a pending item are at most the one it came by. */
  ghost predicate Pending(g: Graph, root: nat, skip: nat, used: set<nat>, it: Item) {
    && (forall i :: i in used && i in g && Touches(g[i], it.node) ==> i == it.prev)
    && (it.prev in used || (it.prev == skip && it.node == root))
    && (it.node == root ==> it.prev == skip)
  }

  ghost predicate Done(g: Graph, skip: nat, used: set<nat>, x: nat) {
    forall i :: i in g && i != skip && Touches(g[i], x) ==> i in used
  }

  ghost predicate OnStack(stack: seq<Item>, x: nat) {
    exists j :: 0 <= j < |stack| && stack[j].node == x
  }

  ghost function ISet(s: set<nat>): iset<nat> {
    iset x | x in s
  }

  /** `busy` holds the node taken off the stack whose list is being scanned, if any. */
  ghost predicate Walk(g: Graph, root: nat, skip: nat, seen: set<nat>, used: set<nat>, stack: seq<Item>,
      busy: set<nat>) {
    && root in seen && busy <= seen
    && (forall i :: i in used ==> i in g && i != skip && g[i].a in seen && g[i].b in seen)
    && (forall x :: x in seen ==> Linked(Restrict(g, used), root, x))
    && (forall j :: 0 <= j < |stack| ==>
        stack[j].node in seen && stack[j].node !in busy && Pending(g, root, skip, used, stack[j]))
    && (forall j, k :: 0 <= j < k < |stack| ==> stack[j].node != stack[k].node)
    && (forall x :: x in seen && x !in busy && !OnStack(stack, x) ==> Done(g, skip, used, x))
  }

  /** The first `j` keys of the list of `nid` have been dealt with. */
  ghost predicate Scan(g: Graph, root: nat, skip: nat, used: set<nat>, it: Item, c: seq<nat>, j: nat) {
    && j <= |c|
    && (forall i :: i in used && i in g && Touches(g[i], it.node) ==> i == it.prev || i in c[..j])
    && (forall k :: 0 <= k < j ==> c[k] == it.prev || c[k] in used)
    && (it.prev in used || (it.prev == skip && it.node == root))
    && (it.node == root ==> it.prev == skip)
  }

  /** The edge kept from being crossed touches the root. */
  ghost predicate SkipsAt(g: Graph, root: nat, skip: nat) {
    && (skip in g ==> Touches(g[skip], root))
    && (forall i :: i in g ==> g[i].a != g[i].b)
  }

  lemma StartWalk(g: Graph, root: nat, skip: nat)
    ensures Walk(g, root, skip, {root}, {}, [Item(skip, root)], {})
  {
    var stack := [Item(skip, root)];
    assert stack[0].node == root;
    assert OnStack(stack, root);
  }

  lemma TopSeen(g: Graph, root: nat, skip: nat, seen: set<nat>, used: set<nat>, stack: seq<Item>)
    requires Walk(g, root, skip, seen, used, stack, {}) && stack != []
    ensures stack[|stack| - 1].node in seen
  {
  }

  lemma PopWalk(g: Graph, root: nat, skip: nat, seen: set<nat>, used: set<nat>, stack: seq<Item>)
    requires Walk(g, root, skip, seen, used, stack, {}) && stack != []
    ensures var it := stack[|stack| - 1];
            && it.node in seen
            && Walk(g, root, skip, seen, used, stack[..|stack| - 1], {it.node})
            && forall c {:trigger Scan(g, root, skip, used, it, c, 0)} :: Scan(g, root, skip, used, it, c, 0)
  {
    hide Linked, Done, Touches, Restrict;
    var last := |stack| - 1;
    var it, rest := stack[last], stack[..last];
    forall x | x in seen && x !in {it.node} && !OnStack(rest, x) ensures Done(g, skip, used, x) {
      OnStackSnoc(rest, it, x);
      assert rest + [it] == stack;
    }
  }

  lemma OnStackSnoc(stack: seq<Item>, it: Item, x: nat)
    ensures OnStack(stack + [it], x) <==> OnStack(stack, x) || x == it.node
  {
    var stack' := stack + [it];
    if OnStack(stack, x) {
      var k :| 0 <= k < |stack| && stack[k].node == x;
      assert stack'[k].node == x;
    }
    assert stack'[|stack|] == it;
  }

  /** The search only ever crosses a bridge once: the far node is new. */
  lemma FarIsNew(g: Graph, root: nat, skip: nat, seen: set<nat>, used: set<nat>, stack: seq<Item>, it: Item,
      c: seq<nat>, j: nat)
    requires IsForest(g) && SkipsAt(g, root, skip)
    requires Walk(g, root, skip, seen, used, stack, {it.node}) && Scan(g, root, skip, used, it, c, j)
    requires Lists(c, g, it.node) && j < |c| && c[j] != it.prev
    ensures c[j] in g && Touches(g[c[j]], it.node) && c[j] != skip && c[j] !in used
    ensures Far(g[c[j]], it.node) !in seen
  {
    var i := c[j];
    assert i in c;
    var e := g[i];
    var r := Restrict(g, used);
    assert i !in used by {
      assert i !in c[..j];
    }
    if i == skip || Far(e, it.node) in seen {
      // then both ends of `i` are joined without crossing it
      assert Linked(r, root, it.node);
      var far := Far(e, it.node);
      assert Linked(r, root, far) by {
        if i == skip && far == root {
          assert Linked(r, root, root);
        }
      }
      LinkedSym(r, root, it.node);
      LinkedSym(r, root, far);
      assert Linked(r, e.a, e.b);
      SubValues(r, g - {i});
      LinkedMono(r, g - {i}, e.a, e.b);
    }
  }

  lemma PushWalk(g: Graph, root: nat, skip: nat, seen: set<nat>, used: set<nat>, stack: seq<Item>, it: Item,
      c: seq<nat>, j: nat)
    requires IsForest(g) && SkipsAt(g, root, skip)
    requires Walk(g, root, skip, seen, used, stack, {it.node}) && Scan(g, root, skip, used, it, c, j)
    requires Lists(c, g, it.node) && j < |c| && c[j] != it.prev
    ensures c[j] in g
    ensures var far := Far(g[c[j]], it.node);
            && Walk(g, root, skip, seen + {far}, used + {c[j]}, stack + [Item(c[j], far)], {it.node})
            && Scan(g, root, skip, used + {c[j]}, it, c, j + 1)
  {
    FarIsNew(g, root, skip, seen, used, stack, it, c, j);
    var i := c[j];
    var far := Far(g[i], it.node);
    var seen', used', stack' := seen + {far}, used + {i}, stack + [Item(i, far)];
    PushLinks(g, root, seen, used, i, it.node);
    PushScan(g, root, skip, used, it, c, j);
    PushPending(g, root, skip, seen, used, stack, it, i, far);
    PushDone(g, root, skip, seen, used, stack, it, i, far);
    hide Linked, Restrict, Touches, Far, Scan, Pending, Done, OnStack, IsForest, Lists, SkipsAt;
  }

  /** Following a cell to a node not reached through it: the node is new. */
  lemma Meet(g: Graph, root: nat, skip: nat, seen: set<nat>, used: set<nat>, stack: seq<Item>, it: Item, c: seq<nat>,
      j: nat, cell: Cell)
    requires IsForest(g) && SkipsAt(g, root, skip)
    requires Walk(g, root, skip, seen, used, stack, {it.node}) && Scan(g, root, skip, used, it, c, j)
    requires Lists(c, g, it.node) && Leads(c, j, g, it.node, cell) && j < |c| && cell.keyId != it.prev
    ensures cell.nodeId !in seen
    ensures cell.keyId in g && Touches(g[cell.keyId], it.node) && cell.nodeId == Far(g[cell.keyId], it.node)
    ensures cell.keyId !in used
    ensures Walk(g, root, skip, seen + {cell.nodeId}, used + {cell.keyId}, stack + [Item(cell.keyId, cell.nodeId)],
        {it.node})
    ensures Scan(g, root, skip, used + {cell.keyId}, it, c, j + 1)
  {
    FarIsNew(g, root, skip, seen, used, stack, it, c, j);
    PushWalk(g, root, skip, seen, used, stack, it, c, j);
  }

  lemma PushScan(g: Graph, root: nat, skip: nat, used: set<nat>, it: Item, c: seq<nat>, j: nat)
    requires Scan(g, root, skip, used, it, c, j) && j < |c|
    ensures Scan(g, root, skip, used + {c[j]}, it, c, j + 1)
  {
    hide Touches;
    assert c[..j + 1] == c[..j] + [c[j]];
  }

  lemma PushDone(g: Graph, root: nat, skip: nat, seen: set<nat>, used: set<nat>, stack: seq<Item>, it: Item, i: nat,
      far: nat)
    requires Walk(g, root, skip, seen, used, stack, {it.node})
    ensures forall x :: x in seen + {far} && x !in {it.node} && !OnStack(stack + [Item(i, far)], x) ==>
        Done(g, skip, used + {i}, x)
  {
    hide Linked, Restrict, Pending, OnStack;
    forall x | x in seen + {far} && x !in {it.node} && !OnStack(stack + [Item(i, far)], x)
      ensures Done(g, skip, used + {i}, x)
    {
      OnStackSnoc(stack, Item(i, far), x);
      assert Done(g, skip, used, x);
    }
  }

  lemma PushPending(g: Graph, root: nat, skip: nat, seen: set<nat>, used: set<nat>, stack: seq<Item>, it: Item, i: nat,
      far: nat)
    requires Walk(g, root, skip, seen, used, stack, {it.node})
    requires i in g && Touches(g[i], it.node) && far == Far(g[i], it.node) && far !in seen && g[i].a != g[i].b
    ensures forall k :: 0 <= k < |stack| ==> Pending(g, root, skip, used + {i}, stack[k])
    ensures Pending(g, root, skip, used + {i}, Item(i, far))
  {
    hide Linked, Restrict, Done, OnStack;
  }

  lemma PushLinks(g: Graph, root: nat, seen: set<nat>, used: set<nat>, i: nat, x: nat)
    requires forall y :: y in seen ==> Linked(Restrict(g, used), root, y)
    requires i in g && Touches(g[i], x) && x in seen
    ensures forall y :: y in seen + {Far(g[i], x)} ==> Linked(Restrict(g, used + {i}), root, y)
  {
    var r, r' := Restrict(g, used), Restrict(g, used + {i});
    SubValues(r, r');
    forall y | y in seen ensures Linked(r', root, y) {
      LinkedMono(r, r', root, y);
    }
    assert i in r';
    LinkedEdge(r', i);
  }

  lemma SkipScan(g: Graph, root: nat, skip: nat, used: set<nat>, it: Item, c: seq<nat>, j: nat)
    requires Scan(g, root, skip, used, it, c, j) && j < |c| && c[j] == it.prev
    ensures Scan(g, root, skip, used, it, c, j + 1)
  {
    assert c[..j + 1] == c[..j] + [c[j]];
  }

  lemma EndScan(g: Graph, root: nat, skip: nat, seen: set<nat>, used: set<nat>, stack: seq<Item>, it: Item, c: seq<nat>)
    requires Walk(g, root, skip, seen, used, stack, {it.node}) && Scan(g, root, skip, used, it, c, |c|)
    requires Lists(c, g, it.node)
    ensures Walk(g, root, skip, seen, used, stack, {})
  {
    hide Linked, Restrict;
    assert Done(g, skip, used, it.node);
  }

  /** When the stack is empty, `seen` is the component of the root. */
  lemma EndWalk(g: Graph, root: nat, skip: nat, seen: set<nat>, used: set<nat>)
    requires Walk(g, root, skip, seen, used, [], {})
    ensures ISet(seen) == Component(g - {skip}, root)
    ensures forall i :: i in g && i != skip && (g[i].a in seen || g[i].b in seen) ==> i in used
    ensures forall i :: i in used ==> i in g && i != skip && g[i].a in seen && g[i].b in seen
  {
    var s := ISet(seen);
    var k := g - {skip};
    var r := Restrict(g, used);
    SubValues(r, k);
    forall x | x in s ensures Linked(k, root, x) {
      LinkedMono(r, k, root, x);
    }
    forall i | i in k ensures k[i].a in s <==> k[i].b in s {
      assert k[i].a in s ==> Done(g, skip, used, k[i].a);
      assert k[i].b in s ==> Done(g, skip, used, k[i].b);
    }
    ComponentIs(k, root, s);
    forall i | i in g && i != skip && (g[i].a in seen || g[i].b in seen) ensures i in used {
      assert Done(g, skip, used, if g[i].a in seen then g[i].a else g[i].b);
    }
  }

  // ---- The search as its callers see it ----

  /** What a search reads: the lists of a forest, with their ghost chains. */
  datatype Net = Net(head: seq<Cell>, nextA: seq<Cell>, nextB: seq<Cell>, chains: seq<seq<nat>>, g: Graph, ma: nat,
      n: nat) {
    ghost predicate Valid() {
      Adjacent(head, nextA, nextB, chains, g, ma, n) && IsForest(g)
    }
  }

  ghost function NodeSet(n: nat): (s: set<nat>)
    ensures forall u: nat :: u in s <==> u < n
  {
    if n == 0 then {} else NodeSet(n - 1) + {n - 1}
  }

  /** How many nodes are still to be met. */
  ghost function Unseen(n: nat, seen: set<nat>): nat {
    |NodeSet(n) - seen|
  }

  lemma OneFewer(n: nat, seen: set<nat>, x: nat)
    requires x < n && x !in seen
    ensures Unseen(n, seen + {x}) < Unseen(n, seen)
  {
    assert NodeSet(n) - (seen + {x}) == (NodeSet(n) - seen) - {x};
  }

  /** Between two pops. */
  ghost predicate Between(net: Net, root: nat, skip: nat, seen: set<nat>, used: set<nat>, stack: seq<Item>) {
    && net.Valid() && SkipsAt(net.g, root, skip)
    && Walk(net.g, root, skip, seen, used, stack, {})
    && seen <= NodeSet(net.n)
  }

  /** In the list of `it.node`, looking at `cell`, position `j`. */
  ghost predicate At(net: Net, root: nat, skip: nat, seen: set<nat>, used: set<nat>, stack: seq<Item>, it: Item, j: nat,
      cell: Cell) {
    && net.Valid() && SkipsAt(net.g, root, skip)
    && Walk(net.g, root, skip, seen, used, stack, {it.node})
    && seen <= NodeSet(net.n) && it.node in seen
    && it.node < |net.chains|
    && Scan(net.g, root, skip, used, it, net.chains[it.node], j)
    && Leads(net.chains[it.node], j, net.g, it.node, cell)
  }

  lemma UsedInside(g: Graph, root: nat, skip: nat, seen: set<nat>, used: set<nat>, stack: seq<Item>, busy: set<nat>)
    requires Walk(g, root, skip, seen, used, stack, busy)
    ensures forall i :: i in used ==> i in g && g[i].a in seen && g[i].b in seen
  {
  }

  lemma NetSize(net: Net)
    requires net.Valid()
    ensures |net.head| == |net.chains| == net.n
  {
  }

  lemma Begin(net: Net, root: nat, skip: nat)
    requires net.Valid() && root < net.n
    requires skip in net.g ==> Touches(net.g[skip], root)
    ensures Between(net, root, skip, {root}, {}, [Item(skip, root)])
  {
    StartWalk(net.g, root, skip);
  }

  lemma Pop(net: Net, root: nat, skip: nat, seen: set<nat>, used: set<nat>, stack: seq<Item>)
    requires Between(net, root, skip, seen, used, stack) && stack != []
    ensures var it := stack[|stack| - 1];
            && it.node < net.n && it.node < |net.head|
            && At(net, root, skip, seen, used, stack[..|stack| - 1], it, 0, net.head[it.node])
  {
    hide Walk, Scan, Adjacent, IsForest, SkipsAt, Leads, Lists;
    var it := stack[|stack| - 1];
    TopSeen(net.g, root, skip, seen, used, stack);
    PopWalk(net.g, root, skip, seen, used, stack);
    FirstCell(net.head, net.nextA, net.nextB, net.chains, net.g, net.ma, net.n, it.node);
    assert Scan(net.g, root, skip, used, it, net.chains[it.node], 0);
  }

  /** One turn of the list loop. */
  lemma Step(net: Net, root: nat, skip: nat, seen: set<nat>, used: set<nat>, stack: seq<Item>, it: Item, j: nat,
      cell: Cell)
    requires At(net, root, skip, seen, used, stack, it, j, cell)
    ensures it.node < |net.chains| && j <= |net.chains[it.node]|
    ensures cell.keyId == NIL ==> Between(net, root, skip, seen, used, stack)
    ensures cell.keyId != NIL ==>
              && j < |net.chains[it.node]| && cell.keyId < |net.nextA| && cell.keyId < |net.nextB|
              && (cell.keyId == it.prev ==>
                    At(net, root, skip, seen, used, stack, it, j + 1, if it.node < net.ma then net.nextA[cell.keyId]
                        else net.nextB[cell.keyId]))
              && (cell.keyId != it.prev ==>
                    && cell.nodeId < net.n && cell.nodeId !in seen && cell.keyId !in used
                    && cell.keyId in net.g && Touches(net.g[cell.keyId], it.node)
                    && cell.nodeId == Far(net.g[cell.keyId], it.node)
                    && Unseen(net.n, seen + {cell.nodeId}) < Unseen(net.n, seen)
                    && At(net, root, skip, seen + {cell.nodeId}, used + {cell.keyId},
                          stack + [Item(cell.keyId, cell.nodeId)], it, j + 1,
                              if it.node < net.ma then net.nextA[cell.keyId] else net.nextB[cell.keyId]))
  {
    hide Walk, Scan, Adjacent, IsForest, SkipsAt, Leads, Lists, Touches, Far;
    assert it.node < net.n == |net.chains| by { NetSize(net); }
    FirstCell(net.head, net.nextA, net.nextB, net.chains, net.g, net.ma, net.n, it.node);
    NextCell(net.head, net.nextA, net.nextB, net.chains, net.g, net.ma, net.n, it.node, j, cell);
    var c := net.chains[it.node];
    if cell.keyId == NIL {
      EndScan(net.g, root, skip, seen, used, stack, it, c);
    } else if cell.keyId == it.prev {
      SkipScan(net.g, root, skip, used, it, c, j);
    } else {
      Meet(net.g, root, skip, seen, used, stack, it, c, j, cell);
      OneFewer(net.n, seen, cell.nodeId);
    }
  }

  /** What has been crossed so far lies between nodes met so far. */
  lemma Crossed(net: Net, root: nat, skip: nat, seen: set<nat>, used: set<nat>, stack: seq<Item>, it: Item, j: nat,
      cell: Cell)
    requires At(net, root, skip, seen, used, stack, it, j, cell)
    ensures it.node in seen && it.node < net.n
    ensures UsedWithin(net.g, seen, used)
  {
    UsedInside(net.g, root, skip, seen, used, stack, {it.node});
  }

  ghost predicate UsedWithin(g: Graph, seen: set<nat>, used: set<nat>) {
    forall i :: i in used ==> i in g && g[i].a in seen && g[i].b in seen
  }

  lemma Finish(net: Net, root: nat, skip: nat, seen: set<nat>, used: set<nat>)
    requires Between(net, root, skip, seen, used, [])
    ensures ISet(seen) == Component(net.g - {skip}, root)
    ensures forall i :: i in net.g && i != skip && (net.g[i].a in seen || net.g[i].b in seen) ==> i in used
    ensures forall i :: i in used ==> i in net.g && i != skip && net.g[i].a in seen && net.g[i].b in seen
  {
    hide Walk, Adjacent, IsForest, SkipsAt;
    EndWalk(net.g, root, skip, seen, used);
  }
}
