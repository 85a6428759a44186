/** Union-find over a parent vector, as Othello uses it to tell whether two nodes are
    already connected.  `__set` lets the owner overwrite parents after a deletion. */
module DisjointSets {

  /** `i` has no parent other than itself. */
  predicate Top(mem: seq<int>, i: nat)
    requires i < |mem|
  {
    mem[i] < 0 || mem[i] == i
  }

  /** Following parents from `i` ends in `rep[i]`; `depth` falls along the way. */
  ghost predicate Represents(mem: seq<int>, rep: seq<nat>, depth: seq<nat>) {
    && |mem| == |rep| == |depth|
    && (forall i :: 0 <= i < |mem| ==> mem[i] < |mem|)
    && (forall i :: 0 <= i < |mem| ==> rep[i] < |mem| && Top(mem, rep[i]))
    && (forall i :: 0 <= i < |mem| && Top(mem, i) ==> rep[i] == i)
    && (forall i :: 0 <= i < |mem| && !Top(mem, i) ==>
          rep[mem[i]] == rep[i] && depth[mem[i]] < depth[i] && depth[rep[i]] < depth[i])
  }

  /** The parent vector alone determines the representatives. */
  lemma {:induction false} RepresentativesUnique(mem: seq<int>, rep: seq<nat>, depth: seq<nat>, rep': seq<nat>,
      depth': seq<nat>, i: nat)
    requires Represents(mem, rep, depth) && Represents(mem, rep', depth') && i < |mem|
    ensures rep[i] == rep'[i]
    decreases depth[i]
  {
    if !Top(mem, i) {
      RepresentativesUnique(mem, rep, depth, rep', depth', mem[i]);
    }
  }

  /** The partition after joining the classes of `a` and `b`; the class of `b` is renamed. */
  ghost function Merged(rep: seq<nat>, a: nat, b: nat): (r: seq<nat>)
    requires a < |rep| && b < |rep|
    ensures |r| == |rep|
  {
    seq(|rep|, x requires 0 <= x < |rep| => if rep[x] == rep[b] then rep[a] else rep[x])
  }

  ghost function Deepened(rep: seq<nat>, depth: seq<nat>, ra: nat, rb: nat): (r: seq<nat>)
    requires |rep| == |depth| && ra < |rep|
    ensures |r| == |rep|
  {
    seq(|rep|, x requires 0 <= x < |rep| =>
      if ra != rb && rep[x] == rb then depth[x] + depth[ra] + 1 else depth[x])
  }

  /** What `Represents` says of node `i`. */
  ghost predicate Placed(mem: seq<int>, rep: seq<nat>, depth: seq<nat>, i: nat)
    requires |mem| == |rep| == |depth| && i < |mem|
  {
    && mem[i] < |mem| && rep[i] < |mem| && Top(mem, rep[i]) && (Top(mem, i) ==> rep[i] == i)
    && (!Top(mem, i) ==> rep[mem[i]] == rep[i] && depth[mem[i]] < depth[i] && depth[rep[i]] < depth[i])
  }

  lemma NodePlaced(mem: seq<int>, rep: seq<nat>, depth: seq<nat>, i: nat)
    requires Represents(mem, rep, depth) && i < |mem|
    ensures |mem| == |rep| == |depth| && Placed(mem, rep, depth, i)
  {
  }

  lemma AllPlaced(mem: seq<int>, rep: seq<nat>, depth: seq<nat>)
    requires |mem| == |rep| == |depth| && forall i :: 0 <= i < |mem| ==> Placed(mem, rep, depth, i)
    ensures Represents(mem, rep, depth)
  {
    forall i | 0 <= i < |mem|
      ensures mem[i] < |mem| && rep[i] < |mem| && Top(mem, rep[i]) && (Top(mem, i) ==> rep[i] == i)
      ensures !Top(mem, i) ==> rep[mem[i]] == rep[i] && depth[mem[i]] < depth[i] && depth[rep[i]] < depth[i]
    {
      assert Placed(mem, rep, depth, i);
    }
  }

  lemma MergeOne(mem: seq<int>, rep: seq<nat>, depth: seq<nat>, a: nat, b: nat, i: nat)
    requires Represents(mem, rep, depth) && a < |mem| && b < |mem| && mem[rep[a]] == rep[a] && i < |mem|
    ensures rep[b] < |mem|
    ensures Placed(mem[rep[b] := rep[a]], Merged(rep, a, b), Deepened(rep, depth, rep[a], rep[b]), i)
  {
  }

  lemma MergeRepresents(mem: seq<int>, rep: seq<nat>, depth: seq<nat>, a: nat, b: nat)
    requires Represents(mem, rep, depth) && a < |mem| && b < |mem| && mem[rep[a]] == rep[a]
    ensures Represents(mem[rep[b] := rep[a]], Merged(rep, a, b), Deepened(rep, depth, rep[a], rep[b]))
  {
    NodePlaced(mem, rep, depth, a);
    NodePlaced(mem, rep, depth, b);
    hide Represents, Merged, Deepened;
    var mem', rep', depth' := mem[rep[b] := rep[a]], Merged(rep, a, b), Deepened(rep, depth, rep[a], rep[b]);
    forall i | 0 <= i < |mem| ensures Placed(mem', rep', depth', i) {
      MergeOne(mem, rep, depth, a, b, i);
    }
    AllPlaced(mem', rep', depth');
  }

  lemma CompressRepresents(mem: seq<int>, rep: seq<nat>, depth: seq<nat>, i: nat)
    requires Represents(mem, rep, depth) && i < |mem|
    ensures Represents(mem[i := rep[i]], rep, depth)
  {
  }

  /** Looking up `a` and `b` makes no node its own parent but their representatives. */
  ghost predicate RootsTouched(mem: seq<int>, mem': seq<int>, rep: seq<nat>, a: nat, b: nat)
    requires a < |rep| && b < |rep|
  {
    && |mem'| == |mem| == |rep|
    && forall x :: 0 <= x < |mem| ==>
         && (mem'[x] == x ==> mem[x] == x || x == rep[a] || x == rep[b])
         && (mem[x] == x ==> mem'[x] == x)
  }

  /** Merging leaves the representative of `a` as the only root of the joined class. */
  ghost predicate RootsMerged(mem: seq<int>, mem': seq<int>, rep: seq<nat>, a: nat, b: nat)
    requires a < |rep| && b < |rep|
  {
    && |mem'| == |mem| == |rep|
    && (forall x :: 0 <= x < |mem| ==>
         && (mem'[x] == x ==> mem[x] == x || x == rep[a] || x == rep[b])
         && (mem[x] == x && x != rep[b] ==> mem'[x] == x)
         && (x == rep[a] ==> mem'[x] == x)
         && (x == rep[b] != rep[a] ==> mem'[x] != x))
  }

  class DisjointSet {
    var mem: seq<int>
    ghost var rep: seq<nat>
    ghost var depth: seq<nat>

    ghost predicate Valid()
      reads this
    {
      Represents(mem, rep, depth)
    }

    constructor ()
      ensures Valid() && mem == []
    {
      mem, rep, depth := [], [], [];
    }

    predicate IsRoot(a: nat)
      requires a < |mem|
      reads this
    {
      mem[a] == a
    }

    method Representative(i: nat) returns (r: nat)
      requires Valid() && i < |mem|
      modifies this`mem
      ensures Valid() && |mem| == |old(mem)|
      ensures r == rep[i] && IsRoot(r)
      ensures forall x :: 0 <= x < |mem| ==> mem[x] == old(mem[x]) || (mem[x] == r && rep[x] == r)
      decreases depth[i]
    {
      NodePlaced(mem, rep, depth, i);
      hide Represents;
      if mem[i] < 0 {
        CompressRepresents(mem, rep, depth, i);
        mem := mem[i := i];
        return i;
      } else if mem[i] != i {
        r := Representative(mem[i]);
        CompressRepresents(mem, rep, depth, i);
        mem := mem[i := r];
      } else {
        return i;
      }
    }

    method Merge(a: nat, b: nat)
      requires Valid() && a < |mem| && b < |mem|
      modifies this
      ensures Valid() && |mem| == |old(mem)|
      ensures rep == Merged(old(rep), a, b)
      ensures RootsMerged(old(mem), mem, old(rep), a, b)
    {
      var ra := Representative(a);
      var rb := Representative(b);
      MergeRepresents(mem, rep, depth, a, b);
      mem := mem[rb := ra];
      depth := Deepened(rep, depth, ra, rb);
      rep := Merged(rep, a, b);
    }

    method SameSet(a: nat, b: nat) returns (same: bool)
      requires Valid() && a < |mem| && b < |mem|
      modifies this`mem
      ensures Valid() && |mem| == |old(mem)|
      ensures same == (rep[a] == rep[b])
      ensures RootsTouched(old(mem), mem, rep, a, b)
    {
      var ra := Representative(a);
      var rb := Representative(b);
      same := ra == rb;
    }

    /** `__set`: overwrite one parent.  The caller restores `Valid` with `Relabel`. */
    method Set(i: nat, parent: nat)
      requires i < |mem|
      modifies this`mem
      ensures mem == old(mem)[i := parent]
    {
      mem := mem[i := parent];
    }

    /** Names the representatives that a series of `Set` calls has brought about. */
    ghost method Relabel(newRep: seq<nat>, newDepth: seq<nat>)
      requires Represents(mem, newRep, newDepth)
      modifies this`rep, this`depth
      ensures Valid() && rep == newRep && depth == newDepth
    {
      rep, depth := newRep, newDepth;
    }

    /** Every element alone again. */
    method Reset()
      modifies this
      ensures Valid() && |mem| == |old(mem)|
      ensures forall x :: 0 <= x < |mem| ==> mem[x] == -1 && rep[x] == x
    {
      for i := 0 to |mem|
        invariant |mem| == |old(mem)|
        invariant forall x :: 0 <= x < i ==> mem[x] == -1
      {
        mem := mem[i := -1];
      }
      rep := seq(|mem|, x requires 0 <= x => x);
      depth := seq(|mem|, x => 0);
    }

    /** Grow to `n` elements, or drop the last ones; the owner resets before the next use. */
    method Resize(n: nat)
      modifies this`mem
      ensures |mem| == n
      ensures forall x :: 0 <= x < n ==> mem[x] == if x < |old(mem)| then old(mem)[x] else -1
    {
      if n <= |mem| {
        mem := mem[..n];
      } else {
        mem := mem + seq(n - |mem|, x => -1);
      }
    }
  }
}
