/** The union-find nodes and their operations, updated in place.

    Each node lives at a fixed index of an arena for its whole life, so the parent
    reference another node holds to it stays valid: a parent reference is that index. */
module UnionFind {
  import opened DisjointSet

  class Arena<T> {
    /** tags[i] is the payload of node i; the algorithm never reads it. */
    var tags: seq<T>
    /** parent[i] is the index of node i's parent; node i is a root when it is i. */
    var parent: seq<nat>
    /** rank[i] bounds the height of the tree below node i while it is a root. */
    var rank: seq<nat>

    ghost function State(): Forest
      reads this
    {
      Forest(parent, rank)
    }

    ghost predicate Valid()
      reads this
    {
      |tags| == |parent| && State().Valid()
    }

    /** An arena that holds no node yet. */
    constructor ()
      ensures Valid() && tags == [] && parent == [] && rank == []
    {
      tags, parent, rank := [], [], [];
    }

    /** Repr::new: a fresh node carrying tag, its own parent, of rank 0, in a class of
        its own; every existing node keeps its parent, rank and representative. */
    method New(tag: T) returns (x: nat)
      requires Valid()
      modifies this
      ensures Valid() && State() == old(State()).Add() && tags == old(tags) + [tag]
      ensures x == old(|parent|) && parent[x] == x && rank[x] == 0
      ensures State().Root(x) == x
      ensures forall y :: 0 <= y < x ==> State().Root(y) == old(State()).Root(y)
    {
      ghost var s := State();
      s.AddSingleton();
      x := |parent|;
      tags, parent, rank := tags + [tag], parent + [x], rank + [0];
    }

    /** Repr::find: the representative of x's class.  On the way back from the
        recursive call on x's parent, x's parent is rewritten to that root. */
    method Find(x: nat) returns (r: nat)
      requires Valid() && x < |parent|
      modifies this
      ensures Valid() && tags == old(tags) && State() == old(State()).Compress(x)
      ensures r == old(State()).Root(x) && r < |parent| && parent[r] == r && parent[x] == r
      ensures rank == old(rank)
      ensures forall y :: 0 <= y < |parent| ==> State().Root(y) == old(State()).Root(y)
      decreases MaxOf(rank) - rank[x]
    {
      ghost var s := State();
      if parent[x] != x {
        var root := Find(parent[x]);
        parent := parent[x := root];
      }
      r := parent[x];
      s.FindPreserves(x);
      s.FindIdempotent(x);
    }

    /** Repr::union: union by rank of the classes of a and b.  Equal roots change
        nothing more than the two find calls; otherwise the root of strictly lower rank
        goes under the other, and on a tie b's root goes under a's, whose rank grows. */
    method Union(a: nat, b: nat)
      requires Valid() && a < |parent| && b < |parent|
      modifies this
      ensures Valid() && tags == old(tags) && State() == old(State()).Union(a, b)
    {
      ghost var s := State();
      var lhs := Find(a);
      ghost var c := State();
      var rhs := Find(b);
      assert State() == s.Found(a, b) && c.Root(b) == s.Root(b);
      var lhsRank, rhsRank := rank[lhs], rank[rhs];
      if lhs != rhs {
        if lhsRank < rhsRank {
          parent := parent[lhs := rhs];
        } else {
          parent := parent[rhs := lhs];
          if lhsRank == rhsRank {
            rank := rank[lhs := rank[lhs] + 1];
          }
        }
      }
      s.UnionMerges(a, b);
    }

    /** Repr::is_root: whether x is, at this instant, its own parent, which is exactly
        when x is the representative of its class. */
    predicate IsRoot(x: nat)
      reads this
      requires Valid() && x < |parent|
      ensures IsRoot(x) <==> State().Root(x) == x
    {
      parent[x] == x
    }
  }
}
