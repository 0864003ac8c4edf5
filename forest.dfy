/** The value-level meaning of a collection of union-find nodes.

    Node i of an arena is the i-th node ever created; parent[i] is the index of the
    node its parent reference designates and rank[i] is its rank.  Every operation on
    the nodes is described here as a function from the old collection to the new one,
    and the properties the data structure promises are proved about those functions. */
module DisjointSet {

  /** The largest element of s, or 0 when s is empty.  It bounds every rank, so that
      "how far a rank is below the largest one" measures how far a node is from its root. */
  function MaxOf(s: seq<nat>): (m: nat)
    ensures forall i :: 0 <= i < |s| ==> s[i] <= m
    ensures s == [] ==> m == 0
    ensures s != [] ==> m in s
  {
    if s == [] then 0
    else
      var m := MaxOf(s[..|s| - 1]);
      if s[|s| - 1] > m then s[|s| - 1] else (assert s[..|s| - 1] == [] ==> s[|s| - 1] == 0; m)
  }

  datatype Forest = Forest(parent: seq<nat>, rank: seq<nat>) {

    /** Every parent reference designates a node of the collection, and rank strictly
        grows along every edge that is not a root's self-loop.  The second half is what
        makes the parent graph acyclic apart from those self-loops. */
    predicate Valid() {
      |rank| == |parent| &&
      forall i :: 0 <= i < |parent| ==>
        parent[i] < |parent| && (parent[i] != i ==> rank[i] < rank[parent[i]])
    }

    /** The representative of x's class: the root reached by following parents. */
    function Root(x: nat): (r: nat)
      requires Valid() && x < |parent|
      ensures r < |parent| && parent[r] == r
      decreases MaxOf(rank) - rank[x]
    {
      if parent[x] == x then x else Root(parent[x])
    }

    /** A non-root's representative has strictly greater rank. */
    lemma {:induction false} RootRank(x: nat)
      requires Valid() && x < |parent|
      ensures Root(x) == x || rank[x] < rank[Root(x)]
      decreases MaxOf(rank) - rank[x]
    {
      if parent[x] != x {
        RootRank(parent[x]);
      }
    }

    /** The number of parent steps from x to its root. */
    function Depth(x: nat): (d: nat)
      requires Valid() && x < |parent|
      ensures rank[x] + d <= rank[Root(x)]
      ensures d == 0 <==> parent[x] == x
      decreases MaxOf(rank) - rank[x]
    {
      if parent[x] == x then 0 else 1 + Depth(parent[x])
    }

    /** The node reached from x after k parent steps. */
    function Ancestor(x: nat, k: nat): (y: nat)
      requires Valid() && x < |parent|
      ensures y < |parent|
      decreases k
    {
      if k == 0 then x else Ancestor(parent[x], k - 1)
    }

    /** y is one of the nodes whose parent find(x) rewrites: x itself unless it is a
        root, then every further ancestor short of the root. */
    predicate OnPath(x: nat, y: nat)
      requires Valid() && x < |parent|
      decreases MaxOf(rank) - rank[x]
    {
      parent[x] != x && (y == x || OnPath(parent[x], y))
    }

    /** The collection after find(x): on the way back from the recursive call on x's
        parent, x's parent becomes the root. */
    function Compress(x: nat): (g: Forest)
      requires Valid() && x < |parent|
      ensures |g.parent| == |parent| && g.rank == rank
      decreases MaxOf(rank) - rank[x]
    {
      if parent[x] == x then this
      else
        var h := Compress(parent[x]);
        Forest(h.parent[x := Root(x)], rank)
    }

    /** The collection after new: one more node, its own parent, of rank 0. */
    function Add(): (g: Forest)
      ensures |g.parent| == |parent| + 1 && |g.rank| == |rank| + 1
      ensures g.parent[|parent|] == |parent| && g.rank[|rank|] == 0
      ensures forall i :: 0 <= i < |parent| ==> g.parent[i] == parent[i]
      ensures forall i :: 0 <= i < |rank| ==> g.rank[i] == rank[i]
    {
      Forest(parent + [|parent|], rank + [0])
    }

    /** Linking the roots l and r, as the last step of union: equal roots change
        nothing; otherwise the root of strictly lower rank goes under the other one,
        and on a tie r goes under l, whose rank goes up by one. */
    function Link(l: nat, r: nat): (g: Forest)
      requires Valid() && l < |parent| && r < |parent|
      ensures |g.parent| == |parent| && |g.rank| == |rank|
      ensures forall i :: 0 <= i < |parent| && i != l && i != r ==> g.parent[i] == parent[i] && g.rank[i] == rank[i]
      ensures l == r ==> g == this
    {
      if l == r then this
      else if rank[l] < rank[r] then Forest(parent[l := r], rank)
      else Forest(parent[r := l], if rank[l] == rank[r] then rank[l := rank[l] + 1] else rank)
    }

    /** The collection after the two find calls union(a, b) starts with. */
    function Found(a: nat, b: nat): (d: Forest)
      requires Valid() && a < |parent| && b < |parent|
      ensures d.Valid() && |d.parent| == |parent| && d.rank == rank
      ensures forall y :: 0 <= y < |parent| ==> d.Root(y) == Root(y)
      ensures forall y :: 0 <= y < |parent| ==> (d.parent[y] == y <==> parent[y] == y)
    {
      FindPreserves(a);
      Compress(a).FindPreserves(b);
      Compress(a).Compress(b)
    }

    /** The collection after union(a, b). */
    function Union(a: nat, b: nat): (u: Forest)
      requires Valid() && a < |parent| && b < |parent|
      ensures |u.parent| == |parent| && |u.rank| == |rank|
    {
      Found(a, b).Link(Root(a), Root(b))
    }

    /** The root union(a, b) keeps: b's root only when a's root has strictly lower
        rank, so a tie goes to the first argument. */
    function Survivor(a: nat, b: nat): nat
      requires Valid() && a < |parent| && b < |parent|
    {
      if rank[Root(a)] < rank[Root(b)] then Root(b) else Root(a)
    }

    /** The root union(a, b) attaches under the survivor (when the two roots differ). */
    function Absorbed(a: nat, b: nat): nat
      requires Valid() && a < |parent| && b < |parent|
    {
      if rank[Root(a)] < rank[Root(b)] then Root(a) else Root(b)
    }

    /** Independent statement of the classes after union(a, b): the two classes of a
        and b become the survivor's, every other node keeps its representative. */
    function RootAfterUnion(a: nat, b: nat, y: nat): nat
      requires Valid() && a < |parent| && b < |parent| && y < |parent|
    {
      if Root(y) == Root(a) || Root(y) == Root(b) then Survivor(a, b) else Root(y)
    }

    // ---------------------------------------------------------------------------
    // Acyclicity

    /** Rank never decreases along parent steps, and strictly increases as soon as a
        non-root takes a step. */
    lemma {:induction false} AncestorRank(x: nat, k: nat)
      requires Valid() && x < |parent|
      ensures rank[x] <= rank[Ancestor(x, k)]
      ensures k > 0 && parent[x] != x ==> rank[x] < rank[Ancestor(x, k)]
      decreases k
    {
      if k > 0 {
        AncestorRank(parent[x], k - 1);
      }
    }

    /** The parent graph has no cycle other than the self-loops at roots. */
    lemma NoCycle(x: nat, k: nat)
      requires Valid() && x < |parent| && parent[x] != x && k > 0
      ensures Ancestor(x, k) != x
    {
      AncestorRank(x, k);
    }

    /** Following parents from x reaches its root after Depth(x) steps, which is at
        most as many as the root's rank exceeds x's. */
    lemma {:induction false} ReachesRoot(x: nat)
      requires Valid() && x < |parent|
      ensures Ancestor(x, Depth(x)) == Root(x)
      decreases MaxOf(rank) - rank[x]
    {
      if parent[x] != x {
        ReachesRoot(parent[x]);
      }
    }

    /** The nodes find(x) visits: x, then each ancestor up to and including the root.
        They are Depth(x) + 1 distinct nodes of x's class, none of rank below x's. */
    ghost function PathSet(x: nat): (p: set<nat>)
      requires Valid() && x < |parent|
      ensures x in p && |p| == Depth(x) + 1
      ensures forall y :: y in p ==> y < |parent| && Root(y) == Root(x) && rank[x] <= rank[y]
      decreases MaxOf(rank) - rank[x]
    {
      if parent[x] == x then {x} else {x} + PathSet(parent[x])
    }

    /** The nodes whose representative is r. */
    ghost function Members(r: nat): set<nat>
      requires Valid()
    {
      set y | 0 <= y < |parent| && Root(y) == r
    }

    lemma SubsetCard(a: set<nat>, b: set<nat>)
      requires a <= b
      ensures |a| <= |b|
    {
      assert b == a + (b - a);
    }

    /** find(x) takes fewer parent steps than x's class has nodes: the path from x to
        its root never visits a node twice and stays inside the class. */
    lemma DepthWithinClass(x: nat)
      requires Valid() && x < |parent|
      ensures Depth(x) < |Members(Root(x))|
    {
      SubsetCard(PathSet(x), Members(Root(x)));
    }

    // ---------------------------------------------------------------------------
    // new

    lemma {:induction false} AddKeepsRoot(y: nat)
      requires Valid() && y < |parent|
      ensures Add().Valid() && Add().Root(y) == Root(y)
      decreases MaxOf(rank) - rank[y]
    {
      AddValid();
      if parent[y] != y {
        AddKeepsRoot(parent[y]);
      }
    }

    lemma AddValid()
      requires Valid()
      ensures Add().Valid()
    {
    }

    /** new makes a singleton class: the new node is a root of rank 0 and every
        existing node keeps its representative and its rank. */
    lemma AddSingleton()
      requires Valid()
      ensures Add().Valid() && |Add().parent| == |parent| + 1
      ensures Add().Root(|parent|) == |parent| && Add().rank[|parent|] == 0
      ensures forall y :: 0 <= y < |parent| ==> Add().Root(y) == Root(y) && Add().rank[y] == rank[y]
    {
      AddValid();
      forall y | 0 <= y < |parent| ensures Add().Root(y) == Root(y) {
        AddKeepsRoot(y);
      }
    }

    // ---------------------------------------------------------------------------
    // find

    lemma {:induction false} OnPathFacts(x: nat, y: nat)
      requires Valid() && x < |parent| && OnPath(x, y)
      ensures y < |parent| && parent[y] != y && Root(y) == Root(x)
      decreases MaxOf(rank) - rank[x]
    {
      if y != x {
        OnPathFacts(parent[x], y);
      }
    }

    /** find(x) rewrites the parent of exactly the nodes on x's path, each to x's root,
        and leaves every other parent as it was. */
    lemma {:induction false} CompressPath(x: nat)
      requires Valid() && x < |parent|
      ensures forall y :: 0 <= y < |parent| ==>
        Compress(x).parent[y] == if OnPath(x, y) then Root(x) else parent[y]
      decreases MaxOf(rank) - rank[x]
    {
      if parent[x] != x {
        CompressPath(parent[x]);
      }
    }

    lemma CompressValid(x: nat)
      requires Valid() && x < |parent|
      ensures Compress(x).Valid()
    {
      var g := Compress(x);
      CompressPath(x);
      forall y | 0 <= y < |parent|
        ensures g.parent[y] < |g.parent| && (g.parent[y] != y ==> g.rank[y] < g.rank[g.parent[y]])
      {
        if OnPath(x, y) {
          OnPathFacts(x, y);
          RootRank(y);
        }
      }
    }

    lemma {:induction false} CompressKeepsRoot(x: nat, y: nat)
      requires Valid() && x < |parent| && y < |parent|
      ensures Compress(x).Valid() && Compress(x).Root(y) == Root(y)
      decreases MaxOf(rank) - rank[y]
    {
      var g := Compress(x);
      CompressValid(x);
      CompressPath(x);
      if OnPath(x, y) {
        OnPathFacts(x, y);
        var r := Root(y);
        if OnPath(x, r) {
          OnPathFacts(x, r);
        }
        assert g.parent[r] == r;
      } else if parent[y] != y {
        CompressKeepsRoot(x, parent[y]);
      }
    }

    /** find(x) keeps the collection valid, changes no rank, keeps every node's
        representative, and turns no root into a non-root nor the reverse. */
    lemma FindPreserves(x: nat)
      requires Valid() && x < |parent|
      ensures Compress(x).Valid() && Compress(x).rank == rank
      ensures forall y :: 0 <= y < |parent| ==> Compress(x).Root(y) == Root(y)
      ensures forall y :: 0 <= y < |parent| ==> (Compress(x).parent[y] == y <==> parent[y] == y)
    {
      var g := Compress(x);
      CompressValid(x);
      CompressPath(x);
      forall y | 0 <= y < |parent|
        ensures g.Root(y) == Root(y) && (g.parent[y] == y <==> parent[y] == y)
      {
        CompressKeepsRoot(x, y);
        if OnPath(x, y) {
          OnPathFacts(x, y);
        }
      }
    }

    /** After find(x), x's parent is its root, and a second find(x) changes nothing. */
    lemma FindIdempotent(x: nat)
      requires Valid() && x < |parent|
      ensures Compress(x).Valid() && Compress(x).parent[x] == Root(x)
      ensures Compress(x).Compress(x) == Compress(x)
    {
      var g := Compress(x);
      FindPreserves(x);
      CompressPath(x);
      if parent[x] != x {
        var r := Root(x);
        assert g.parent[x] == r;
        assert g.parent[r] == r;
        assert g.Compress(r) == g;
        assert g.Root(x) == r;
      }
    }

    // ---------------------------------------------------------------------------
    // union

    lemma LinkValid(l: nat, r: nat)
      requires Valid() && l < |parent| && r < |parent| && parent[l] == l && parent[r] == r
      ensures Link(l, r).Valid()
    {
    }

    lemma {:induction false} LinkRoot(l: nat, r: nat, y: nat)
      requires Valid() && l < |parent| && r < |parent| && parent[l] == l && parent[r] == r
      requires y < |parent|
      ensures Link(l, r).Valid()
      ensures Link(l, r).Root(y) ==
        if Root(y) == l || Root(y) == r then (if rank[l] < rank[r] then r else l) else Root(y)
      decreases MaxOf(rank) - rank[y]
    {
      LinkValid(l, r);
      if parent[y] != y {
        LinkRoot(l, r, parent[y]);
      }
    }

    /** union(a, b) merges exactly the classes of a and b: their nodes all get the
        survivor as representative, and every other node keeps its own. */
    lemma UnionMerges(a: nat, b: nat)
      requires Valid() && a < |parent| && b < |parent|
      ensures Union(a, b).Valid() && |Union(a, b).parent| == |parent|
      ensures forall y :: 0 <= y < |parent| ==> Union(a, b).Root(y) == RootAfterUnion(a, b, y)
    {
      var d := Found(a, b);
      var ra, rb := Root(a), Root(b);
      assert d.Root(ra) == ra && d.Root(rb) == rb;
      d.LinkValid(ra, rb);
      forall y | 0 <= y < |parent| ensures Union(a, b).Root(y) == RootAfterUnion(a, b, y) {
        d.LinkRoot(ra, rb, y);
      }
    }

    /** After union(a, b), a and b are in the same class. */
    lemma UnionJoins(a: nat, b: nat)
      requires Valid() && a < |parent| && b < |parent|
      ensures Union(a, b).Valid() && Union(a, b).Root(a) == Union(a, b).Root(b)
    {
      UnionMerges(a, b);
    }

    /** Two nodes share a class after union(a, b) exactly when they did before, or each
        was in a's class or b's class: classes never united stay apart. */
    lemma UnionSameClass(a: nat, b: nat, y: nat, z: nat)
      requires Valid() && a < |parent| && b < |parent| && y < |parent| && z < |parent|
      ensures Union(a, b).Valid()
      ensures Union(a, b).Root(y) == Union(a, b).Root(z) <==>
        Root(y) == Root(z) ||
        ((Root(y) == Root(a) || Root(y) == Root(b)) && (Root(z) == Root(a) || Root(z) == Root(b)))
    {
      UnionMerges(a, b);
    }

    /** Beyond the two find calls, union(a, b) changes at most one parent: none when a
        and b already share a root; otherwise the absorbed root's, to the survivor. */
    lemma UnionLinks(a: nat, b: nat)
      requires Valid() && a < |parent| && b < |parent|
      ensures Root(a) == Root(b) ==> Union(a, b) == Found(a, b)
      ensures |Union(a, b).parent| == |parent|
      ensures forall y :: 0 <= y < |parent| && Union(a, b).parent[y] != Found(a, b).parent[y] ==>
        Root(a) != Root(b) && y == Absorbed(a, b)
      ensures Root(a) != Root(b) ==> Union(a, b).parent[Absorbed(a, b)] == Survivor(a, b)
    {
    }

    /** union(a, b) turns exactly one root into a non-root when the roots differ (the
        absorbed one), none otherwise, and never makes a non-root a root. */
    lemma UnionRootStatus(a: nat, b: nat)
      requires Valid() && a < |parent| && b < |parent|
      ensures |Union(a, b).parent| == |parent|
      ensures forall y :: 0 <= y < |parent| ==>
        (Union(a, b).parent[y] == y <==> parent[y] == y && !(Root(a) != Root(b) && y == Absorbed(a, b)))
    {
    }

    /** Ranks never shrink, and one grows only on the root a's class keeps, by exactly
        one, and exactly when two distinct roots of equal rank were linked. */
    lemma UnionRanks(a: nat, b: nat)
      requires Valid() && a < |parent| && b < |parent|
      ensures |Union(a, b).rank| == |rank|
      ensures forall y :: 0 <= y < |rank| ==> rank[y] <= Union(a, b).rank[y]
      ensures forall y :: 0 <= y < |rank| && Union(a, b).rank[y] != rank[y] ==>
        y == Root(a) && Union(a, b).parent[y] == y && Union(a, b).rank[y] == rank[y] + 1
      ensures Union(a, b).rank[Root(a)] == rank[Root(a)] + 1 <==>
        Root(a) != Root(b) && rank[Root(a)] == rank[Root(b)]
    {
    }

    /** Uniting a singleton x into a's class keeps a's representative as the root of
        the merged class, leaves every other node's representative alone, and changes
        no rank other than that root's. */
    lemma UnionSingleton(a: nat, x: nat)
      requires Valid() && a < |parent| && x < |parent| && Root(x) == x && rank[x] == 0 && Root(a) != x
      ensures Union(a, x).Valid() && |Union(a, x).parent| == |parent|
      ensures forall y :: 0 <= y < |parent| ==> Union(a, x).Root(y) == if y == x then Root(a) else Root(y)
      ensures forall y :: 0 <= y < |parent| && y != Root(a) ==> Union(a, x).rank[y] == rank[y]
    {
      UnionMerges(a, x);
      UnionRanks(a, x);
      forall y | 0 <= y < |parent| ensures Union(a, x).Root(y) == if y == x then Root(a) else Root(y) {
        RootRank(y);
      }
    }

    /** A second, redundant union(b, a) after union(a, b) changes no representative. */
    lemma UnionTwice(a: nat, b: nat)
      requires Valid() && a < |parent| && b < |parent|
      ensures Union(a, b).Valid() && Union(a, b).Union(b, a).Valid()
      ensures forall y :: 0 <= y < |parent| ==> Union(a, b).Union(b, a).Root(y) == Union(a, b).Root(y)
    {
      var u := Union(a, b);
      UnionJoins(a, b);
      u.UnionMerges(b, a);
    }
  }
}
