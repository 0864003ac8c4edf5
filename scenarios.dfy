/** Client programs that run the arena through the situations the repository's own
    tests describe; each returns what the test observes, and its postcondition is the
    test's expectation, proved from the arena's contracts and the lemmas about the
    forest they describe. */
module Scenarios {
  import opened DisjointSet
  import opened UnionFind

  /** A fresh node is a root whose parent reference designates a node of the arena. */
  method SelfFind() returns (isRoot: bool, parentInArena: bool)
    ensures isRoot && parentInArena
  {
    var arena := new Arena<()>();
    var x := arena.New(());
    isRoot := arena.IsRoot(x);
    parentInArena := arena.parent[x] < |arena.parent|;
  }

  /** Two nodes never united have different representatives. */
  method Separate() returns (rx: nat, ry: nat)
    ensures rx != ry
  {
    var arena := new Arena<int>();
    var x := arena.New(1);
    var y := arena.New(2);
    rx := arena.Find(x);
    ry := arena.Find(y);
  }

  /** After x.union(y), x and y have the same representative. */
  method UnionThenFind() returns (rx: nat, ry: nat)
    ensures rx == ry
  {
    var arena := new Arena<int>();
    var x := arena.New(1);
    var y := arena.New(2);
    arena.Union(x, y);
    rx := arena.Find(x);
    ry := arena.Find(y);
  }

  /** x.union(y) then the redundant y.union(x): still one class. */
  method UnionBothWays() returns (rx: nat, ry: nat)
    ensures rx == ry
  {
    var arena := new Arena<()>();
    var x := arena.New(());
    var y := arena.New(());
    arena.Union(x, y);
    arena.Union(y, x);
    rx := arena.Find(x);
    ry := arena.Find(y);
  }

  /** Uniting two singletons gives the first one rank 1 and leaves the other at 0;
      uniting that class with a further singleton changes no rank. */
  method RankAwareInsertion() returns (x1: nat, y1: nat, x2: nat, y2: nat, z2: nat)
    ensures x1 == 1 && y1 == 0
    ensures x2 == 1 && y2 == 0 && z2 == 0
  {
    var arena := new Arena<()>();
    var x := arena.New(());
    var y := arena.New(());
    var z := arena.New(());
    ghost var s := arena.State();
    s.UnionRanks(x, y);
    arena.Union(x, y);
    x1, y1 := arena.rank[x], arena.rank[y];
    s := arena.State();
    s.UnionRanks(y, z);
    arena.Union(y, z);
    x2, y2, z2 := arena.rank[x], arena.rank[y], arena.rank[z];
  }

  /** Two classes of rank 1 united give the surviving root rank 2. */
  method CorrectIncrementation() returns (w2: nat)
    ensures w2 == 2
  {
    var arena := new Arena<()>();
    var x := arena.New(());
    var y := arena.New(());
    var z := arena.New(());
    var w := arena.New(());
    ghost var s := arena.State();
    s.UnionRanks(x, y);
    arena.Union(x, y);
    assert arena.rank[x] == 1 && arena.rank[w] == 0 && arena.rank[z] == 0;
    assert arena.State().Root(x) == x && arena.State().Root(w) == w && arena.State().Root(z) == z by {
      s.UnionSingleton(x, y);
    }
    s := arena.State();
    s.UnionRanks(w, z);
    arena.Union(w, z);
    assert arena.rank[x] == 1 && arena.rank[w] == 1;
    assert arena.State().Root(x) == x && arena.State().Root(w) == w by {
      s.UnionSingleton(w, z);
    }
    s := arena.State();
    s.UnionRanks(w, x);
    arena.Union(w, x);
    w2 := arena.rank[w];
  }

  /** The elements among the first n of s whose value modulo 2 is p, in order. */
  function OfParity(s: seq<int>, p: int, n: nat): seq<int>
    requires n <= |s|
  {
    if n == 0 then [] else OfParity(s, p, n - 1) + (if s[n - 1] % 2 == p then [s[n - 1]] else [])
  }

  /** OfParity over the first n elements depends on those elements only. */
  lemma {:induction false} OfParityPrefix(s: seq<int>, t: seq<int>, p: int, n: nat)
    requires n <= |s| && n <= |t| && s[..n] == t[..n]
    ensures OfParity(s, p, n) == OfParity(t, p, n)
  {
    if n > 0 {
      assert s[..n - 1] == s[..n][..n - 1] && t[..n - 1] == t[..n][..n - 1];
      assert s[n - 1] == s[..n][n - 1] && t[n - 1] == t[..n][n - 1];
      OfParityPrefix(s, t, p, n - 1);
    }
  }

  /** The representative of every node of f, by index. */
  ghost function Roots(f: Forest): (r: seq<nat>)
    requires f.Valid()
    ensures |r| == |f.parent| && forall j :: 0 <= j < |r| ==> r[j] == f.Root(j)
  {
    seq(|f.parent|, j requires 0 <= j < |f.parent| => f.Root(j))
  }

  /** The payloads of nodes 0 .. n-1 whose representative (listed in roots) is repr,
      in creation order. */
  function ClassTags(roots: seq<nat>, tags: seq<int>, repr: nat, n: nat): seq<int>
    requires n <= |roots| && n <= |tags|
  {
    if n == 0 then []
    else ClassTags(roots, tags, repr, n - 1) + (if roots[n - 1] == repr then [tags[n - 1]] else [])
  }

  /** When node j (j < n) is in the bucket's class exactly when its payload has parity
      p, the payloads of that class are exactly those of parity p. */
  lemma {:induction false} ClassTagsByParity(roots: seq<nat>, tags: seq<int>, bucket: nat, p: int, n: nat)
    requires n <= |roots| && n <= |tags|
    requires forall j :: 0 <= j < n ==> (roots[j] == bucket <==> tags[j] % 2 == p)
    ensures ClassTags(roots, tags, bucket, n) == OfParity(tags, p, n)
  {
    if n > 0 {
      ClassTagsByParity(roots, tags, bucket, p, n - 1);
    }
  }

  /** The payloads of the test's vector, split by parity. */
  lemma PayloadParities(v: seq<int>)
    requires v == [10, 2, 7, 8, 19, 22, 3]
    ensures OfParity(v, 1, 7) == [7, 19, 3] && OfParity(v, 0, 7) == [10, 2, 8, 22]
  {
    assert OfParity(v, 1, 1) == [] && OfParity(v, 0, 1) == [10];
    assert OfParity(v, 1, 2) == [] && OfParity(v, 0, 2) == [10, 2];
    assert OfParity(v, 1, 3) == [7] && OfParity(v, 0, 3) == [10, 2];
    assert OfParity(v, 1, 4) == [7] && OfParity(v, 0, 4) == [10, 2, 8];
    assert OfParity(v, 1, 5) == [7, 19] && OfParity(v, 0, 5) == [10, 2, 8];
    assert OfParity(v, 1, 6) == [7, 19] && OfParity(v, 0, 6) == [10, 2, 8, 22];
  }

  /** Creates one node per payload of v, in order, in an empty arena: node j carries v[j]. */
  method NewNodes(arena: Arena<int>, v: seq<int>)
    requires arena.Valid() && arena.parent == []
    modifies arena
    ensures arena.Valid() && |arena.parent| == |v| && arena.tags == v
    ensures forall j :: 0 <= j < |v| ==> arena.State().Root(j) == j && arena.rank[j] == 0
  {
    for i := 0 to |v|
      invariant arena.Valid() && |arena.parent| == i && arena.tags == v[..i]
      invariant forall j :: 0 <= j < i ==> arena.State().Root(j) == j && arena.rank[j] == 0
    {
      var x := arena.New(v[i]);
      assert v[..i + 1] == v[..i] + [v[i]];
    }
  }

  /** Unites the singleton x with the class of the root bucket: x now has bucket as its
      representative, every other node keeps its own, and only bucket's rank may change. */
  method Attach(arena: Arena<int>, bucket: nat, x: nat)
    requires arena.Valid() && bucket < |arena.parent| && x < |arena.parent| && bucket != x
    requires arena.State().Root(bucket) == bucket && arena.State().Root(x) == x && arena.rank[x] == 0
    modifies arena
    ensures arena.Valid() && arena.tags == old(arena.tags) && |arena.parent| == old(|arena.parent|)
    ensures forall y :: 0 <= y < |arena.parent| ==>
      arena.State().Root(y) == if y == x then bucket else old(arena.State()).Root(y)
    ensures forall y :: 0 <= y < |arena.parent| && y != bucket ==> arena.rank[y] == old(arena.rank[y])
  {
    ghost var s := arena.State();
    s.UnionSingleton(bucket, x);
    arena.Union(bucket, x);
  }

  /** Unites each of the nodes 0 .. n-1, still singletons, with the bucket node of its
      payload's parity. */
  method Distribute(arena: Arena<int>, n: nat, odd: nat, even: nat)
    requires arena.Valid() && n <= odd < |arena.parent| && n <= even < |arena.parent| && odd != even
    requires arena.State().Root(odd) == odd && arena.State().Root(even) == even
    requires forall j :: 0 <= j < n ==> arena.State().Root(j) == j && arena.rank[j] == 0
    modifies arena
    ensures arena.Valid() && |arena.parent| == old(|arena.parent|) && arena.tags == old(arena.tags)
    ensures arena.State().Root(odd) == odd && arena.State().Root(even) == even
    ensures forall j :: 0 <= j < n ==>
      arena.State().Root(j) == if arena.tags[j] % 2 == 0 then even else odd
  {
    ghost var tags := arena.tags;
    for i := 0 to n
      invariant arena.Valid() && |arena.parent| == old(|arena.parent|) && arena.tags == tags
      invariant arena.State().Root(odd) == odd && arena.State().Root(even) == even
      invariant forall j :: i <= j < n ==> arena.State().Root(j) == j && arena.rank[j] == 0
      invariant forall j :: 0 <= j < i ==> arena.State().Root(j) == if tags[j] % 2 == 0 then even else odd
    {
      var bucket := if arena.tags[i] % 2 == 0 then even else odd;
      Attach(arena, bucket, i);
    }
  }

  /** find on an arena whose representatives are listed in roots: the result is
      roots[x], and the arena's representatives are still those listed. */
  method FindIn(arena: Arena<int>, x: nat, ghost roots: seq<nat>) returns (r: nat)
    requires arena.Valid() && x < |arena.parent| == |roots|
    requires forall y {:trigger roots[y]} :: 0 <= y < |roots| ==> arena.State().Root(y) == roots[y]
    modifies arena
    ensures arena.Valid() && arena.tags == old(arena.tags) && |arena.parent| == |roots|
    ensures forall y {:trigger roots[y]} :: 0 <= y < |roots| ==> arena.State().Root(y) == roots[y]
    ensures r == roots[x]
  {
    r := arena.Find(x);
  }

  /** The payloads of nodes 0 .. n-1 whose find result is repr, in creation order, on
      an arena whose representatives are listed in roots; find changes none of them. */
  method Collect(arena: Arena<int>, n: nat, repr: nat, ghost roots: seq<nat>) returns (out: seq<int>)
    requires arena.Valid() && n <= |arena.parent| == |roots| && n <= |arena.tags|
    requires forall y {:trigger roots[y]} :: 0 <= y < |roots| ==> arena.State().Root(y) == roots[y]
    modifies arena
    ensures arena.Valid() && arena.tags == old(arena.tags) && |arena.parent| == |roots|
    ensures forall y {:trigger roots[y]} :: 0 <= y < |roots| ==> arena.State().Root(y) == roots[y]
    ensures out == ClassTags(roots, arena.tags, repr, n)
  {
    ghost var tags := arena.tags;
    out := [];
    for i := 0 to n
      invariant arena.Valid() && arena.tags == tags && |arena.parent| == |roots|
      invariant forall y {:trigger roots[y]} :: 0 <= y < |roots| ==> arena.State().Root(y) == roots[y]
      invariant out == ClassTags(roots, tags, repr, i)
    {
      var r := FindIn(arena, i, roots);
      if r == repr {
        out := out + [arena.tags[i]];
      }
    }
  }

  /** A fresh arena holding one node per payload of v, in order, followed by an "odd"
      and an "even" bucket node, where each payload's node has been united with the
      bucket of its parity. */
  method Build(v: seq<int>) returns (arena: Arena<int>, odd: nat, even: nat)
    ensures fresh(arena) && arena.Valid() && |arena.tags| == |v| + 2 && arena.tags[..|v|] == v
    ensures |v| <= odd < |arena.parent| && |v| <= even < |arena.parent| && odd != even
    ensures arena.State().Root(odd) == odd && arena.State().Root(even) == even
    ensures forall j :: 0 <= j < |v| ==>
      arena.State().Root(j) == if arena.tags[j] % 2 == 0 then even else odd
  {
    arena := new Arena<int>();
    NewNodes(arena, v);
    odd := arena.New(0);
    even := arena.New(0);
    Distribute(arena, |v|, odd, even);
  }

  /** Nodes carrying the payloads v are split by the parity of their payload into the
      class of an "odd" bucket node and that of an "even" bucket node; each class,
      listed in creation order, holds exactly the payloads of its parity. */
  method Partition(v: seq<int>) returns (odds: seq<int>, evens: seq<int>)
    ensures odds == OfParity(v, 1, |v|) && evens == OfParity(v, 0, |v|)
  {
    var arena, odd, even := Build(v);
    ghost var tags := arena.tags;
    ghost var roots := Roots(arena.State());
    ClassTagsByParity(roots, tags, odd, 1, |v|);
    ClassTagsByParity(roots, tags, even, 0, |v|);
    OfParityPrefix(tags, v, 1, |v|);
    OfParityPrefix(tags, v, 0, |v|);
    var oddRepr := FindIn(arena, odd, roots);
    var evenRepr := FindIn(arena, even, roots);
    odds := Collect(arena, |v|, oddRepr, roots);
    evens := Collect(arena, |v|, evenRepr, roots);
  }

  /** The partition of the payloads 10, 2, 7, 8, 19, 22, 3. */
  method PartitionExample() returns (odds: seq<int>, evens: seq<int>)
    ensures odds == [7, 19, 3] && evens == [10, 2, 8, 22]
  {
    var v := [10, 2, 7, 8, 19, 22, 3];
    odds, evens := Partition(v);
    PayloadParities(v);
  }
}
