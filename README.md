# Union-find nodes with path compression and union by rank

This project models the disjoint-set (union-find) node of the `union-find` Rust crate and proves its properties in Dafny. Each node carries three fields:

- a payload `tag`;
- a `rank`;
- a `parent` reference.

A node is the representative (root) of its class exactly when its parent is itself. The crate offers four operations:

- `Repr::new` makes a singleton root of rank 0.
- `find` returns the root of a node's class. On the way back from its recursion it rewrites every visited node's parent to that root (path compression).
- `union` links the two roots by rank. The root of strictly lower rank goes under the other. On a tie, the second root goes under the first, and the first root's rank grows by one.
- `is_root` tells whether a node is its own parent.

The Rust nodes are heap boxes that refer to each other through raw pointers. Here they live in an arena: node `i` is the `i`-th node created, and a parent reference is an index. An index never moves, which is the address stability the pinned boxes provide.

The project has three modules:

- `DisjointSet` (forest.dfy) is the value-level meaning. `Forest(parent, rank)` is a snapshot of all nodes, and `Valid` is the invariant: every parent is in range, and rank strictly grows along every edge that is not a root's self-loop. `Root`, `Compress`, `Found`, `Link`, `Union` and `Add` give the representative and the snapshot after `find`, `union` and `new`. The lemmas prove what the crate promises about those functions.
- `UnionFind` (union_find.dfy) is the imperative model. `class Arena<T>` holds the fields `tags`, `parent` and `rank`, which its methods `New`, `Find` and `Union` update in place. Each method's postcondition ties the new state to the matching `DisjointSet` function of the old state. `Find` recurses exactly as the source does, and its termination measure is `MaxOf(rank) - rank[x]`, which the rank invariant makes decrease.
- `Scenarios` (scenarios.dfy) holds client programs that replay the crate's tests on an arena. Each one returns what its test observes, and its postcondition is the test's expectation, derived from the arena's contracts and the `DisjointSet` lemmas.

## Model

| member | source | states |
|---|---|---|
| DisjointSet.Forest.Root | src/lib.rs:32-41 | following parents from any node ends at a node in range that is its own parent |
| DisjointSet.Forest.RootRank | src/lib.rs:51-57 | a non-root's representative has strictly greater rank than the node itself |
| DisjointSet.Forest.Depth | src/lib.rs:33-38 | the number of parent steps find takes is zero exactly for a root and never exceeds the rank gap to the root |
| DisjointSet.Forest.PathSet | src/lib.rs:33-38 | the nodes find(x) visits are Depth(x) + 1 distinct nodes, all in x's class and none of rank below x's |
| DisjointSet.Forest.DepthWithinClass | src/lib.rs:33-38 | find(x) takes fewer parent steps than x's class has nodes |
| DisjointSet.Forest.AncestorRank | src/lib.rs:51-57 | rank never decreases along parent steps and strictly increases once a non-root steps |
| DisjointSet.Forest.NoCycle | src/lib.rs:51-57 | the parent graph has no cycle except the self-loops at roots |
| DisjointSet.Forest.ReachesRoot | src/lib.rs:33-40 | following parents from x reaches x's root after Depth(x) steps, so find terminates |
| DisjointSet.Forest.AddValid | src/lib.rs:17-29 | adding a node that is its own parent with rank 0 keeps the invariant |
| DisjointSet.Forest.AddKeepsRoot | src/lib.rs:17-29 | creating a node changes no existing node's representative |
| DisjointSet.Forest.AddSingleton | src/lib.rs:17-29 | new makes a singleton class: the new node is a root of rank 0, and every other node keeps its rank and representative |
| DisjointSet.Forest.Add | src/lib.rs:17-29 | the nodes after new: one more node, its own parent, of rank 0, and every existing parent and rank as before |
| DisjointSet.Forest.Compress | src/lib.rs:33-40 | the nodes after find(x): the parents of x's path are rewritten to its root on the way back, ranks unchanged (CompressPath gives the exact parents) |
| DisjointSet.Forest.Link | src/lib.rs:50-59 | the last step of union on roots l and r: only l's and r's parent and rank can change, and equal roots change nothing |
| DisjointSet.Forest.Union | src/lib.rs:44-61 | the nodes after union(a, b): the two finds, then the link of the two roots, over the same nodes (UnionLinks states what changes) |
| DisjointSet.Forest.OnPathFacts | src/lib.rs:33-37 | every node find(x) rewrites is an in-range non-root in x's class |
| DisjointSet.Forest.CompressPath | src/lib.rs:33-40 | find(x) sets the parent of exactly the nodes on x's path to x's root and leaves every other parent unchanged |
| DisjointSet.Forest.CompressValid | src/lib.rs:33-40 | path compression keeps the rank invariant |
| DisjointSet.Forest.CompressKeepsRoot | src/lib.rs:33-40 | path compression keeps each node's representative |
| DisjointSet.Forest.FindPreserves | src/lib.rs:32-41 | find keeps the invariant, changes no rank and no representative, and neither creates nor removes a root |
| DisjointSet.Forest.FindIdempotent | src/lib.rs:32-41 | after find(x), x's parent is its root, and a second find(x) changes nothing |
| DisjointSet.Forest.Found | src/lib.rs:45-46 | the two find calls that start union keep the invariant, the ranks, every representative and every node's root status |
| DisjointSet.Forest.LinkValid | src/lib.rs:50-59 | linking two roots by rank keeps the invariant |
| DisjointSet.Forest.LinkRoot | src/lib.rs:50-59 | after linking roots l and r, the nodes of both classes have the rank winner (l on a tie) as representative, and every other node keeps its own |
| DisjointSet.Forest.UnionMerges | src/lib.rs:44-61 | union(a, b) keeps the invariant; the classes of a and b get the survivor as representative, and no other representative changes |
| DisjointSet.Forest.UnionJoins | src/lib.rs:44-61 | after union(a, b), a and b have the same representative |
| DisjointSet.Forest.UnionSameClass | src/lib.rs:44-61 | after union, two nodes share a class if and only if they shared one before, or each was in a's or b's class |
| DisjointSet.Forest.UnionLinks | src/lib.rs:45-59 | with equal roots, union changes nothing beyond its two finds; otherwise it changes one parent only, the absorbed root's, to the survivor |
| DisjointSet.Forest.UnionRootStatus | src/lib.rs:50-59 | union turns exactly the absorbed root into a non-root when the roots differ, and otherwise changes no root status |
| DisjointSet.Forest.UnionRanks | src/lib.rs:48-57 | no rank shrinks; only a's root can change rank, by exactly one, while staying a root; this happens if and only if the roots are distinct and of equal rank |
| DisjointSet.Forest.UnionSingleton | src/lib.rs:44-61 | uniting a singleton of rank 0 into a's class gives it a's representative, keeps all other representatives, and changes no rank but that root's |
| DisjointSet.Forest.UnionTwice | src/lib.rs:44-61 | a redundant union(b, a) after union(a, b) keeps the invariant and changes no representative |
| UnionFind.Arena.New | src/lib.rs:17-29 | appends a node that is its own parent with rank 0 and the given tag, in a class of its own; existing nodes keep their representative |
| UnionFind.Arena.Find | src/lib.rs:32-41 | returns x's representative, makes it x's parent, and leaves the arena in the path-compressed state; ranks, tags and all representatives are unchanged |
| UnionFind.Arena.Union | src/lib.rs:44-61 | the new arena is the old one after the two finds followed by the link by rank, and the invariant holds |
| UnionFind.Arena.IsRoot | src/lib.rs:64-66 | a node is its own parent if and only if it is the representative of its class |
| Scenarios.SelfFind | tests/lib.rs:3-7 | a fresh node is a root, and its parent reference designates a node of the arena (the non-null parent of src/lib.rs:74-77) |
| Scenarios.Separate | tests/lib.rs:10-14 | two nodes never united have different representatives |
| Scenarios.UnionThenFind | tests/lib.rs:17-22 | after x.union(y), x and y have the same representative |
| Scenarios.UnionBothWays | src/lib.rs:106-112 | after x.union(y) and y.union(x), x and y still have the same representative |
| Scenarios.RankAwareInsertion | src/lib.rs:80-91 | the ranks observed in the test: 1 and 0 after the first union; 1, 0 and 0 after the second |
| Scenarios.CorrectIncrementation | src/lib.rs:94-103 | uniting two rank-1 classes gives w rank 2 |
| Scenarios.NewNodes | tests/lib.rs:28-31 | one new node per payload, in order: node j carries v[j] and is a singleton of rank 0 |
| Scenarios.Attach | tests/lib.rs:37-41 | bucket.union(x) on a singleton x gives x the bucket as representative and changes no other representative, and no rank but the bucket's |
| Scenarios.Distribute | tests/lib.rs:36-42 | each payload's node ends up in the class of the bucket of its payload's parity, and both buckets stay roots |
| Scenarios.Build | tests/lib.rs:26-42 | the arena the partition test builds: the payloads in order, two bucket roots, and each payload's node in its parity's bucket class |
| Scenarios.Collect | tests/lib.rs:46-55 | the payloads of the nodes whose find result is repr, in creation order; no representative changes |
| Scenarios.ClassTagsByParity | tests/lib.rs:46-65 | when class membership matches payload parity, a class's payloads are exactly the payloads of that parity, in order |
| Scenarios.PayloadParities | tests/lib.rs:67-68 | the odd payloads of 10, 2, 7, 8, 19, 22, 3 are 7, 19, 3 and the even ones are 10, 2, 8, 22 |
| Scenarios.Partition | tests/lib.rs:25-69 | for any payload vector, the odd bucket's class lists exactly the odd payloads and the even one exactly the even payloads, in order |
| Scenarios.PartitionExample | tests/lib.rs:25-69 | the partition of 10, 2, 7, 8, 19, 22, 3 is [7, 19, 3] and [10, 2, 8, 22] |

## Left out

- Raw pointers, `Pin<Box<...>>`, `Box::into_raw` and `Box::from_raw`, and the unsafe discipline that keeps node addresses stable (src/lib.rs:1-28): nodes are arena indices, so a parent reference is an index and the null pointer has no counterpart. The null check in `non_null_parent` becomes "the parent is an index of the arena".
- UnionFind.Arena.Union: ranks are unbounded `nat`, so the `u32` wrap-around of `rank += 1` (src/lib.rs:56) is not modelled. The bound rank ≤ log2(number of nodes), which makes that overflow unreachable in practice, is not proved.
- Rust's borrow rules keep `x.union(&mut x)` from compiling, but the arena's `Union(a, a)` is allowed, and it links nothing.
- The payload `tag` is carried in `tags` and never read by the algorithm. Only the partition scenario reads it. The tests' payloads are Rust `i32` and `u32`; here they become unbounded `int`, which loses nothing, because the partition test only reads them through `% 2 == 0`, and that test gives the same answer under truncating and Euclidean remainder.
- `find` returns a raw pointer to the root; here it returns the root's index.
- The test scaffolding of the partition test (the `Vec` of nodes and the `filter_map` collection) is modelled as node indices 0..n-1 and as the `Collect` loop.
- The `Debug` derivation, the Criterion benchmark in benches/amortized_unions.rs and the amortized complexity of the operations: none of them is functional behaviour.
