# Union-find (disjoint-set forest) in Dafny

A model of the `UnionFind` class template of `union_find/union_find.hpp`: a
disjoint-set forest over a fixed universe of `N` elements `0 .. N-1`, stored
as one flat array of `(parent, rank)` records. Construction makes `N`
singleton groups; `find_root` returns an element's root and compresses the
path it walked; `unite` merges two groups by rank; `size` returns `N`.

The project has three modules:

- `Forest` (`forest.dfy`): the forest as a value, `seq<Node>`. `Valid` is the
  structural invariant: every parent is in range, and every non-root has a
  strictly smaller rank than its parent, so parent chains cannot cycle.
  `Root` follows a chain to its end. Termination uses the measure
  `MaxRank(s) - s[i].rank`. `Compress`, `Link` and `Unite` give the array
  contents that `find_root`, the union-by-rank step and `unite` leave behind.
  `Compress` is not recursive: it sends every node on `i`'s path straight to
  `i`'s root. The lemmas prove what the operations promise.
- `Partition` (`partition.dfy`): a reference model of the partition, with no
  forest in it. Each element has a group label, and `Merge` relabels both
  groups at once (quick-find).
- `DisjointSet` (`union_find.dfy`): the class `UnionFind`. It holds
  `const nodes: array<Node>`, the C++ `m_vec`, and a ghost labelling `Groups`.
  `Valid()` ties the two together: two elements share a root iff they share a
  label. The constructor runs the source's loop. `FindRoot` recurses as the
  source does: when `parent != parent-of-parent`, it recurses on the parent
  and stores the root it gets back. `Unite` calls `FindRoot` on `lhs`, then on
  `rhs`, then the union-by-rank step `Link` (source lines 76-85, moved into
  its own method). Each method's `ensures` gives the whole new array as a
  `Forest` function of the old one, and gives the new labelling. The
  `Forest` lemmas then prove what those new states mean.

`find_root` does full path compression. The guard `parent != parent-of-parent`
stops the recursion only once the parent is a root, and every node on the
path then gets the root as its parent. `Forest.Compress` states this, and
`Forest.CompressStep` and `Forest.CompressFlat` prove that the recursion
achieves it.

## Model

| member | source | states |
|---|---|---|
| `Forest.Root` | union_find/union_find.hpp:65-67 | the end of i's parent chain is a root (its parent is itself); it is i exactly when i is a root, and otherwise its rank is strictly larger than i's |
| `Forest.SingletonsSpec` | union_find/union_find.hpp:53-57 | the constructed forest (parent i, rank 0 for all i) is valid, every element is its own root, two elements share a group iff they are equal, and all N elements are roots |
| `Forest.OnPathSameRoot` | union_find/union_find.hpp:65-66 | every node that find_root visits from i lies in i's group |
| `Forest.RedirectKeepsRoots` | union_find/union_find.hpp:66 | pointing any nodes straight at their own roots changes no element's root |
| `Forest.CompressValid` | union_find/union_find.hpp:65-66 | path compression keeps the rank-increases-along-links invariant and every rank, and each parent either stays or becomes that node's root |
| `Forest.CompressKeepsRoots` | union_find/union_find.hpp:65-66 | path compression leaves every root record as it was, so the set of roots is unchanged |
| `Forest.CompressSpec` | union_find/union_find.hpp:65-67 | after find_root(i) the forest is valid, every element's root is unchanged, ranks and roots are untouched, and i points straight at its root |
| `Forest.CompressFlat` | union_find/union_find.hpp:65-67 | when i's parent is already a root (in particular when i is a root), find_root returns that parent and changes nothing |
| `Forest.CompressStep` | union_find/union_find.hpp:65-66 | the recursive case: compressing from a non-root i equals compressing from its parent, then setting i's parent to the root found; i's root is its parent's root |
| `Forest.CompressIdempotent` | union_find/union_find.hpp:61-68 | a second find_root(i) with no unite in between changes nothing (and returns the same root, since roots are preserved) |
| `Forest.LinkSpec` | union_find/union_find.hpp:77-84 | linking two roots keeps the forest valid; members of either group get the winning root, every other element keeps its root |
| `Forest.LinkRootSet` | union_find/union_find.hpp:76-84 | linking two distinct roots removes exactly the losing root from the set of roots; linking a root with itself removes nothing |
| `Forest.UniteRoots` | union_find/union_find.hpp:75-85 | after unite(lhs, rhs), every element whose root was lhs's or rhs's root has the winning root, and every other element keeps its root |
| `Forest.UniteMerges` | union_find/union_find.hpp:75-85 | afterwards lhs and rhs share a root, and x, y share a root iff they did before or each was in the group of lhs or of rhs |
| `Forest.UniteRanks` | union_find/union_find.hpp:77-84 | the only rank that changes is lhs's root, by exactly +1, and only on a rank tie between distinct roots; no rank decreases |
| `Forest.UniteAttaches` | union_find/union_find.hpp:77-84 | for distinct roots: a root of strictly smaller rank is attached under the other, which stays a root; on equal ranks rhs's root is attached under lhs's root |
| `Forest.UniteSameGroup` | union_find/union_find.hpp:76 | when lhs and rhs already share a root, unite changes no element's root and no rank (so unite(a, a) leaves the partition as it was) |
| `Forest.UniteSymmetric` | union_find/union_find.hpp:72-86 | unite(a, b) and unite(b, a) yield the same partition |
| `Forest.UniteGroupCount` | union_find/union_find.hpp:76-85 | unite lowers the number of roots by exactly one, or leaves it unchanged when both elements were already in one group |
| `Partition.Identity` | union_find/union_find.hpp:53-57 | the initial labelling: two elements share a label iff they are the same element |
| `Partition.Merge` | union_find/union_find.hpp:75-85 | the reference merge: a and b share a label afterwards, and x, y share a label iff they did before or each was in the group of a or of b |
| `DisjointSet.SingletonsRepresent` | union_find/union_find.hpp:52-57 | the constructed forest groups elements exactly as the identity labelling does |
| `DisjointSet.CompressRepresents` | union_find/union_find.hpp:61-68 | find_root does not change the partition the forest represents |
| `DisjointSet.UniteRefinesMerge` | union_find/union_find.hpp:72-86 | the forest after unite(lhs, rhs) groups elements exactly as the reference labelling with the two groups merged |
| `DisjointSet.UnionFind.Size` | union_find/union_find.hpp:90-94 | size() is the number of elements of the partition; the array is a constant field, so no operation changes it |
| `DisjointSet.UnionFind.constructor` | union_find/union_find.hpp:52-57 | the loop leaves record i as (parent i, rank 0) for every i < N; the object is valid, has size N, its partition is N singletons, and every element is its own root |
| `DisjointSet.UnionFind.FindRoot` | union_find/union_find.hpp:61-68 | requires i < size(); returns the root of i as it was before the call; the new array is exactly the old one with every node on i's path pointed at that root, so i now points at it; no element's root and no group changes (`Forest.CompressSpec` adds that no rank changes) |
| `DisjointSet.UnionFind.Link` | union_find/union_find.hpp:76-85 | the union-by-rank step inside unite, on two roots of a valid forest; the new array is exactly Forest.Link of the old one and the forest stays valid |
| `DisjointSet.UnionFind.Unite` | union_find/union_find.hpp:72-86 | requires both indices < size(); the new array is Forest.Unite of the old one and the labelling is the old one with the two groups merged; lhs and rhs now share the winning root (larger rank, lhs's root on a tie); every other element's root then follows from `Forest.UniteRoots` |
| `DisjointSet.RootsMatchGroups` | union_find/union_find.hpp:61-68 | a corollary of the object invariant, read through `UnionFind.Root`: in a valid object, two elements have the same root exactly when they are in the same group of the abstract partition |

## Left out

- Genericity over the `Integer` index type, and the fixed width of `parent` and `rank`: indices and ranks are `nat`, so a rank overflow in a narrow integer type is not modelled.
- The debug-build `assert(i < m_vec.size())` and the undefined behaviour of an out-of-range index in release builds: both are modelled as the precondition `i < Size()`. Negative indices of a signed `Integer` cannot occur with `nat`.
- DisjointSet.UnionFind.Size: requires the object invariant `Valid()`, which the constructor establishes and every method keeps. The C++ `size()` has no precondition. The invariant is used only to relate `N` to the abstract partition.
- The bound on tree height that ranks give, amortised inverse-Ackermann cost and recursion depth: these are performance, not functional behaviour. The model proves only that rank strictly increases along parent links.
- Concurrency: there is none, and the structure is not thread-safe.
- Concrete client scenarios (five elements united pairwise, or a thousand elements united as `i` and `i+1` in any order) are not written out as proofs. Each follows from repeated use of `UniteMerges` and `UniteRefinesMerge`, and `Size` cannot change because the array is a constant field.
