/**
  The UnionFind class: a disjoint-set forest over the elements 0 .. N - 1,
  stored in place as one array of (parent, rank) records. Each method states
  its new array contents as a Forest function of the old contents (Compress,
  Link, Unite), and the class keeps a Partition labelling as its abstract
  state: two elements have the same root exactly when they carry the same
  label.
 */
module DisjointSet {
  import Forest
  import Partition

  /** The forest s groups elements exactly as the labelling does. */
  ghost predicate Represents(s: seq<Forest.Node>, labels: seq<nat>)
    requires Forest.Valid(s)
  {
    |labels| == |s| &&
    forall x, y | 0 <= x < |s| && 0 <= y < |s| :: Forest.Same(s, x, y) <==> labels[x] == labels[y]
  }

  /** The singleton forest represents the identity labelling. (Its validity
      is Forest.SingletonsSpec; it is restated here because Represents
      needs it.) */
  lemma SingletonsRepresent(n: nat)
    ensures Forest.Valid(Forest.Singletons(n))
    ensures Represents(Forest.Singletons(n), Partition.Identity(n))
  {
    Forest.SingletonsSpec(n);
  }

  /** Path compression does not change which labelling a forest represents. */
  lemma CompressRepresents(s: seq<Forest.Node>, labels: seq<nat>, i: nat)
    requires Forest.Valid(s) && i < |s| && Represents(s, labels)
    ensures Forest.Valid(Forest.Compress(s, i))
    ensures Represents(Forest.Compress(s, i), labels)
  {
    Forest.CompressSpec(s, i);
    var t := Forest.Compress(s, i);
    forall x, y | 0 <= x < |s| && 0 <= y < |s|
      ensures Forest.Same(t, x, y) <==> labels[x] == labels[y]
    {
      assert Forest.Same(t, x, y) == Forest.Same(s, x, y);
    }
  }

  /** unite on the forest refines Merge on the labels: the forest after
      unite(lhs, rhs) represents the labelling with the two groups merged. */
  lemma UniteRefinesMerge(s: seq<Forest.Node>, labels: seq<nat>, lhs: nat, rhs: nat)
    requires Forest.Valid(s) && lhs < |s| && rhs < |s| && Represents(s, labels)
    ensures Represents(Forest.Unite(s, lhs, rhs), Partition.Merge(labels, lhs, rhs))
  {
    Forest.UniteMerges(s, lhs, rhs);
  }

  class UnionFind {
    /** One record per element; the array itself never changes, only its
        cells, so the number of elements is fixed at construction. */
    const nodes: array<Forest.Node>
    /** The abstract partition: a group label per element. */
    ghost var Groups: seq<nat>

    ghost predicate Valid()
      reads this, nodes
    {
      Forest.Valid(nodes[..]) && Represents(nodes[..], Groups)
    }

    /** The number of elements. */
    function Size(): (n: nat)
      reads this, nodes
      requires Valid()
      ensures n == |Groups|
    {
      nodes.Length
    }

    /** The root of element i in the current forest. */
    ghost function Root(i: nat): (r: nat)
      reads this, nodes
      requires Valid() && i < Size()
      ensures r < Size() && nodes[r].parent == r
    {
      Forest.Root(nodes[..], i)
    }

    /** N singleton groups: every element is its own parent, with rank 0. */
    constructor (size: nat)
      ensures Valid() && fresh(nodes)
      ensures Size() == size
      ensures nodes[..] == Forest.Singletons(size)
      ensures Groups == Partition.Identity(size)
      ensures forall i | 0 <= i < size :: Root(i) == i
    {
      var a := new Forest.Node[size](_ => Forest.Node(0, 0));
      for i := 0 to size
        invariant forall j | 0 <= j < size :: a[j] == Forest.Node(if j < i then j else 0, 0)
      {
        a[i] := a[i].(parent := i);
      }
      assert forall j | 0 <= j < size :: a[..][j] == Forest.Singletons(size)[j];
      assert a[..] == Forest.Singletons(size);
      Forest.SingletonsSpec(size);
      SingletonsRepresent(size);
      nodes := a;
      Groups := Partition.Identity(size);
      new;
      assert nodes[..] == Forest.Singletons(size);
    }

    /** find_root: returns i's root and compresses i's path: the new array
        is the old one with every node on i's path pointed straight at the
        root, so i now points at it, and no element's root changes.
        Forest.CompressSpec adds that no rank changes either. */
    method FindRoot(i: nat) returns (r: nat)
      requires Valid() && i < Size()
      modifies nodes
      ensures Valid()
      ensures r == old(Root(i))
      ensures nodes[..] == Forest.Compress(old(nodes[..]), i)
      ensures nodes[i].parent == r
      ensures forall j | 0 <= j < Size() :: Root(j) == old(Root(j))
      decreases Forest.MaxRank(nodes[..]) - nodes[i].rank
    {
      ghost var s := nodes[..];
      var p := nodes[i].parent;
      if p != nodes[p].parent {
        assert s[p].rank > s[i].rank;
        var q := FindRoot(p);
        nodes[i] := nodes[i].(parent := q);
        Forest.CompressStep(s, i);
      } else {
        Forest.CompressFlat(s, i);
      }
      r := nodes[i].parent;
      CompressRepresents(s, Groups, i);
      Forest.CompressSpec(s, i);
    }

    /** The union-by-rank step inside unite, on two roots a and b: the root
        of strictly smaller rank goes under the other; on a tie b goes under
        a and a's rank grows by one. Roots that coincide are left alone. It
        keeps the forest valid; Unite restores the labelling afterwards. */
    method Link(a: nat, b: nat)
      requires a < nodes.Length && b < nodes.Length
      requires Forest.Valid(nodes[..]) && nodes[a].parent == a && nodes[b].parent == b
      modifies nodes
      ensures nodes[..] == Forest.Link(old(nodes[..]), a, b)
      ensures Forest.Valid(nodes[..])
    {
      ghost var s := nodes[..];
      if a != b {
        if nodes[a].rank < nodes[b].rank {
          nodes[a] := nodes[a].(parent := b);
        } else if nodes[a].rank > nodes[b].rank {
          nodes[b] := nodes[b].(parent := a);
        } else {
          nodes[b] := nodes[b].(parent := a);
          nodes[a] := nodes[a].(rank := nodes[a].rank + 1);
        }
      }
      Forest.LinkSpec(s, a, b);
    }

    /** unite: union by rank of the groups of lhs and rhs. Afterwards the two
        share the surviving root, which is the root of larger rank, or lhs's
        root on a tie. Since the new array is Forest.Unite of the old one,
        Forest.UniteRoots gives every other element's new root. */
    method Unite(lhs: nat, rhs: nat)
      requires Valid() && lhs < Size() && rhs < Size()
      modifies this, nodes
      ensures Valid()
      ensures nodes[..] == Forest.Unite(old(nodes[..]), lhs, rhs)
      ensures Groups == Partition.Merge(old(Groups), lhs, rhs)
      ensures Root(lhs) == Root(rhs) == Forest.Winner(old(nodes[..]), old(Root(lhs)), old(Root(rhs)))
    {
      ghost var s := nodes[..];
      var lhsRoot := FindRoot(lhs);
      ghost var s1 := nodes[..];
      var rhsRoot := FindRoot(rhs);
      ghost var s2 := nodes[..];
      assert Root(lhsRoot) == old(Root(lhsRoot)) == lhsRoot;
      Link(lhsRoot, rhsRoot);
      assert nodes[..] == Forest.Unite(s, lhs, rhs) by {
        assert s1 == Forest.Compress(s, lhs) && s2 == Forest.Compress(s1, rhs);
        assert lhsRoot == Forest.Root(s, lhs) && rhsRoot == Forest.Root(s1, rhs);
      }
      Groups := Partition.Merge(Groups, lhs, rhs);
      UniteRefinesMerge(s, old(Groups), lhs, rhs);
      Forest.UniteRoots(s, lhs, rhs);
    }
  }

  /** In a valid object, two elements have the same root exactly when they
      are in the same group of the abstract partition: the invariant Valid()
      read in terms of UnionFind.Root, for clients of the class. */
  lemma RootsMatchGroups(uf: UnionFind, x: nat, y: nat)
    requires uf.Valid() && x < uf.Size() && y < uf.Size()
    ensures uf.Root(x) == uf.Root(y) <==> uf.Groups[x] == uf.Groups[y]
  {
    assert Forest.Same(uf.nodes[..], x, y) <==> uf.Groups[x] == uf.Groups[y];
  }
}
