/**
  The disjoint-set forest as a value: a sequence of (parent, rank) records,
  one per element 0 .. |s| - 1. The functions here specify what the in-place
  operations of the UnionFind class do to that sequence, and the lemmas state
  what those operations promise about roots, ranks and groups.
 */
module Forest {

  /** One element record: the index of its parent and its rank. */
  datatype Node = Node(parent: nat, rank: nat)

  /** Every parent is in range, and rank strictly increases along every parent
      link that is not a self-loop. This is what makes parent chains finite. */
  ghost predicate Valid(s: seq<Node>) {
    forall i | 0 <= i < |s| ::
      s[i].parent < |s| && (s[i].parent != i ==> s[i].rank < s[s[i].parent].rank)
  }

  /** An element is a root when its parent is itself. */
  ghost predicate IsRoot(s: seq<Node>, i: nat)
    requires i < |s|
  {
    s[i].parent == i
  }

  /** The largest rank in the forest, used as a bound in termination measures. */
  ghost function MaxRank(s: seq<Node>): (m: nat)
    ensures forall i | 0 <= i < |s| :: s[i].rank <= m
  {
    if s == [] then 0
    else
      var m := MaxRank(s[..|s| - 1]);
      if s[|s| - 1].rank < m then m else s[|s| - 1].rank
  }

  /** The end of i's parent chain. */
  ghost function Root(s: seq<Node>, i: nat): (r: nat)
    requires Valid(s) && i < |s|
    ensures r < |s| && IsRoot(s, r)
    ensures r == i <==> IsRoot(s, i)
    ensures r != i ==> s[i].rank < s[r].rank
    decreases MaxRank(s) - s[i].rank
  {
    if s[i].parent == i then i else Root(s, s[i].parent)
  }

  /** x and y are in the same group. */
  ghost predicate Same(s: seq<Node>, x: nat, y: nat)
    requires Valid(s) && x < |s| && y < |s|
  {
    Root(s, x) == Root(s, y)
  }

  /** j lies on the parent chain from i to its root (both ends included). */
  ghost predicate OnPath(s: seq<Node>, i: nat, j: nat)
    requires Valid(s) && i < |s|
    decreases MaxRank(s) - s[i].rank
  {
    i == j || (s[i].parent != i && OnPath(s, s[i].parent, j))
  }

  /** The set of roots: one per group. */
  ghost function RootSet(s: seq<Node>): set<nat> {
    set i | 0 <= i < |s| && s[i].parent == i
  }

  /** The N singleton groups that construction yields. */
  ghost function Singletons(n: nat): (s: seq<Node>)
    ensures |s| == n
  {
    seq(n, i requires 0 <= i < n => Node(i, 0))
  }

  /** What a full path compression from i leaves behind: every node on i's
      path now points straight at i's root; nothing else changes. */
  ghost function Compress(s: seq<Node>, i: nat): (t: seq<Node>)
    requires Valid(s) && i < |s|
    ensures |t| == |s|
  {
    seq(|s|, j requires 0 <= j < |s| =>
      if OnPath(s, i, j) then s[j].(parent := Root(s, i)) else s[j])
  }

  /** Union by rank of two roots a and b: the root of strictly smaller rank is
      attached under the other; on a tie, b goes under a and a's rank grows. */
  ghost function Link(s: seq<Node>, a: nat, b: nat): (t: seq<Node>)
    requires a < |s| && b < |s|
    ensures |t| == |s|
  {
    if a == b then s
    else if s[a].rank < s[b].rank then s[a := s[a].(parent := b)]
    else if s[a].rank > s[b].rank then s[b := s[b].(parent := a)]
    else s[b := s[b].(parent := a)][a := s[a].(rank := s[a].rank + 1)]
  }

  /** The root that survives Link(s, a, b). */
  ghost function Winner(s: seq<Node>, a: nat, b: nat): nat
    requires a < |s| && b < |s|
  {
    if s[a].rank < s[b].rank then b else a
  }

  /** unite(lhs, rhs): find the root of lhs, then of rhs (both compressing),
      then link the two roots. */
  ghost function Unite(s: seq<Node>, lhs: nat, rhs: nat): (t: seq<Node>)
    requires Valid(s) && lhs < |s| && rhs < |s|
    ensures |t| == |s| && Valid(t)
  {
    CompressSpec(s, lhs);
    var s1 := Compress(s, lhs);
    CompressSpec(s1, rhs);
    var s2 := Compress(s1, rhs);
    LinkSpec(s2, Root(s, lhs), Root(s1, rhs));
    Link(s2, Root(s, lhs), Root(s1, rhs))
  }

  // ---------------------------------------------------------------------
  // Construction

  /** Construction yields a valid forest in which every element is its own
      root, so there are exactly n groups, each a singleton. */
  lemma SingletonsSpec(n: nat)
    ensures Valid(Singletons(n))
    ensures forall i | 0 <= i < n :: Root(Singletons(n), i) == i
    ensures forall x, y | 0 <= x < n && 0 <= y < n :: Same(Singletons(n), x, y) <==> x == y
    ensures forall i: nat :: i in RootSet(Singletons(n)) <==> i < n
  {
    var s := Singletons(n);
    assert Valid(s);
    forall i | 0 <= i < n ensures Root(s, i) == i {
      assert IsRoot(s, i);
    }
  }

  // ---------------------------------------------------------------------
  // Path compression

  /** Every node on i's path belongs to i's group. */
  lemma {:induction false} OnPathSameRoot(s: seq<Node>, i: nat, j: nat)
    requires Valid(s) && i < |s| && OnPath(s, i, j)
    ensures j < |s| && Root(s, j) == Root(s, i)
    decreases MaxRank(s) - s[i].rank
  {
    if i != j {
      OnPathSameRoot(s, s[i].parent, j);
    }
  }

  /** When i's parent is already a root, i's path is just i and that root. */
  lemma OnPathShort(s: seq<Node>, i: nat, j: nat)
    requires Valid(s) && i < |s| && IsRoot(s, s[i].parent) && OnPath(s, i, j)
    ensures j == i || j == s[i].parent
  {
    if i != j {
      assert OnPath(s, s[i].parent, j);
    }
  }

  /** Redirecting any set of nodes straight at their own roots changes no
      element's root. */
  lemma {:induction false} RedirectKeepsRoots(s: seq<Node>, t: seq<Node>, k: nat)
    requires Valid(s) && Valid(t) && |t| == |s| && k < |s|
    requires forall j | 0 <= j < |s| :: t[j].parent == s[j].parent || t[j].parent == Root(s, j)
    ensures Root(t, k) == Root(s, k)
    decreases MaxRank(s) - s[k].rank
  {
    var r := Root(s, k);
    assert t[r].parent == r;
    if t[k].parent == r {
      if r != k {
        assert Root(t, k) == Root(t, r);
      }
    } else {
      var p := s[k].parent;
      if p != k {
        RedirectKeepsRoots(s, t, p);
      }
    }
  }

  /** What compression from i does to the single record j: its rank stays,
      and its parent either stays or becomes j's own root. */
  lemma CompressAt(s: seq<Node>, i: nat, j: nat)
    requires Valid(s) && i < |s| && j < |s|
    ensures Compress(s, i)[j].rank == s[j].rank
    ensures Compress(s, i)[j].parent == s[j].parent || Compress(s, i)[j].parent == Root(s, j)
    ensures Compress(s, i)[j].parent < |s|
    ensures Compress(s, i)[j].parent != j ==> s[j].rank < s[Compress(s, i)[j].parent].rank
    ensures IsRoot(Compress(s, i), j) <==> IsRoot(s, j)
    ensures IsRoot(s, j) ==> Compress(s, i)[j] == s[j]
  {
    if OnPath(s, i, j) {
      OnPathSameRoot(s, i, j);
    }
  }

  /** Path compression keeps the forest valid and every rank as it was, and
      each parent either stays or becomes that node's root. */
  lemma CompressValid(s: seq<Node>, i: nat)
    requires Valid(s) && i < |s|
    ensures Valid(Compress(s, i))
    ensures forall j | 0 <= j < |s| :: Compress(s, i)[j].rank == s[j].rank
    ensures forall j | 0 <= j < |s| :: Compress(s, i)[j].parent == s[j].parent || Compress(s, i)[j].parent == Root(s, j)
  {
    var t := Compress(s, i);
    forall j | 0 <= j < |s|
      ensures t[j].rank == s[j].rank
      ensures t[j].parent == s[j].parent || t[j].parent == Root(s, j)
      ensures t[j].parent < |s|
      ensures t[j].parent != j ==> t[j].rank < t[t[j].parent].rank
    {
      CompressAt(s, i, j);
      CompressAt(s, i, t[j].parent);
    }
  }

  /** Path compression leaves every root record as it was, and so keeps the
      set of roots. */
  lemma CompressKeepsRoots(s: seq<Node>, i: nat)
    requires Valid(s) && i < |s|
    ensures forall j | 0 <= j < |s| :: IsRoot(s, j) ==> Compress(s, i)[j] == s[j]
    ensures RootSet(Compress(s, i)) == RootSet(s)
  {
    var t := Compress(s, i);
    forall j | 0 <= j < |s|
      ensures IsRoot(t, j) <==> IsRoot(s, j)
      ensures IsRoot(s, j) ==> t[j] == s[j]
    {
      CompressAt(s, i, j);
    }
  }

  /** Path compression from i keeps the forest valid, leaves every element's
      root and every rank as it was, keeps the set of roots, and leaves i
      pointing straight at its root. */
  lemma CompressSpec(s: seq<Node>, i: nat)
    requires Valid(s) && i < |s|
    ensures Valid(Compress(s, i))
    ensures forall j | 0 <= j < |s| :: Root(Compress(s, i), j) == Root(s, j)
    ensures forall j | 0 <= j < |s| :: Compress(s, i)[j].rank == s[j].rank
    ensures forall j | 0 <= j < |s| :: IsRoot(s, j) ==> Compress(s, i)[j] == s[j]
    ensures RootSet(Compress(s, i)) == RootSet(s)
    ensures Compress(s, i)[i].parent == Root(s, i)
  {
    CompressValid(s, i);
    CompressKeepsRoots(s, i);
    var t := Compress(s, i);
    forall k | 0 <= k < |s| ensures Root(t, k) == Root(s, k) {
      RedirectKeepsRoots(s, t, k);
    }
  }

  /** A second compression from the same element changes nothing: a lookup
      repeated with no union in between finds the tree already flat. */
  lemma CompressIdempotent(s: seq<Node>, i: nat)
    requires Valid(s) && i < |s|
    ensures Valid(Compress(s, i))
    ensures Compress(Compress(s, i), i) == Compress(s, i)
  {
    CompressSpec(s, i);
    var t := Compress(s, i);
    assert IsRoot(t, t[i].parent);
    CompressFlat(t, i);
  }

  /** When i's parent is already a root (in particular when i is a root),
      compression from i changes nothing and that parent is i's root. */
  lemma CompressFlat(s: seq<Node>, i: nat)
    requires Valid(s) && i < |s| && IsRoot(s, s[i].parent)
    ensures Root(s, i) == s[i].parent
    ensures Compress(s, i) == s
  {
    if s[i].parent != i {
      assert Root(s, i) == Root(s, s[i].parent);
    }
    forall j | 0 <= j < |s| ensures Compress(s, i)[j] == s[j] {
      if OnPath(s, i, j) {
        OnPathShort(s, i, j);
      }
    }
  }

  /** The recursion behind find_root: compressing from a non-root i is
      compressing from its parent p, then pointing i at the root found. */
  lemma CompressStep(s: seq<Node>, i: nat)
    requires Valid(s) && i < |s| && !IsRoot(s, i)
    ensures Root(s, i) == Root(s, s[i].parent)
    ensures Compress(s, i) ==
      Compress(s, s[i].parent)[i := Compress(s, s[i].parent)[i].(parent := Root(s, s[i].parent))]
  {
    var p := s[i].parent;
    var t := Compress(s, p)[i := Compress(s, p)[i].(parent := Root(s, p))];
    forall j | 0 <= j < |s| ensures Compress(s, i)[j] == t[j] {
      assert OnPath(s, i, j) <==> j == i || OnPath(s, p, j);
    }
  }

  // ---------------------------------------------------------------------
  // Union by rank

  /** Linking two roots keeps the forest valid; every element of either group
      now has the winner as its root, every other element keeps its root. */
  lemma LinkSpec(s: seq<Node>, a: nat, b: nat)
    requires Valid(s) && a < |s| && b < |s| && IsRoot(s, a) && IsRoot(s, b)
    ensures Valid(Link(s, a, b))
    ensures forall x | 0 <= x < |s| ::
      Root(Link(s, a, b), x) == if Root(s, x) == a || Root(s, x) == b then Winner(s, a, b) else Root(s, x)
  {
    var t := Link(s, a, b);
    if a != b {
      LinkAt(s, a, b);
      forall j | 0 <= j < |s| && j != a && j != b
        ensures t[j].parent < |s| && (t[j].parent != j ==> t[j].rank < t[t[j].parent].rank)
      {
        assert t[j] == s[j];
      }
    }
    assert Valid(t);
    forall x | 0 <= x < |s|
      ensures Root(t, x) == if Root(s, x) == a || Root(s, x) == b then Winner(s, a, b) else Root(s, x)
    {
      LinkRoot(s, a, b, x);
    }
  }

  /** Linking two distinct roots points the loser at the winner, keeps the
      winner a root and leaves every other record alone. */
  lemma LinkAt(s: seq<Node>, a: nat, b: nat)
    requires a < |s| && b < |s| && a != b && IsRoot(s, a) && IsRoot(s, b)
    ensures var w, l := Winner(s, a, b), if Winner(s, a, b) == a then b else a;
      && Link(s, a, b)[l].parent == w
      && Link(s, a, b)[w].parent == w
      && Link(s, a, b)[l].rank == s[l].rank < Link(s, a, b)[w].rank
      && Link(s, a, b)[w].rank >= s[w].rank
      && forall j | 0 <= j < |s| && j != a && j != b :: Link(s, a, b)[j] == s[j]
  {
  }

  lemma {:induction false} LinkRoot(s: seq<Node>, a: nat, b: nat, x: nat)
    requires Valid(s) && a < |s| && b < |s| && IsRoot(s, a) && IsRoot(s, b) && x < |s|
    requires Valid(Link(s, a, b))
    ensures Root(Link(s, a, b), x) == if Root(s, x) == a || Root(s, x) == b then Winner(s, a, b) else Root(s, x)
    decreases MaxRank(s) - s[x].rank
  {
    var t := Link(s, a, b);
    var w := Winner(s, a, b);
    if a == b {
      assert t == s;
    } else {
      LinkAt(s, a, b);
      var l := if w == a then b else a;
      if x == l {
        assert Root(t, x) == Root(t, w);
      } else if s[x].parent == x {
        assert t[x].parent == x;
      } else {
        assert t[x] == s[x];
        LinkRoot(s, a, b, s[x].parent);
      }
    }
  }

  /** Linking two distinct roots removes exactly the loser from the set of
      roots; linking a root with itself removes nothing. */
  lemma LinkRootSet(s: seq<Node>, a: nat, b: nat)
    requires Valid(s) && a < |s| && b < |s| && IsRoot(s, a) && IsRoot(s, b)
    ensures RootSet(Link(s, a, b)) == if a == b then RootSet(s) else RootSet(s) - {if Winner(s, a, b) == a then b else a}
  {
  }

  /** After unite(lhs, rhs) the forest is valid; every element of the group
      of lhs or of rhs has the winning root, every other element keeps its
      root. */
  lemma UniteRoots(s: seq<Node>, lhs: nat, rhs: nat)
    requires Valid(s) && lhs < |s| && rhs < |s|
    ensures forall x | 0 <= x < |s| ::
      Root(Unite(s, lhs, rhs), x) ==
        if Root(s, x) == Root(s, lhs) || Root(s, x) == Root(s, rhs)
        then Winner(s, Root(s, lhs), Root(s, rhs))
        else Root(s, x)
  {
    CompressSpec(s, lhs);
    var s1 := Compress(s, lhs);
    CompressSpec(s1, rhs);
    var s2 := Compress(s1, rhs);
    var a, b := Root(s, lhs), Root(s1, rhs);
    LinkSpec(s2, a, b);
    assert Winner(s2, a, b) == Winner(s, a, b);
  }

  /** unite merges exactly the two groups involved: afterwards lhs and rhs
      share a root, and two elements share a root iff they did before or each
      was in the group of lhs or of rhs. */
  lemma UniteMerges(s: seq<Node>, lhs: nat, rhs: nat)
    requires Valid(s) && lhs < |s| && rhs < |s|
    ensures Same(Unite(s, lhs, rhs), lhs, rhs)
    ensures forall x, y | 0 <= x < |s| && 0 <= y < |s| ::
      Same(Unite(s, lhs, rhs), x, y) <==>
        Same(s, x, y) || ((Same(s, x, lhs) || Same(s, x, rhs)) && (Same(s, y, lhs) || Same(s, y, rhs)))
  {
    UniteRoots(s, lhs, rhs);
  }

  /** Ranks under unite: only the winning root's rank can change, by exactly
      one and only on a tie between distinct roots; no rank ever decreases. */
  lemma UniteRanks(s: seq<Node>, lhs: nat, rhs: nat)
    requires Valid(s) && lhs < |s| && rhs < |s|
    ensures forall x | 0 <= x < |s| ::
      Unite(s, lhs, rhs)[x].rank ==
        if x == Root(s, lhs) && Root(s, lhs) != Root(s, rhs) && s[Root(s, lhs)].rank == s[Root(s, rhs)].rank
        then s[x].rank + 1
        else s[x].rank
    ensures forall x | 0 <= x < |s| :: Unite(s, lhs, rhs)[x].rank >= s[x].rank
  {
    CompressSpec(s, lhs);
    var s1 := Compress(s, lhs);
    CompressSpec(s1, rhs);
    var s2 := Compress(s1, rhs);
    var a, b := Root(s, lhs), Root(s1, rhs);
    assert Unite(s, lhs, rhs) == Link(s2, a, b);
    LinkRanks(s2, a, b);
  }

  /** Ranks under linking: only a's rank can change, by one on a tie of
      distinct roots. */
  lemma LinkRanks(s: seq<Node>, a: nat, b: nat)
    requires a < |s| && b < |s|
    ensures forall x | 0 <= x < |s| ::
      Link(s, a, b)[x].rank == if x == a && a != b && s[a].rank == s[b].rank then s[x].rank + 1 else s[x].rank
  {
  }

  /** Which root survives: the one of strictly larger rank, and on a tie the
      root of lhs. The loser now points at the winner. */
  lemma UniteAttaches(s: seq<Node>, lhs: nat, rhs: nat)
    requires Valid(s) && lhs < |s| && rhs < |s| && !Same(s, lhs, rhs)
    ensures var a, b := Root(s, lhs), Root(s, rhs);
      && (s[a].rank < s[b].rank ==> Unite(s, lhs, rhs)[a].parent == b && IsRoot(Unite(s, lhs, rhs), b))
      && (s[a].rank >= s[b].rank ==> Unite(s, lhs, rhs)[b].parent == a && IsRoot(Unite(s, lhs, rhs), a))
  {
    CompressSpec(s, lhs);
    CompressSpec(Compress(s, lhs), rhs);
  }

  /** Uniting two elements of one group changes no rank and no element's
      root; in particular unite(a, a) leaves the partition as it was. */
  lemma UniteSameGroup(s: seq<Node>, lhs: nat, rhs: nat)
    requires Valid(s) && lhs < |s| && rhs < |s| && Same(s, lhs, rhs)
    ensures forall x | 0 <= x < |s| :: Root(Unite(s, lhs, rhs), x) == Root(s, x)
    ensures forall x | 0 <= x < |s| :: Unite(s, lhs, rhs)[x].rank == s[x].rank
  {
    CompressSpec(s, lhs);
    var s1 := Compress(s, lhs);
    CompressSpec(s1, rhs);
    assert Unite(s, lhs, rhs) == Compress(s1, rhs);
  }

  /** unite(a, b) and unite(b, a) yield the same partition. */
  lemma UniteSymmetric(s: seq<Node>, a: nat, b: nat)
    requires Valid(s) && a < |s| && b < |s|
    ensures forall x, y | 0 <= x < |s| && 0 <= y < |s| ::
      Same(Unite(s, a, b), x, y) <==> Same(Unite(s, b, a), x, y)
  {
    UniteMerges(s, a, b);
    UniteMerges(s, b, a);
  }

  /** Each unite removes exactly one group, or none when both elements were
      already in the same group. */
  lemma UniteGroupCount(s: seq<Node>, lhs: nat, rhs: nat)
    requires Valid(s) && lhs < |s| && rhs < |s|
    ensures |RootSet(Unite(s, lhs, rhs))| == if Same(s, lhs, rhs) then |RootSet(s)| else |RootSet(s)| - 1
  {
    CompressSpec(s, lhs);
    var s1 := Compress(s, lhs);
    CompressSpec(s1, rhs);
    var s2 := Compress(s1, rhs);
    var a, b := Root(s, lhs), Root(s1, rhs);
    LinkRootSet(s2, a, b);
    if a != b {
      var loser := if Winner(s2, a, b) == a then b else a;
      assert loser in RootSet(s2);
    }
  }
}
