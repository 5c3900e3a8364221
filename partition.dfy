/**
  A reference model of the partition that a sequence of unite calls builds,
  independent of any forest: every element carries a group label, and merging
  the groups of a and b relabels every member of either group with a's label.
  The UnionFind class keeps such a labelling as its abstract state and proves
  that its forest groups elements exactly as the labels do.
 */
module Partition {

  /** n singleton groups: two elements share a label only when they are the
      same element. */
  function Identity(n: nat): (labels: seq<nat>)
    ensures |labels| == n
    ensures forall x, y | 0 <= x < n && 0 <= y < n :: labels[x] == labels[y] <==> x == y
  {
    seq(n, i requires 0 <= i < n => i)
  }

  /** Merge the group of a with the group of b. Exactly those two groups are
      joined: afterwards x and y share a label iff they did before, or each
      was in the group of a or of b. */
  function Merge(labels: seq<nat>, a: nat, b: nat): (merged: seq<nat>)
    requires a < |labels| && b < |labels|
    ensures |merged| == |labels|
    ensures merged[a] == merged[b]
    ensures forall x, y | 0 <= x < |labels| && 0 <= y < |labels| ::
      merged[x] == merged[y] <==>
        labels[x] == labels[y]
        || ((labels[x] == labels[a] || labels[x] == labels[b]) && (labels[y] == labels[a] || labels[y] == labels[b]))
  {
    seq(|labels|, x requires 0 <= x < |labels| =>
      if labels[x] == labels[a] || labels[x] == labels[b] then labels[a] else labels[x])
  }
}
