/**
 * The topology part of the Morton builder: from the sorted Morton keys of
 * the valid primitives to the array of BVH nodes.
 *
 * Node 0 starts out open over all primitives. Each round (`createNodes`)
 * visits the nodes opened by the previous round. A node becomes a leaf
 * when its range is no larger than the leaf threshold, or when
 * `findSplit` finds first and last key equal. Otherwise it gets two fresh
 * children, allocated from the shared counter `numNodesAlloced`, over the
 * two halves of its range, and becomes an inner node: offset = first
 * child, count = 0. The host repeats rounds until a round opens no new
 * nodes, then `writeFinalNodes` copies offset and count out.
 *
 * A sequential schedule stands in for the GPU's parallel one: a round's
 * nodes are visited in index order, and each split takes the next two
 * slots of the counter.
 *
 * The ghost state that the proofs carry along:
 *  - `ranges[i]`: the primitive range node i was opened with;
 *  - `owner[p]`: the node whose range currently holds primitive p;
 *  - `cuts`: the split positions so far.
 */
module Builder {
  import opened Split

  /** `TempNode`: an open node over keys [begin, end), or a finished one. */
  datatype TempNode = Open(begin: int, end: int) | Finished(offset: int, count: int)

  /** A node of the final BVH: count > 0 is a leaf over prims [offset, offset+count); count == 0 an inner node whose children are nodes offset and offset+1. */
  datatype FinalNode = FinalNode(offset: int, count: int)

  /**
   * What a node was opened with: the half-open range [lo, hi) of primitive
   * indices, and the node whose split opened it (`NoParent` for the root).
   */
  datatype Range = Range(lo: int, hi: int, parent: int)

  const NoParent: int := -1

  /** The device-side counter of allocated nodes. */
  class BuildState {
    var numNodesAlloced: int

    constructor ()
      ensures numNodesAlloced == 0
    {
      numNodesAlloced := 0;
    }
  }

  predicate Within(r: Range, n: int) { 0 <= r.lo <= r.hi <= n }
  predicate Holds(r: Range, p: int) { r.lo <= p < r.hi }
  predicate Interior(r: Range, x: int) { r.lo < x < r.hi }
  predicate Disjoint(r: Range, s: Range) { r.hi <= s.lo || s.hi <= r.lo }

  /**
   * The leaf threshold `build` passes to every round: the configured
   * threshold capped by the largest allowed leaf size, or 1 when no
   * positive threshold is configured.
   */
  function LeafThreshold(makeLeafThreshold: int, maxAllowedLeafSize: int): (t: int)
    ensures makeLeafThreshold <= 0 ==> t == 1
    ensures makeLeafThreshold > 0 ==>
      t <= makeLeafThreshold && t <= maxAllowedLeafSize && (t == makeLeafThreshold || t == maxAllowedLeafSize)
  {
    if makeLeafThreshold > 0 then
      (if makeLeafThreshold < maxAllowedLeafSize then makeLeafThreshold else maxAllowedLeafSize)
    else 1
  }

  /** The number of slots `initNodes` writes: nodes 0 and 1. */
  const InitSlots: int := 2

  /** The temporary node array as `build` sizes it: two slots per valid primitive. */
  function NodeCapacity(numValidPrims: int): int
  {
    2 * numValidPrims
  }

  /** With no valid primitives the array `build` allocates is too small for `initNodes`. */
  lemma EmptyBuildOverrun()
    ensures NodeCapacity(0) < InitSlots
  {
  }

  /** The node array size the builder needs: two per primitive, and never less than the two `initNodes` writes. */
  function SafeNodeCapacity(numValidPrims: int): (c: int)
    ensures c >= InitSlots && c >= 2 * numValidPrims
    ensures numValidPrims >= 1 ==> c == NodeCapacity(numValidPrims)
  {
    if numValidPrims >= 1 then NodeCapacity(numValidPrims) else InitSlots
  }

  /**
   * Why a node may be a leaf: its range is within the threshold, or all its
   * keys are equal (first and last agree) so that `findSplit` refuses it.
   */
  predicate LeafOK(keys: seq<int>, thr: int, r: Range)
    requires Within(r, |keys|)
  {
    r.hi - r.lo <= thr || (r.lo < r.hi && keys[r.lo] == keys[r.hi - 1])
  }

  /**
   * Splitting [lo, hi) at s is what `findSplit` does: the first and last
   * key differ, and s is the first position whose key is not below the
   * search key.
   */
  predicate MortonSplit(keys: seq<int>, lo: int, s: int, hi: int)
  {
    0 <= lo < s < hi <= |keys| &&
    IsKey(keys[lo]) && IsKey(keys[hi - 1]) && keys[lo] != keys[hi - 1] &&
    keys[s - 1] < SearchKey(keys[lo], keys[hi - 1]) <= keys[s]
  }

  /** A finished node whose count is zero over a nonempty range is an inner node. */
  predicate IsInner(node: TempNode, r: Range)
  {
    node.Finished? && node.count == 0 && r.lo < r.hi
  }

  /** Node j was opened by an earlier node, now an inner node whose two children include j. */
  predicate HasParent(nodes: seq<TempNode>, ranges: seq<Range>, j: int)
  {
    0 <= j < |ranges| && j < |nodes| && 0 <= ranges[j].parent < j &&
    IsInner(nodes[ranges[j].parent], ranges[ranges[j].parent]) &&
    nodes[ranges[j].parent].offset <= j <= nodes[ranges[j].parent].offset + 1
  }

  /**
   * Node i has more primitives than the leaf threshold, and its children
   * are nodes c and c+1, later in the array, opened by i over the two
   * halves of a Morton split of its range.
   */
  predicate SplitInto(keys: seq<int>, thr: int, ranges: seq<Range>, i: int, c: int)
  {
    0 <= i < c && c + 1 < |ranges| && ranges[i].hi - ranges[i].lo > thr &&
    ranges[c].parent == i && ranges[c + 1].parent == i &&
    ranges[c].lo == ranges[i].lo && ranges[c + 1].hi == ranges[i].hi && ranges[c].hi == ranges[c + 1].lo &&
    MortonSplit(keys, ranges[i].lo, ranges[c].hi, ranges[i].hi)
  }

  // ---------------------------------------------------------------------
  // The invariant of the construction
  // ---------------------------------------------------------------------

  ghost predicate Shape(nodes: seq<TempNode>, alloced: int, cur: int, n: int, ranges: seq<Range>, owner: seq<int>)
  {
    1 <= alloced <= |nodes| && 0 <= cur <= alloced && |ranges| == alloced && |owner| == n &&
    ranges[0] == Range(0, n, NoParent) &&
    forall i :: 0 <= i < alloced ==> Within(ranges[i], n) && (n > 0 ==> ranges[i].lo < ranges[i].hi)
  }

  /**
   * Nodes from `cur` on are still open over their range; nodes before it are
   * finished, either as a leaf over their range or as an inner node, whose
   * range is larger than the leaf threshold. Every node but the root is a
   * child of the inner node that opened it.
   */
  ghost predicate NodesOK(nodes: seq<TempNode>, alloced: int, cur: int, keys: seq<int>, thr: int, ranges: seq<Range>, owner: seq<int>)
    requires Shape(nodes, alloced, cur, |keys|, ranges, owner)
  {
    (forall i :: cur <= i < alloced ==> nodes[i] == Open(ranges[i].lo, ranges[i].hi)) &&
    (forall i :: 0 <= i < cur ==> nodes[i].Finished?) &&
    (forall i :: 0 <= i < cur && !IsInner(nodes[i], ranges[i]) ==>
      nodes[i] == Finished(ranges[i].lo, ranges[i].hi - ranges[i].lo) && LeafOK(keys, thr, ranges[i])) &&
    (forall i :: 0 <= i < cur && IsInner(nodes[i], ranges[i]) ==> SplitInto(keys, thr, ranges, i, nodes[i].offset)) &&
    (forall j :: 1 <= j < alloced ==> HasParent(nodes, ranges, j))
  }

  /**
   * The nodes that are not inner (open nodes and leaves) partition the
   * primitives: their ranges are pairwise disjoint, and each primitive lies
   * in the range of its owner, one of them.
   */
  ghost predicate Partition(nodes: seq<TempNode>, alloced: int, cur: int, n: int, ranges: seq<Range>, owner: seq<int>)
    requires Shape(nodes, alloced, cur, n, ranges, owner)
  {
    (forall i, j :: 0 <= i < j < alloced && !IsInner(nodes[i], ranges[i]) && !IsInner(nodes[j], ranges[j]) ==>
      Disjoint(ranges[i], ranges[j])) &&
    (forall p :: 0 <= p < n ==>
      0 <= owner[p] < alloced && !IsInner(nodes[owner[p]], ranges[owner[p]]) && Holds(ranges[owner[p]], p))
  }

  /**
   * Every split so far cut the primitives at a distinct position strictly
   * between 0 and n, and added two nodes; no position already cut lies
   * strictly inside the range of a node that is not inner.
   */
  ghost predicate CutsOK(nodes: seq<TempNode>, alloced: int, cur: int, n: int, ranges: seq<Range>, owner: seq<int>, cuts: set<int>)
    requires Shape(nodes, alloced, cur, n, ranges, owner)
  {
    (forall x :: x in cuts ==> 0 < x < n) &&
    alloced == 1 + 2 * |cuts| &&
    (forall i, x :: 0 <= i < alloced && x in cuts && !IsInner(nodes[i], ranges[i]) ==> !Interior(ranges[i], x))
  }

  ghost predicate Inv(nodes: seq<TempNode>, alloced: int, cur: int, keys: seq<int>, thr: int,
                      ranges: seq<Range>, owner: seq<int>, cuts: set<int>)
  {
    Shape(nodes, alloced, cur, |keys|, ranges, owner) &&
    NodesOK(nodes, alloced, cur, keys, thr, ranges, owner) &&
    Partition(nodes, alloced, cur, |keys|, ranges, owner) &&
    CutsOK(nodes, alloced, cur, |keys|, ranges, owner, cuts)
  }

  // ---------------------------------------------------------------------
  // The invariant is established and kept
  // ---------------------------------------------------------------------

  /** After `initNodes`: node 0 open over all primitives, which it owns, and nothing cut. */
  lemma InitInv(nodes: seq<TempNode>, keys: seq<int>, thr: int)
    requires |nodes| >= 1 && nodes[0] == Open(0, |keys|)
    ensures Inv(nodes, 1, 0, keys, thr, [Range(0, |keys|, NoParent)], seq(|keys|, p => 0), {})
  {
  }

  /** A subset of the positions strictly between 0 and n has at most n - 1 elements. */
  lemma {:induction false} CutsBound(cuts: set<int>, n: int)
    requires n >= 1 && forall x :: x in cuts ==> 0 < x < n
    ensures |cuts| <= n - 1
    decreases n
  {
    if n > 1 {
      var rest := cuts - {n - 1};
      CutsBound(rest, n - 1);
    } else {
      assert forall x :: x !in cuts;
      assert cuts == {};
    }
  }

  /**
   * A split always finds two free slots in an array of two per primitive,
   * and the node being split is still open over its range.
   */
  lemma RoomForChildren(nodes: seq<TempNode>, alloced: int, cur: int, keys: seq<int>, thr: int,
                        ranges: seq<Range>, owner: seq<int>, cuts: set<int>, s: int)
    requires Inv(nodes, alloced, cur, keys, thr, ranges, owner, cuts)
    requires cur < alloced && Interior(ranges[cur], s)
    requires |nodes| >= 2 * |keys|
    ensures nodes[cur] == Open(ranges[cur].lo, ranges[cur].hi)
    ensures s !in cuts
    ensures alloced + 1 < |nodes|
  {
    assert !IsInner(nodes[cur], ranges[cur]);
    CutsBound(cuts + {s}, |keys|);
  }

  /** Finishing node `cur` as a leaf keeps the invariant. */
  lemma LeafStep(nodes: seq<TempNode>, alloced: int, cur: int, keys: seq<int>, thr: int,
                 ranges: seq<Range>, owner: seq<int>, cuts: set<int>, nodes': seq<TempNode>)
    requires Inv(nodes, alloced, cur, keys, thr, ranges, owner, cuts)
    requires cur < alloced && LeafOK(keys, thr, ranges[cur])
    requires |nodes'| == |nodes| && nodes'[cur] == Finished(ranges[cur].lo, ranges[cur].hi - ranges[cur].lo)
    requires forall i :: 0 <= i < |nodes| && i != cur ==> nodes'[i] == nodes[i]
    ensures Inv(nodes', alloced, cur + 1, keys, thr, ranges, owner, cuts)
  {
    assert nodes[cur].Open?;
    SameInner(nodes, alloced, cur, |keys|, ranges, owner, nodes');
    LeafNodes(nodes, alloced, cur, keys, thr, ranges, owner, nodes');
    LeafPartition(nodes, alloced, cur, |keys|, ranges, owner, nodes');
    LeafCuts(nodes, alloced, cur, |keys|, ranges, owner, cuts, nodes');
  }

  /** A leaf over a range is never an inner node, so finishing an open node as one leaves the inner nodes as they were. */
  lemma SameInner(nodes: seq<TempNode>, alloced: int, cur: int, n: int,
                  ranges: seq<Range>, owner: seq<int>, nodes': seq<TempNode>)
    requires Shape(nodes, alloced, cur, n, ranges, owner)
    requires cur < alloced && nodes[cur].Open?
    requires |nodes'| == |nodes| && nodes'[cur] == Finished(ranges[cur].lo, ranges[cur].hi - ranges[cur].lo)
    requires forall i :: 0 <= i < |nodes| && i != cur ==> nodes'[i] == nodes[i]
    ensures Shape(nodes', alloced, cur + 1, n, ranges, owner)
    ensures forall i :: 0 <= i < alloced ==> IsInner(nodes'[i], ranges[i]) == IsInner(nodes[i], ranges[i])
  {
    forall i | 0 <= i < alloced
      ensures IsInner(nodes'[i], ranges[i]) == IsInner(nodes[i], ranges[i])
    {
      if i != cur {
        assert nodes'[i] == nodes[i];
      }
    }
  }

  lemma LeafNodes(nodes: seq<TempNode>, alloced: int, cur: int, keys: seq<int>, thr: int,
                  ranges: seq<Range>, owner: seq<int>, nodes': seq<TempNode>)
    requires Shape(nodes, alloced, cur, |keys|, ranges, owner)
    requires NodesOK(nodes, alloced, cur, keys, thr, ranges, owner)
    requires cur < alloced && LeafOK(keys, thr, ranges[cur])
    requires |nodes'| == |nodes| && nodes'[cur] == Finished(ranges[cur].lo, ranges[cur].hi - ranges[cur].lo)
    requires forall i :: 0 <= i < |nodes| && i != cur ==> nodes'[i] == nodes[i]
    requires Shape(nodes', alloced, cur + 1, |keys|, ranges, owner)
    requires forall i :: 0 <= i < alloced ==> IsInner(nodes'[i], ranges[i]) == IsInner(nodes[i], ranges[i])
    ensures NodesOK(nodes', alloced, cur + 1, keys, thr, ranges, owner)
  {
    forall i | 0 <= i < cur + 1 && !IsInner(nodes'[i], ranges[i])
      ensures nodes'[i] == Finished(ranges[i].lo, ranges[i].hi - ranges[i].lo) && LeafOK(keys, thr, ranges[i])
    {
      if i < cur {
        assert nodes'[i] == nodes[i];
      }
    }
    forall i | 0 <= i < cur + 1 && IsInner(nodes'[i], ranges[i])
      ensures SplitInto(keys, thr, ranges, i, nodes'[i].offset)
    {
      assert i < cur && nodes'[i] == nodes[i];
    }
    forall j | 1 <= j < alloced
      ensures HasParent(nodes', ranges, j)
    {
      assert HasParent(nodes, ranges, j);
      var p := ranges[j].parent;
      assert p != cur;
      assert nodes'[p] == nodes[p];
    }
  }

  lemma LeafPartition(nodes: seq<TempNode>, alloced: int, cur: int, n: int,
                      ranges: seq<Range>, owner: seq<int>, nodes': seq<TempNode>)
    requires Shape(nodes, alloced, cur, n, ranges, owner)
    requires Partition(nodes, alloced, cur, n, ranges, owner)
    requires Shape(nodes', alloced, cur + 1, n, ranges, owner)
    requires forall i :: 0 <= i < alloced ==> IsInner(nodes'[i], ranges[i]) == IsInner(nodes[i], ranges[i])
    ensures Partition(nodes', alloced, cur + 1, n, ranges, owner)
  {
  }

  lemma LeafCuts(nodes: seq<TempNode>, alloced: int, cur: int, n: int,
                 ranges: seq<Range>, owner: seq<int>, cuts: set<int>, nodes': seq<TempNode>)
    requires Shape(nodes, alloced, cur, n, ranges, owner)
    requires CutsOK(nodes, alloced, cur, n, ranges, owner, cuts)
    requires Shape(nodes', alloced, cur + 1, n, ranges, owner)
    requires forall i :: 0 <= i < alloced ==> IsInner(nodes'[i], ranges[i]) == IsInner(nodes[i], ranges[i])
    ensures CutsOK(nodes', alloced, cur + 1, n, ranges, owner, cuts)
  {
  }

  /**
   * What a split of node `cur` at `s` changes, one slot at a time: the
   * children take slots `alloced` and `alloced + 1` over the two halves of
   * the parent's range, the parent becomes an inner node pointing at them,
   * and the primitives of the parent's range pass to the child holding them.
   */
  ghost predicate SplitUpdate(nodes: seq<TempNode>, alloced: int, cur: int, n: int,
                              ranges: seq<Range>, owner: seq<int>, s: int,
                              nodes': seq<TempNode>, ranges': seq<Range>, owner': seq<int>)
    requires 0 <= cur < alloced && alloced + 1 < |nodes| && |ranges| == alloced && |owner| == n
  {
    var r := ranges[cur];
    |nodes'| == |nodes| && |ranges'| == alloced + 2 && |owner'| == n &&
    (forall i :: 0 <= i < alloced && i != cur ==> nodes'[i] == nodes[i]) &&
    (forall i :: 0 <= i < alloced ==> ranges'[i] == ranges[i]) &&
    nodes'[cur] == Finished(alloced, 0) &&
    nodes'[alloced] == Open(r.lo, s) && ranges'[alloced] == Range(r.lo, s, cur) &&
    nodes'[alloced + 1] == Open(s, r.hi) && ranges'[alloced + 1] == Range(s, r.hi, cur) &&
    (forall p :: 0 <= p < n && r.lo <= p < s ==> owner'[p] == alloced) &&
    (forall p :: 0 <= p < n && s <= p < r.hi ==> owner'[p] == alloced + 1) &&
    (forall p :: 0 <= p < n && !Holds(r, p) ==> owner'[p] == owner[p])
  }

  /** Splitting node `cur` at `s`, with the children in the next two slots, keeps the invariant. */
  lemma SplitStep(nodes: seq<TempNode>, alloced: int, cur: int, keys: seq<int>, thr: int,
                  ranges: seq<Range>, owner: seq<int>, cuts: set<int>, s: int,
                  nodes': seq<TempNode>, ranges': seq<Range>, owner': seq<int>)
    requires Inv(nodes, alloced, cur, keys, thr, ranges, owner, cuts)
    requires cur < alloced && alloced + 1 < |nodes|
    requires ranges[cur].hi - ranges[cur].lo > thr && MortonSplit(keys, ranges[cur].lo, s, ranges[cur].hi)
    requires |nodes'| == |nodes| && nodes'[cur] == Finished(alloced, 0)
    requires nodes'[alloced] == Open(ranges[cur].lo, s) && nodes'[alloced + 1] == Open(s, ranges[cur].hi)
    requires forall i :: 0 <= i < |nodes| && i != cur && i != alloced && i != alloced + 1 ==> nodes'[i] == nodes[i]
    requires ranges' == ranges + [Range(ranges[cur].lo, s, cur), Range(s, ranges[cur].hi, cur)]
    requires owner' == seq(|keys|, p requires 0 <= p < |keys| =>
      if ranges[cur].lo <= p < s then alloced else if s <= p < ranges[cur].hi then alloced + 1 else owner[p])
    ensures Inv(nodes', alloced + 2, cur + 1, keys, thr, ranges', owner', cuts + {s})
  {
    SplitUpdateHolds(nodes, alloced, cur, |keys|, ranges, owner, s, nodes', ranges', owner');
    assert nodes[cur].Open?;
    ShapeAfterSplit(nodes, alloced, cur, keys, thr, ranges, owner, cuts, s, nodes', ranges', owner');
    NodesAfterSplit(nodes, alloced, cur, keys, thr, ranges, owner, cuts, s, nodes', ranges', owner');
    PartitionAfterSplit(nodes, alloced, cur, keys, thr, ranges, owner, cuts, s, nodes', ranges', owner');
    CutsAfterSplit(nodes, alloced, cur, keys, thr, ranges, owner, cuts, s, nodes', ranges', owner');
  }

  /** The array and ghost updates `createNodes` makes for a split are the slot-wise changes of `SplitUpdate`. */
  lemma SplitUpdateHolds(nodes: seq<TempNode>, alloced: int, cur: int, n: int,
                         ranges: seq<Range>, owner: seq<int>, s: int,
                         nodes': seq<TempNode>, ranges': seq<Range>, owner': seq<int>)
    requires 0 <= cur < alloced && alloced + 1 < |nodes| && |ranges| == alloced && |owner| == n
    requires Interior(ranges[cur], s)
    requires |nodes'| == |nodes| && nodes'[cur] == Finished(alloced, 0)
    requires nodes'[alloced] == Open(ranges[cur].lo, s) && nodes'[alloced + 1] == Open(s, ranges[cur].hi)
    requires forall i :: 0 <= i < |nodes| && i != cur && i != alloced && i != alloced + 1 ==> nodes'[i] == nodes[i]
    requires ranges' == ranges + [Range(ranges[cur].lo, s, cur), Range(s, ranges[cur].hi, cur)]
    requires owner' == seq(n, p requires 0 <= p < n =>
      if ranges[cur].lo <= p < s then alloced else if s <= p < ranges[cur].hi then alloced + 1 else owner[p])
    ensures SplitUpdate(nodes, alloced, cur, n, ranges, owner, s, nodes', ranges', owner')
  {
  }

  lemma ShapeAfterSplit(nodes: seq<TempNode>, alloced: int, cur: int, keys: seq<int>, thr: int,
                        ranges: seq<Range>, owner: seq<int>, cuts: set<int>, s: int,
                        nodes': seq<TempNode>, ranges': seq<Range>, owner': seq<int>)
    requires Shape(nodes, alloced, cur, |keys|, ranges, owner)
    requires cur < alloced && alloced + 1 < |nodes| && Interior(ranges[cur], s)
    requires SplitUpdate(nodes, alloced, cur, |keys|, ranges, owner, s, nodes', ranges', owner')
    ensures Shape(nodes', alloced + 2, cur + 1, |keys|, ranges', owner')
  {
    forall i | 0 <= i < alloced + 2
      ensures Within(ranges'[i], |keys|) && (|keys| > 0 ==> ranges'[i].lo < ranges'[i].hi)
    {
      if i < alloced {
        assert ranges'[i] == ranges[i];
      }
    }
  }

  lemma NodesAfterSplit(nodes: seq<TempNode>, alloced: int, cur: int, keys: seq<int>, thr: int,
                        ranges: seq<Range>, owner: seq<int>, cuts: set<int>, s: int,
                        nodes': seq<TempNode>, ranges': seq<Range>, owner': seq<int>)
    requires Shape(nodes, alloced, cur, |keys|, ranges, owner)
    requires NodesOK(nodes, alloced, cur, keys, thr, ranges, owner)
    requires cur < alloced && alloced + 1 < |nodes|
    requires ranges[cur].hi - ranges[cur].lo > thr && MortonSplit(keys, ranges[cur].lo, s, ranges[cur].hi)
    requires SplitUpdate(nodes, alloced, cur, |keys|, ranges, owner, s, nodes', ranges', owner')
    requires Shape(nodes', alloced + 2, cur + 1, |keys|, ranges', owner')
    ensures NodesOK(nodes', alloced + 2, cur + 1, keys, thr, ranges', owner')
  {
    assert SplitInto(keys, thr, ranges', cur, alloced);
    forall i | 0 <= i < cur && IsInner(nodes'[i], ranges'[i])
      ensures SplitInto(keys, thr, ranges', i, nodes'[i].offset)
    {
      assert SplitInto(keys, thr, ranges, i, nodes[i].offset);
    }
    forall j | 1 <= j < alloced + 2
      ensures HasParent(nodes', ranges', j)
    {
      if j < alloced {
        assert HasParent(nodes, ranges, j);
        var p := ranges[j].parent;
        assert p != cur;
        assert nodes'[p] == nodes[p] && ranges'[p] == ranges[p] && ranges'[j] == ranges[j];
      } else {
        assert ranges'[j].parent == cur && ranges'[cur] == ranges[cur];
      }
    }
  }

  lemma PartitionAfterSplit(nodes: seq<TempNode>, alloced: int, cur: int, keys: seq<int>, thr: int,
                            ranges: seq<Range>, owner: seq<int>, cuts: set<int>, s: int,
                            nodes': seq<TempNode>, ranges': seq<Range>, owner': seq<int>)
    requires Shape(nodes, alloced, cur, |keys|, ranges, owner)
    requires Partition(nodes, alloced, cur, |keys|, ranges, owner)
    requires cur < alloced && alloced + 1 < |nodes| && nodes[cur].Open? && Interior(ranges[cur], s)
    requires SplitUpdate(nodes, alloced, cur, |keys|, ranges, owner, s, nodes', ranges', owner')
    requires Shape(nodes', alloced + 2, cur + 1, |keys|, ranges', owner')
    ensures Partition(nodes', alloced + 2, cur + 1, |keys|, ranges', owner')
  {
    var r := ranges[cur];
    assert !IsInner(nodes[cur], r);
    forall i, j | 0 <= i < j < alloced + 2 && !IsInner(nodes'[i], ranges'[i]) && !IsInner(nodes'[j], ranges'[j])
      ensures Disjoint(ranges'[i], ranges'[j])
    {
      if j < alloced {
        assert i != cur && j != cur;
        assert !IsInner(nodes[i], ranges[i]) && !IsInner(nodes[j], ranges[j]);
      } else if i < alloced {
        assert i != cur;
        assert !IsInner(nodes[i], ranges[i]);
        assert Disjoint(ranges[i], r) by {
          if i < cur { } else { }
        }
      }
    }
    forall p | 0 <= p < |keys|
      ensures 0 <= owner'[p] < alloced + 2 && !IsInner(nodes'[owner'[p]], ranges'[owner'[p]]) && Holds(ranges'[owner'[p]], p)
    {
      if !Holds(r, p) {
        var o := owner[p];
        assert o != cur;
        assert owner'[p] == o && nodes'[o] == nodes[o];
      }
    }
  }

  lemma CutsAfterSplit(nodes: seq<TempNode>, alloced: int, cur: int, keys: seq<int>, thr: int,
                       ranges: seq<Range>, owner: seq<int>, cuts: set<int>, s: int,
                       nodes': seq<TempNode>, ranges': seq<Range>, owner': seq<int>)
    requires Shape(nodes, alloced, cur, |keys|, ranges, owner)
    requires Partition(nodes, alloced, cur, |keys|, ranges, owner)
    requires CutsOK(nodes, alloced, cur, |keys|, ranges, owner, cuts)
    requires cur < alloced && alloced + 1 < |nodes| && nodes[cur].Open? && Interior(ranges[cur], s)
    requires SplitUpdate(nodes, alloced, cur, |keys|, ranges, owner, s, nodes', ranges', owner')
    requires Shape(nodes', alloced + 2, cur + 1, |keys|, ranges', owner')
    ensures CutsOK(nodes', alloced + 2, cur + 1, |keys|, ranges', owner', cuts + {s})
  {
    var r := ranges[cur];
    assert !IsInner(nodes[cur], r);
    assert s !in cuts;
    assert |cuts + {s}| == |cuts| + 1;
    forall i, x | 0 <= i < alloced + 2 && x in cuts + {s} && !IsInner(nodes'[i], ranges'[i])
      ensures !Interior(ranges'[i], x)
    {
      if i < alloced {
        assert i != cur;
        assert nodes'[i] == nodes[i] && ranges'[i] == ranges[i];
        if x == s {
          assert Disjoint(ranges[i], r) by {
            if i < cur { } else { }
          }
        }
      }
    }
  }

  // ---------------------------------------------------------------------
  // The shape of the finished BVH
  // ---------------------------------------------------------------------

  /** A node of the final BVH is a leaf when its count is not zero. */
  predicate IsLeaf(f: FinalNode) { f.count != 0 }

  /**
   * When there are primitives, every node with count zero is an inner node
   * over more primitives than the leaf threshold, split by Morton order; so
   * every node within the threshold is a leaf.
   */
  ghost predicate InnerNodesSplit(fin: seq<FinalNode>, ranges: seq<Range>, keys: seq<int>, thr: int)
    requires |fin| == |ranges|
  {
    |keys| > 0 ==> forall i :: 0 <= i < |fin| && !IsLeaf(fin[i]) ==> SplitInto(keys, thr, ranges, i, fin[i].offset)
  }

  /** Every leaf holds exactly the primitives of its range, at least one, for a reason the builder allows. */
  ghost predicate LeavesOK(fin: seq<FinalNode>, ranges: seq<Range>, keys: seq<int>, thr: int)
    requires |fin| == |ranges| && forall i :: 0 <= i < |ranges| ==> Within(ranges[i], |keys|)
  {
    forall i :: 0 <= i < |fin| && IsLeaf(fin[i]) ==>
      fin[i] == FinalNode(ranges[i].lo, ranges[i].hi - ranges[i].lo) && fin[i].count > 0 && LeafOK(keys, thr, ranges[i])
  }

  /** Primitive p lies in the range of some leaf. */
  ghost predicate Covered(fin: seq<FinalNode>, ranges: seq<Range>, p: int)
    requires |fin| == |ranges|
  {
    exists i :: 0 <= i < |fin| && IsLeaf(fin[i]) && Holds(ranges[i], p)
  }

  /** The leaves partition the primitives: no two overlap, and every primitive is in one. */
  ghost predicate LeavesPartition(fin: seq<FinalNode>, ranges: seq<Range>, n: int)
    requires |fin| == |ranges|
  {
    (forall i, j :: 0 <= i < j < |fin| && IsLeaf(fin[i]) && IsLeaf(fin[j]) ==> Disjoint(ranges[i], ranges[j])) &&
    (forall p :: 0 <= p < n ==> Covered(fin, ranges, p))
  }

  /** Node i is an inner node and node j, which comes after it, is one of its two children. */
  predicate ChildOf(fin: seq<FinalNode>, i: int, j: int)
  {
    0 <= i < j < |fin| && !IsLeaf(fin[i]) && fin[i].offset <= j <= fin[i].offset + 1
  }

  /** Node j is a child of some inner node. */
  ghost predicate IsChild(fin: seq<FinalNode>, j: int)
  {
    exists i :: ChildOf(fin, i, j)
  }

  /** The nodes form one tree under node 0: every other node is a child of exactly one inner node. */
  ghost predicate OneTree(fin: seq<FinalNode>)
  {
    (forall j :: 1 <= j < |fin| ==> IsChild(fin, j)) &&
    (forall i, k, j :: ChildOf(fin, i, j) && ChildOf(fin, k, j) ==> i == k)
  }

  /**
   * On keys [0, 1, 2, 3] with threshold 2 the builder outputs an inner root
   * over two leaves, which is one tree; the same nodes with an orphan copy
   * of the root in slot 1 are not.
   */
  lemma TreeExamples()
    ensures OneTree([FinalNode(1, 0), FinalNode(0, 2), FinalNode(2, 2)])
    ensures !OneTree([FinalNode(2, 0), FinalNode(2, 0), FinalNode(0, 2), FinalNode(2, 2)])
  {
    var good := [FinalNode(1, 0), FinalNode(0, 2), FinalNode(2, 2)];
    assert ChildOf(good, 0, 1) && ChildOf(good, 0, 2);
    var bad := [FinalNode(2, 0), FinalNode(2, 0), FinalNode(0, 2), FinalNode(2, 2)];
    assert !IsChild(bad, 1);
  }

  /** Once every allocated node is finished, the copied-out nodes form the BVH. */
  lemma FinishedTree(nodes: seq<TempNode>, alloced: int, keys: seq<int>, thr: int,
                     ranges: seq<Range>, owner: seq<int>, cuts: set<int>, fin: seq<FinalNode>)
    requires Inv(nodes, alloced, alloced, keys, thr, ranges, owner, cuts)
    requires |fin| == alloced
    requires forall i :: 0 <= i < alloced ==> fin[i] == FinalNode(nodes[i].offset, nodes[i].count)
    ensures |fin| == |ranges| >= 1 && ranges[0] == Range(0, |keys|, NoParent)
    ensures forall i :: 0 <= i < |ranges| ==> Within(ranges[i], |keys|)
    ensures |keys| == 0 ==> fin == [FinalNode(0, 0)]
    ensures |keys| > 0 ==> |fin| <= 2 * |keys| - 1
    ensures InnerNodesSplit(fin, ranges, keys, thr)
    ensures LeavesOK(fin, ranges, keys, thr)
    ensures LeavesPartition(fin, ranges, |keys|)
    ensures OneTree(fin)
  {
    FinishedSize(nodes, alloced, keys, thr, ranges, owner, cuts, fin);
    FinishedNodes(nodes, alloced, keys, thr, ranges, owner, fin);
    FinishedLinks(nodes, alloced, keys, thr, ranges, fin);
    FinishedPartition(nodes, alloced, |keys|, ranges, owner, fin);
  }

  /** The number of nodes: one when there are no primitives, at most 2n - 1 otherwise. */
  lemma FinishedSize(nodes: seq<TempNode>, alloced: int, keys: seq<int>, thr: int,
                     ranges: seq<Range>, owner: seq<int>, cuts: set<int>, fin: seq<FinalNode>)
    requires Inv(nodes, alloced, alloced, keys, thr, ranges, owner, cuts)
    requires |fin| == alloced
    requires forall i :: 0 <= i < alloced ==> fin[i] == FinalNode(nodes[i].offset, nodes[i].count)
    ensures |keys| == 0 ==> fin == [FinalNode(0, 0)]
    ensures |keys| > 0 ==> |fin| <= 2 * |keys| - 1
  {
    if |keys| == 0 {
      assert forall x :: x !in cuts;
      assert cuts == {};
      assert !IsInner(nodes[0], ranges[0]);
    } else {
      CutsBound(cuts, |keys|);
    }
  }

  lemma FinishedNodes(nodes: seq<TempNode>, alloced: int, keys: seq<int>, thr: int,
                      ranges: seq<Range>, owner: seq<int>, fin: seq<FinalNode>)
    requires Shape(nodes, alloced, alloced, |keys|, ranges, owner)
    requires NodesOK(nodes, alloced, alloced, keys, thr, ranges, owner)
    requires |fin| == alloced
    requires forall i :: 0 <= i < alloced ==> fin[i] == FinalNode(nodes[i].offset, nodes[i].count)
    ensures InnerNodesSplit(fin, ranges, keys, thr)
    ensures LeavesOK(fin, ranges, keys, thr)
  {
    forall i | 0 <= i < alloced && IsLeaf(fin[i])
      ensures fin[i] == FinalNode(ranges[i].lo, ranges[i].hi - ranges[i].lo) && fin[i].count > 0 && LeafOK(keys, thr, ranges[i])
    {
      assert !IsInner(nodes[i], ranges[i]);
    }
    forall i | 0 <= i < alloced && |keys| > 0 && !IsLeaf(fin[i])
      ensures SplitInto(keys, thr, ranges, i, fin[i].offset)
    {
      assert IsInner(nodes[i], ranges[i]);
    }
  }

  /**
   * The parent links give each node but the root its parent; an inner
   * node's two children were opened by it, so no other node claims them.
   */
  lemma FinishedLinks(nodes: seq<TempNode>, alloced: int, keys: seq<int>, thr: int, ranges: seq<Range>, fin: seq<FinalNode>)
    requires |fin| == |ranges| == alloced <= |nodes|
    requires forall i :: 0 <= i < alloced ==> nodes[i].Finished? && fin[i] == FinalNode(nodes[i].offset, nodes[i].count)
    requires forall i :: 0 <= i < alloced ==> Within(ranges[i], |keys|) && (|keys| > 0 ==> ranges[i].lo < ranges[i].hi)
    requires forall i :: 0 <= i < alloced && IsInner(nodes[i], ranges[i]) ==> SplitInto(keys, thr, ranges, i, nodes[i].offset)
    requires forall j :: 1 <= j < alloced ==> HasParent(nodes, ranges, j)
    ensures OneTree(fin)
  {
    forall j | 1 <= j < alloced
      ensures IsChild(fin, j)
    {
      assert HasParent(nodes, ranges, j);
      assert ChildOf(fin, ranges[j].parent, j);
    }
    forall i, k, j | ChildOf(fin, i, j) && ChildOf(fin, k, j)
      ensures i == k
    {
      assert HasParent(nodes, ranges, j);
      var p := ranges[j].parent;
      assert Within(ranges[p], |keys|);
      ParentOfChild(nodes, keys, thr, ranges, fin, i, j);
      ParentOfChild(nodes, keys, thr, ranges, fin, k, j);
    }
  }

  /** An inner node's children were opened by it. */
  lemma ParentOfChild(nodes: seq<TempNode>, keys: seq<int>, thr: int, ranges: seq<Range>, fin: seq<FinalNode>, i: int, j: int)
    requires ChildOf(fin, i, j) && i < |nodes| && i < |ranges|
    requires nodes[i].Finished? && fin[i] == FinalNode(nodes[i].offset, nodes[i].count) && ranges[i].lo < ranges[i].hi
    requires IsInner(nodes[i], ranges[i]) ==> SplitInto(keys, thr, ranges, i, nodes[i].offset)
    ensures j < |ranges| && ranges[j].parent == i
  {
  }

  lemma FinishedPartition(nodes: seq<TempNode>, alloced: int, n: int, ranges: seq<Range>, owner: seq<int>, fin: seq<FinalNode>)
    requires Shape(nodes, alloced, alloced, n, ranges, owner)
    requires Partition(nodes, alloced, alloced, n, ranges, owner)
    requires forall i :: 0 <= i < alloced ==> nodes[i].Finished?
    requires forall i :: 0 <= i < alloced && !IsInner(nodes[i], ranges[i]) ==> nodes[i].count == ranges[i].hi - ranges[i].lo
    requires |fin| == alloced
    requires forall i :: 0 <= i < alloced ==> fin[i] == FinalNode(nodes[i].offset, nodes[i].count)
    ensures LeavesPartition(fin, ranges, n)
  {
    forall i, j | 0 <= i < j < alloced && IsLeaf(fin[i]) && IsLeaf(fin[j])
      ensures Disjoint(ranges[i], ranges[j])
    {
      assert !IsInner(nodes[i], ranges[i]) && !IsInner(nodes[j], ranges[j]);
    }
    forall p | 0 <= p < n
      ensures Covered(fin, ranges, p)
    {
      var o := owner[p];
      assert !IsInner(nodes[o], ranges[o]);
      assert IsLeaf(fin[o]) && Holds(ranges[o], p);
    }
  }

  // ---------------------------------------------------------------------
  // The kernels and the host loop
  // ---------------------------------------------------------------------

  /** `initNodes`: node 0 open over all valid primitives, node 1 all-zero bits, one node allocated. */
  method InitNodes(state: BuildState, nodes: array<TempNode>, numValidPrims: int)
    requires nodes.Length >= InitSlots
    modifies state, nodes
    ensures state.numNodesAlloced == 1
    ensures nodes[0] == Open(0, numValidPrims) && nodes[1] == Open(0, 0)
    ensures forall i :: InitSlots <= i < nodes.Length ==> nodes[i] == old(nodes[i])
  {
    state.numNodesAlloced := 1;
    var n0 := Open(0, numValidPrims);
    var n1 := Open(0, 0);
    nodes[0] := n0;
    nodes[1] := n1;
  }

  /**
   * The work of one `createNodes` thread on the open node `nodeID`: make it
   * a leaf when it is small enough or `findSplit` finds no split, otherwise
   * take the next two slots of the counter for its children and make it an
   * inner node. Returns the ghost ranges, owners and cuts of the new state.
   */
  method ProcessNode(state: BuildState, leafThreshold: int, nodes: array<TempNode>, nodeID: int, keys: seq<int>,
                     ghost ranges0: seq<Range>, ghost owner0: seq<int>, ghost cuts0: set<int>)
    returns (ghost ranges: seq<Range>, ghost owner: seq<int>, ghost cuts: set<int>)
    requires SortedKeys(keys) && nodes.Length >= 2 * |keys|
    requires |keys| > 0 || leafThreshold >= 0
    requires 0 <= nodeID < state.numNodesAlloced
    requires Inv(nodes[..], state.numNodesAlloced, nodeID, keys, leafThreshold, ranges0, owner0, cuts0)
    modifies state, nodes
    ensures state.numNodesAlloced == old(state.numNodesAlloced) || state.numNodesAlloced == old(state.numNodesAlloced) + 2
    ensures ThreadFrame(old(nodes[..]), nodes[..], nodeID, old(state.numNodesAlloced), state.numNodesAlloced)
    ensures Inv(nodes[..], state.numNodesAlloced, nodeID + 1, keys, leafThreshold, ranges, owner, cuts)
    ensures ranges0 <= ranges
    ensures IsInner(nodes[nodeID], ranges[nodeID]) ==> nodes[nodeID].offset == old(state.numNodesAlloced)
  {
    ghost var ns := nodes[..];
    OpenNode(ns, state.numNodesAlloced, nodeID, keys, leafThreshold, ranges0, owner0, cuts0);
    var node := nodes[nodeID];
    var size := node.end - node.begin;
    var found, split := false, -1;
    if size > leafThreshold {
      found, split := FindSplit(keys, node.begin, node.end, -1);
    }
    assert nodes[..] == ns;
    if !found {
      MakeLeaf(state, leafThreshold, nodes, nodeID, node, keys, ranges0, owner0, cuts0);
      ranges, owner, cuts := ranges0, owner0, cuts0;
    } else {
      SearchSplitIsMorton(keys, node.begin, split, node.end);
      ranges, owner, cuts := MakeInner(state, leafThreshold, nodes, nodeID, split, keys, ranges0, owner0, cuts0);
    }
  }

  /** A thread finishes its node, open over `node`'s range, as a leaf over that range. */
  method MakeLeaf(state: BuildState, leafThreshold: int, nodes: array<TempNode>, nodeID: int, node: TempNode, keys: seq<int>,
                  ghost ranges: seq<Range>, ghost owner: seq<int>, ghost cuts: set<int>)
    requires nodeID < state.numNodesAlloced
    requires Inv(nodes[..], state.numNodesAlloced, nodeID, keys, leafThreshold, ranges, owner, cuts)
    requires node == Open(ranges[nodeID].lo, ranges[nodeID].hi)
    requires LeafOK(keys, leafThreshold, ranges[nodeID])
    modifies nodes
    ensures nodes[nodeID] == Finished(ranges[nodeID].lo, ranges[nodeID].hi - ranges[nodeID].lo)
    ensures ThreadFrame(old(nodes[..]), nodes[..], nodeID, state.numNodesAlloced, state.numNodesAlloced)
    ensures Inv(nodes[..], state.numNodesAlloced, nodeID + 1, keys, leafThreshold, ranges, owner, cuts)
  {
    ghost var ns := nodes[..];
    nodes[nodeID] := Finished(node.begin, node.end - node.begin);
    LeafStep(ns, state.numNodesAlloced, nodeID, keys, leafThreshold, ranges, owner, cuts, nodes[..]);
  }

  /**
   * A thread splits its node at `split`: two slots are taken from the
   * counter, the children are written there open over the two halves, and
   * the node becomes an inner node pointing at them.
   */
  method MakeInner(state: BuildState, leafThreshold: int, nodes: array<TempNode>, nodeID: int, split: int, keys: seq<int>,
                   ghost ranges0: seq<Range>, ghost owner0: seq<int>, ghost cuts0: set<int>)
    returns (ghost ranges: seq<Range>, ghost owner: seq<int>, ghost cuts: set<int>)
    requires nodes.Length >= 2 * |keys|
    requires nodeID < state.numNodesAlloced
    requires Inv(nodes[..], state.numNodesAlloced, nodeID, keys, leafThreshold, ranges0, owner0, cuts0)
    requires ranges0[nodeID].hi - ranges0[nodeID].lo > leafThreshold
    requires MortonSplit(keys, ranges0[nodeID].lo, split, ranges0[nodeID].hi)
    modifies state, nodes
    ensures state.numNodesAlloced == old(state.numNodesAlloced) + 2 <= nodes.Length
    ensures nodes[nodeID] == Finished(old(state.numNodesAlloced), 0)
    ensures nodes[old(state.numNodesAlloced)] == Open(ranges0[nodeID].lo, split)
    ensures nodes[old(state.numNodesAlloced) + 1] == Open(split, ranges0[nodeID].hi)
    ensures ThreadFrame(old(nodes[..]), nodes[..], nodeID, old(state.numNodesAlloced), state.numNodesAlloced)
    ensures Inv(nodes[..], state.numNodesAlloced, nodeID + 1, keys, leafThreshold, ranges, owner, cuts)
    ensures ranges0 <= ranges
  {
    ghost var ns := nodes[..];
    ghost var alloced := state.numNodesAlloced;
    ghost var r := ranges0[nodeID];
    RoomForChildren(ns, alloced, nodeID, keys, leafThreshold, ranges0, owner0, cuts0, split);
    var node := nodes[nodeID];
    var childID := state.numNodesAlloced;
    state.numNodesAlloced := childID + 2;
    nodes[childID] := Open(node.begin, split);
    nodes[childID + 1] := Open(split, node.end);
    nodes[nodeID] := Finished(childID, 0);
    ranges := ranges0 + [Range(r.lo, split, nodeID), Range(split, r.hi, nodeID)];
    owner := seq(|keys|, p requires 0 <= p < |keys| =>
      if r.lo <= p < split then alloced else if split <= p < r.hi then alloced + 1 else owner0[p]);
    cuts := cuts0 + {split};
    ghost var ns' := ns[childID := Open(r.lo, split)][childID + 1 := Open(split, r.hi)][nodeID := Finished(childID, 0)];
    assert nodes[..] == ns';
    SplitStep(ns, alloced, nodeID, keys, leafThreshold, ranges0, owner0, cuts0, split, ns', ranges, owner);
  }

  /** The node a thread picks up is open over its range, which is nonempty unless it is within a threshold of at least 0. */
  lemma OpenNode(nodes: seq<TempNode>, alloced: int, cur: int, keys: seq<int>, thr: int,
                 ranges: seq<Range>, owner: seq<int>, cuts: set<int>)
    requires Inv(nodes, alloced, cur, keys, thr, ranges, owner, cuts)
    requires cur < alloced
    requires |keys| > 0 || thr >= 0
    ensures nodes[cur] == Open(ranges[cur].lo, ranges[cur].hi)
    ensures Within(ranges[cur], |keys|)
    ensures ranges[cur].hi - ranges[cur].lo > thr ==> ranges[cur].lo < ranges[cur].hi
  {
  }

  /** Where `findSplit` cuts a range whose first and last key differ is a Morton split. */
  lemma SearchSplitIsMorton(keys: seq<int>, lo: int, s: int, hi: int)
    requires SortedKeys(keys) && 0 <= lo < s < hi <= |keys| && keys[lo] != keys[hi - 1]
    requires forall i :: lo <= i < s ==> keys[i] < SearchKey(keys[lo], keys[hi - 1])
    requires forall i :: s <= i < hi ==> keys[i] >= SearchKey(keys[lo], keys[hi - 1])
    ensures MortonSplit(keys, lo, s, hi)
  {
    assert keys[s - 1] < SearchKey(keys[lo], keys[hi - 1]);
  }

  /**
   * `createNodes` over the open nodes [begin, end), one thread per node,
   * run here in index order: each becomes a leaf or an inner node with two
   * new open children appended after `end`.
   */
  method CreateNodes(state: BuildState, leafThreshold: int, nodes: array<TempNode>, begin: int, end: int, keys: seq<int>,
                     ghost ranges0: seq<Range>, ghost owner0: seq<int>, ghost cuts0: set<int>)
    returns (ghost ranges: seq<Range>, ghost owner: seq<int>, ghost cuts: set<int>)
    requires SortedKeys(keys) && nodes.Length >= 2 * |keys|
    requires |keys| > 0 || leafThreshold >= 0
    requires end == state.numNodesAlloced
    requires Inv(nodes[..], end, begin, keys, leafThreshold, ranges0, owner0, cuts0)
    modifies state, nodes
    ensures end <= state.numNodesAlloced
    ensures Inv(nodes[..], state.numNodesAlloced, end, keys, leafThreshold, ranges, owner, cuts)
    ensures ranges0 <= ranges
    ensures UnchangedOutside(old(nodes[..]), nodes[..], begin, state.numNodesAlloced)
    ensures ChildrenAfter(nodes[..], ranges, begin, end, end)
  {
    ranges, owner, cuts := ranges0, owner0, cuts0;
    ghost var start := nodes[..];
    var nodeID := begin;
    while nodeID < end
      invariant begin <= nodeID <= end <= state.numNodesAlloced
      invariant Inv(nodes[..], state.numNodesAlloced, nodeID, keys, leafThreshold, ranges, owner, cuts)
      invariant ranges0 <= ranges
      invariant UnchangedOutside(start, nodes[..], begin, state.numNodesAlloced)
      invariant ChildrenAfter(nodes[..], ranges, begin, nodeID, end)
    {
      ghost var before := nodes[..];
      ghost var alloced := state.numNodesAlloced;
      ranges, owner, cuts := ProcessNode(state, leafThreshold, nodes, nodeID, keys, ranges, owner, cuts);
      RoundStep(start, before, nodes[..], ranges, begin, nodeID, end, alloced, state.numNodesAlloced);
      nodeID := nodeID + 1;
    }
  }

  /** Outside the slots [lo, hi), `after` holds what `before` held. */
  ghost predicate UnchangedOutside(before: seq<TempNode>, after: seq<TempNode>, lo: int, hi: int)
  {
    |after| == |before| && forall i :: 0 <= i < |before| && (i < lo || hi <= i) ==> after[i] == before[i]
  }

  /** A thread changes only its own node `cur` and the slots [lo, hi) it took from the counter. */
  ghost predicate ThreadFrame(before: seq<TempNode>, after: seq<TempNode>, cur: int, lo: int, hi: int)
  {
    |after| == |before| && forall i :: 0 <= i < |before| && i != cur && !(lo <= i < hi) ==> after[i] == before[i]
  }

  /** Every inner node among the slots [lo, hi) has its children at `bound` or later. */
  ghost predicate ChildrenAfter(nodes: seq<TempNode>, ranges: seq<Range>, lo: int, hi: int, bound: int)
  {
    forall i :: 0 <= lo <= i < hi && i < |nodes| && i < |ranges| && IsInner(nodes[i], ranges[i]) ==> bound <= nodes[i].offset
  }

  /** One thread of a round keeps the round's frame and places any children at or after the frontier's end. */
  lemma RoundStep(start: seq<TempNode>, before: seq<TempNode>, after: seq<TempNode>, ranges: seq<Range>,
                  begin: int, nodeID: int, end: int, alloced: int, alloced': int)
    requires 0 <= begin <= nodeID < end <= alloced <= alloced' && nodeID < |ranges| && nodeID < |before|
    requires UnchangedOutside(start, before, begin, alloced)
    requires ChildrenAfter(before, ranges, begin, nodeID, end)
    requires ThreadFrame(before, after, nodeID, alloced, alloced')
    requires IsInner(after[nodeID], ranges[nodeID]) ==> after[nodeID].offset == alloced
    ensures UnchangedOutside(start, after, begin, alloced')
    ensures ChildrenAfter(after, ranges, begin, nodeID + 1, end)
  {
  }

  /** `writeFinalNodes`: copy offset and count of the first `numNodes` finished nodes. */
  method WriteFinalNodes(finalNodes: array<FinalNode>, tempNodes: array<TempNode>, numNodes: int)
    requires 0 <= numNodes <= finalNodes.Length && numNodes <= tempNodes.Length
    requires forall i :: 0 <= i < numNodes ==> tempNodes[i].Finished?
    modifies finalNodes
    ensures forall i :: 0 <= i < numNodes ==> finalNodes[i] == FinalNode(tempNodes[i].offset, tempNodes[i].count)
    ensures forall i :: numNodes <= i < finalNodes.Length ==> finalNodes[i] == old(finalNodes[i])
  {
    for tid := 0 to numNodes
      invariant forall i :: 0 <= i < tid ==> finalNodes[i] == FinalNode(tempNodes[i].offset, tempNodes[i].count)
      invariant forall i :: tid <= i < finalNodes.Length ==> finalNodes[i] == old(finalNodes[i])
    {
      var tempNode := tempNodes[tid];
      finalNodes[tid] := FinalNode(tempNode.offset, tempNode.count);
    }
  }

  /**
   * The topology part of `build`: from the sorted keys of the valid
   * primitives to the final node array. The ghost `ranges` give the
   * primitive range of every node.
   */
  method Build(keys: seq<int>, makeLeafThreshold: int, maxAllowedLeafSize: int)
    returns (finalNodes: seq<FinalNode>, ghost ranges: seq<Range>)
    requires SortedKeys(keys)
    requires |keys| > 0 || LeafThreshold(makeLeafThreshold, maxAllowedLeafSize) >= 0
    ensures |finalNodes| == |ranges| >= 1 && ranges[0] == Range(0, |keys|, NoParent)
    ensures forall i :: 0 <= i < |ranges| ==> Within(ranges[i], |keys|)
    ensures |keys| == 0 ==> finalNodes == [FinalNode(0, 0)]
    ensures |keys| > 0 ==> |finalNodes| <= 2 * |keys| - 1
    ensures InnerNodesSplit(finalNodes, ranges, keys, LeafThreshold(makeLeafThreshold, maxAllowedLeafSize))
    ensures LeavesOK(finalNodes, ranges, keys, LeafThreshold(makeLeafThreshold, maxAllowedLeafSize))
    ensures LeavesPartition(finalNodes, ranges, |keys|)
    ensures OneTree(finalNodes)
  {
    var leafThreshold := LeafThreshold(makeLeafThreshold, maxAllowedLeafSize);
    var numValidPrims := |keys|;
    var state := new BuildState();
    var nodes := new TempNode[SafeNodeCapacity(numValidPrims)](_ => Open(0, 0));
    InitNodes(state, nodes, numValidPrims);
    ghost var owner, cuts;
    var numNodes;
    numNodes, ranges, owner, cuts := BuildNodes(state, leafThreshold, nodes, keys);
    ghost var ns := nodes[..];
    var out := new FinalNode[numNodes](_ => FinalNode(0, 0));
    WriteFinalNodes(out, nodes, numNodes);
    assert nodes[..] == ns;
    finalNodes := out[..];
    FinishedTree(ns, numNodes, keys, leafThreshold, ranges, owner, cuts, finalNodes);
  }

  /**
   * The node-building loop of `build`: one `createNodes` round over the
   * frontier [numNodesDone, numNodesAlloced) at a time, until a round
   * allocates no new node. Every allocated node is then finished.
   */
  method BuildNodes(state: BuildState, leafThreshold: int, nodes: array<TempNode>, keys: seq<int>)
    returns (numNodes: int, ghost ranges: seq<Range>, ghost owner: seq<int>, ghost cuts: set<int>)
    requires SortedKeys(keys) && nodes.Length >= 2 * |keys| && nodes.Length >= 1
    requires |keys| > 0 || leafThreshold >= 0
    requires state.numNodesAlloced == 1 && nodes[0] == Open(0, |keys|)
    modifies state, nodes
    ensures numNodes == state.numNodesAlloced
    ensures Inv(nodes[..], numNodes, numNodes, keys, leafThreshold, ranges, owner, cuts)
    ensures forall i :: 0 <= i < numNodes ==> nodes[i].Finished?
  {
    ranges := [Range(0, |keys|, NoParent)];
    owner := seq(|keys|, p => 0);
    cuts := {};
    InitInv(nodes[..], keys, leafThreshold);
    var numNodesAlloced := 1;
    var numNodesDone := 0;
    while numNodesDone < numNodesAlloced
      invariant numNodesAlloced == state.numNodesAlloced
      invariant Inv(nodes[..], numNodesAlloced, numNodesDone, keys, leafThreshold, ranges, owner, cuts)
      decreases nodes.Length - numNodesDone
    {
      ranges, owner, cuts := CreateNodes(state, leafThreshold, nodes, numNodesDone, numNodesAlloced, keys, ranges, owner, cuts);
      numNodesDone := numNodesAlloced;
      numNodesAlloced := state.numNodesAlloced;
    }
    numNodes := numNodesAlloced;
  }
}
