# cuBQL Morton builder, modelled in Dafny

This project models the part of cuBQL that builds a bounding-volume
hierarchy from Morton codes (`cuBQL/impl/morton.h`), read as a sequential
algorithm, together with the integer instances of cuBQL's small vector
algebra (`cuBQL/common/vec.h`).

- `vec.dfy` (module `Vec`): `vec_t<int32_t,D>` as a `seq<int>`. It covers
  the element-wise `+ - * /` of `CUBQL_OPERATOR` in their vec:vec,
  scalar:vec and vec:scalar forms, with C++ truncating division. It also
  covers `min`/`max`, `make`, and `dot` with its 64-bit accumulator, as a
  loop. `sqrDistance` is modelled too.
- `morton_code.dfy` (module `MortonCode`): `shiftBits`, `bitInterleave21` and
  `computeMortonCode` from the integer cell onward, on `bv64` words. A cell
  is clamped above at 2^21-1 only. A negative coordinate converts to
  `uint64_t` by sign extension, as in C++. `Compact21` and
  `DecodeMortonCode` are the inverse, and they give the round trip.
  The interleave comes in two versions:
  - `BitInterleave21` and `ComputeMortonCode` use the last-stage mask that
    the bit diagram at `cuBQL/impl/morton.h:115` derives. Its bytes are
    0x08 in the two places where line 163 has 0x04.
  - `BitInterleave21AsWritten` and `ComputeMortonCodeAsWritten` use the
    masks exactly as the source writes them.

  The layout, round-trip and injectivity properties are proved of the
  first version. They do not hold of the source's interleave as written
  (see "## Findings").
- `find_split.dfy` (module `Split`): `findSplit` as a method, made of the
  common-prefix probe and the lower-bound binary search. Keys are naturals
  below 2^64, and `^`, `>>`, `<<` and `__clzll` are written arithmetically.
- `tree_builder.dfy` (module `Builder`):
  - the `TempNode` union as a datatype `Open(begin, end) | Finished(offset, count)`;
  - `initNodes` and `createNodes`, which write a `TempNode` array in place
    and bump `BuildState.numNodesAlloced`;
  - `writeFinalNodes`;
  - the leaf threshold and the host loop of `build`.

  Ghost state carries the proof:
  - the range each node was opened with, together with the node whose split opened it;
  - owners and cut positions.

  It shows that the finished nodes form one tree whose leaves partition the primitives.

A zero-size root leaf (no valid primitives) is `Finished(0, 0)`. That has
count 0, the same encoding as an inner node, and the model keeps this as
the source has it.

## Model

| member | source | states |
|---|---|---|
| Vec.TruncDiv | cuBQL/common/vec.h:167 | C++ `/` on integers: the remainder is smaller than the divisor in magnitude and has the dividend's sign, and the quotient's magnitude is the quotient of the magnitudes |
| Vec.Apply | cuBQL/common/vec.h:164-167 | one component of `+ - * / min max`; `min` is at most both operands and is one of them, `max` dually |
| Vec.Make | cuBQL/common/vec.h:92-100 | `make<vec_t>(v)` has D components, every one equal to `v` |
| Vec.Elementwise | cuBQL/common/vec.h:112-122 | the vec:vec operator: same dimension, and component i is `a[i] op b[i]` |
| Vec.ScalarVec | cuBQL/common/vec.h:123-132 | the scalar:vec operator: component i is `a op b[i]` |
| Vec.VecScalar | cuBQL/common/vec.h:133-142 | the vec:scalar operator: component i is `a[i] op b` |
| Vec.BroadcastIsMake | cuBQL/common/vec.h:123-142 | the scalar forms equal the vec:vec form applied to `make` of the scalar |
| Vec.MinMaxBounds | cuBQL/common/vec.h:170-184 | element-wise `min(a,b)[i] <= a[i], b[i]`, `max(a,b)[i] >= a[i], b[i]`, and `min + max == a + b` per component |
| Vec.Dot | cuBQL/common/vec.h:191-199 | `dot(a,b)`: the sum of `a[i]*b[i]` over the components, on unbounded integers |
| Vec.DotSymmetric | cuBQL/common/vec.h:191-199 | `dot(a,b) == dot(b,a)` |
| Vec.DotSelf | cuBQL/common/vec.h:191-199 | `dot(a,a) >= 0`, and it is 0 exactly when every component is 0 |
| Vec.NegatedDot | cuBQL/common/vec.h:191-199 | negating every component leaves `dot(a,a)` unchanged |
| Vec.SqrDistance | cuBQL/common/vec.h:207-212 | `sqrDistance(a,b)`: `dot(a-b, a-b)`, on unbounded integers |
| Vec.SqrDistanceProperties | cuBQL/common/vec.h:207-212 | `sqrDistance` is non-negative, symmetric, and 0 exactly when the points are equal |
| Vec.DotProduct | cuBQL/common/vec.h:187-199 | the accumulating loop returns the sum of products from index 0, which fits in int64 when every product fits in int32 |
| Vec.SqrDistanceInt32 | cuBQL/common/vec.h:207-212 | `dot(a-b, a-b)` for int32 vectors, computed by the loop: non-negative, within int64, 0 exactly when `a == b` |
| MortonCode.ShiftBits | cuBQL/impl/morton.h:147-149 | `shiftBits(x, mask, s)`: `((x & mask) << s) \| (x & ~mask)` on 64-bit words |
| MortonCode.ShiftBitsMoves | cuBQL/impl/morton.h:147-149 | for each distance the interleave uses: the bits selected by the mask arrive `s` places higher, and every unselected bit stays where it was |
| MortonCode.BitInterleave21 | cuBQL/impl/morton.h:151-165 | `bitInterleave21`: the five `shiftBits` stages by 32, 16, 8, 4 and 2, with the masks of lines 155-161 and the last-stage mask that line 115 derives (0x08 where line 163 has 0x04; see Findings) |
| MortonCode.BitInterleave21AsWritten | cuBQL/impl/morton.h:151-165 | `bitInterleave21` with all five masks exactly as written, including the 0x04 bytes of line 163 |
| MortonCode.InterleavePlacesBits | cuBQL/impl/morton.h:107-146 | for x < 2^21, bit i of x lands at bit 3i of the interleave with the corrected last-stage mask, the layout the diagram describes |
| MortonCode.InterleaveSparse | cuBQL/impl/morton.h:151-165 | with the corrected mask and x < 2^21, the interleaved word has bits only at positions 3i, so it is below 2^61 |
| MortonCode.Compact21 | cuBQL/impl/morton.h:107-146 | the inverse of the interleave that the diagram implies (the source has none): the five stages undone in reverse order, gathering bit 3i back to bit i |
| MortonCode.CompactInterleave | cuBQL/impl/morton.h:151-165 | gathering bits 3i back to bit i undoes the corrected interleave on x < 2^21 |
| MortonCode.InterleaveCompact | cuBQL/impl/morton.h:151-165 | interleaving the gathered word gives back the key's bits at positions 3i, and the gathered word is below 2^21 |
| MortonCode.InterleaveInjective | cuBQL/impl/morton.h:151-165 | with the corrected mask, distinct inputs below 2^21 interleave to distinct words |
| MortonCode.ToUint64Value | cuBQL/impl/morton.h:174-176 | converting an int coordinate to `uint64_t` keeps it when non-negative and adds 2^64 when negative |
| MortonCode.ClampCell | cuBQL/impl/morton.h:172 | `min(cell, (1<<21)-1)` per component, with no lower clamp |
| MortonCode.ComputeMortonCode | cuBQL/impl/morton.h:168-177 | `computeMortonCode` from the integer cell: clamp each coordinate above at 2^21-1, convert it to `uint64_t`, interleave it with the corrected mask, and or the z, y and x codes shifted by 2, 1 and 0 |
| MortonCode.ComputeMortonCodeAsWritten | cuBQL/impl/morton.h:168-177 | the same key built with the interleave as written |
| MortonCode.DecodeMortonCode | cuBQL/impl/morton.h:173-176 | the inverse of the key layout (the source has none): the words gathered from bits 3i, 3i+1 and 3i+2 of the key, each below 2^21 |
| MortonCode.CombineAxes | cuBQL/impl/morton.h:173-176 | the three axis codes occupy bits 3i, 3i+1 and 3i+2, and the key is below 2^63 |
| MortonCode.KeyParts | cuBQL/impl/morton.h:173-176 | the key and the key shifted right by 1 and 2 gather back to the x, y and z words |
| MortonCode.WordsRoundTrip | cuBQL/impl/morton.h:173-176 | three words below 2^21 make a key below 2^63 that decodes to them |
| MortonCode.GridWords | cuBQL/impl/morton.h:172-176 | the axis words of a cell inside [0, 2^21) are its coordinates |
| MortonCode.MortonRoundTrip | cuBQL/impl/morton.h:168-177 | with the corrected mask, for a cell in [0, 2^21)^3 the key is below 2^63 and decodes to the cell's coordinates |
| MortonCode.ClampedKey | cuBQL/impl/morton.h:172-176 | clamping a cell before computing its key does not change the key |
| MortonCode.MortonInjective | cuBQL/impl/morton.h:168-177 | with the corrected mask, distinct cells in [0, 2^21)^3 have distinct keys |
| MortonCode.AsWrittenCollision | cuBQL/impl/morton.h:163 | with the last-stage mask as written, bit 6 lands at bit 20 and bit 7 at bit 19, so cells (64,0,0) and (0,128,0) share a key |
| Split.SplitBit | cuBQL/impl/morton.h:239-242 | `63 - __clzll(firstKey ^ lastKey)` for two different 64-bit keys, a bit position below 64 |
| Split.SearchKey | cuBQL/impl/morton.h:242 | `lastKey & (~0ull << (63 - numMatchingBits))`: the last key with the bits below the split bit cleared |
| Split.SplitBitFacts | cuBQL/impl/morton.h:239-242 | first and last key agree above bit `63 - clz(first ^ last)` and differ at it, with the last key having it set |
| Split.SearchKeyBetween | cuBQL/impl/morton.h:242 | the search key lies strictly above the first key and at or below the last |
| Split.CommonPrefix | cuBQL/impl/morton.h:239-242 | every key between first and last shares their bits above the split bit |
| Split.BelowSearchKey | cuBQL/impl/morton.h:242-251 | keys below the search key agree with the first key down to the split bit |
| Split.FromSearchKey | cuBQL/impl/morton.h:242-251 | keys from the search key on agree with the last key down to the split bit |
| Split.FindSplit | cuBQL/impl/morton.h:227-254 | false exactly when `keys[begin] == keys[end-1]`, and then `split` is untouched; otherwise `begin < split < end`, keys before `split` are below the search key and keys from it on are not, and each side shares one more leading bit than the whole range |
| Builder.LeafThreshold | cuBQL/impl/morton.h:358-361 | `min(makeLeafThreshold, maxAllowedLeafSize)` when `makeLeafThreshold > 0`, otherwise 1 |
| Builder.NodeCapacity | cuBQL/impl/morton.h:459 | the number of temp nodes `build` allocates: `2*numValidPrims` |
| Builder.EmptyBuildOverrun | cuBQL/impl/morton.h:459-461 | with no valid primitive, the allocation holds fewer slots than `initNodes` writes |
| Builder.SafeNodeCapacity | cuBQL/impl/morton.h:459-461 | the corrected allocation: at least 2 slots and at least `2*numValidPrims`, and equal to the source's for one or more primitives |
| Builder.InitNodes | cuBQL/impl/morton.h:256-270 | counter set to 1, node 0 open over `[0, numValidPrims)`, node 1 all-zero bits, every other slot unchanged |
| Builder.InitInv | cuBQL/impl/morton.h:263-269 | the root alone, open over all primitives, satisfies the construction invariant |
| Builder.CutsBound | cuBQL/impl/morton.h:459 | distinct split positions strictly inside `[0, n)` number at most n-1, which bounds the nodes by 2n-1 |
| Builder.RoomForChildren | cuBQL/impl/morton.h:307-329 | a node being split is open over its range, and its two children always find free slots in an array of 2n |
| Builder.OpenNode | cuBQL/impl/morton.h:294-296 | the node a thread picks up is open over its range, which lies within the primitives |
| Builder.SearchSplitIsMorton | cuBQL/impl/morton.h:301-307 | the position `findSplit` returns is a Morton split of the node's range |
| Builder.LeafStep | cuBQL/impl/morton.h:297-304 | finishing a frontier node as `Finished(begin, size)` keeps the invariant |
| Builder.SplitStep | cuBQL/impl/morton.h:297-334 | for a node larger than the leaf threshold, appending two children over `[begin,split)` and `[split,end)` and making the parent `Finished(childID, 0)` keeps the invariant |
| Builder.MakeLeaf | cuBQL/impl/morton.h:294-304 | the node becomes `Finished(begin, size)`; nothing else changes |
| Builder.MakeInner | cuBQL/impl/morton.h:297-334 | only for a node larger than the leaf threshold: children at the old counter value and the next slot, open over the two halves; parent `Finished(childID, 0)`; counter grows by 2; no other slot changes |
| Builder.ProcessNode | cuBQL/impl/morton.h:287-334 | one thread of `createNodes`: the invariant it extends to node `nodeID` says the node is either a leaf `Finished(begin, size)` whose size is within the leaf threshold or whose first and last key are equal, or an inner node whose size exceeds the threshold, split at a Morton split into children at the old counter value; counter unchanged or +2; only the node and the new slots change |
| Builder.CreateNodes | cuBQL/impl/morton.h:272-335 | one round over the frontier `[begin, end)`: slots below `begin` and from the new counter on are unchanged, every new inner node's children lie at or after `end`, and the invariant holds with the frontier done (leaves over ranges within the threshold or of equal keys; inner nodes larger than the threshold and Morton-split) |
| Builder.RoundStep | cuBQL/impl/morton.h:307-320 | one thread keeps the round's frame and puts its children at or after the frontier's end |
| Builder.WriteFinalNodes | cuBQL/impl/morton.h:337-349 | final node i is the finished offset and count of temp node i, for i < numNodes |
| Builder.BuildNodes | cuBQL/impl/morton.h:464-480 | rounds until one allocates nothing; then every allocated node is finished and the invariant holds, so every inner node is larger than the leaf threshold |
| Builder.FinishedTree | cuBQL/impl/morton.h:464-500 | at exit: root range `[0, n)`; one node `Finished(0,0)` when n == 0, otherwise at most 2n-1 nodes; every count-0 node has more primitives than the leaf threshold and splits its range at a Morton split into children at higher indices, so every node within the threshold is a leaf; leaves are nonempty, disjoint and cover `[0, n)`; the nodes form one tree, every node but the root being a child of exactly one inner node |
| Builder.FinishedLinks | cuBQL/impl/morton.h:319-334 | once every node is finished, every node but the root is a child (`offset` or `offset+1`) of an earlier inner node, and of no other |
| Builder.TreeExamples | cuBQL/impl/morton.h:319-334 | the three nodes built from keys `[0,1,2,3]` with threshold 2 form one tree; the same nodes with an orphan copy of the root in slot 1 do not |
| Builder.Build | cuBQL/impl/morton.h:351-500 | the topology part of `build` from sorted keys to final nodes, with the guarantees of `FinishedTree`: a single tree whose inner nodes exceed the threshold and split at Morton splits, and whose leaves partition the primitives |

## Left out

- Float centroid bounds and quantization. This covers `clearBuildState`, `fillBuildState`, `finishBuildState` and the float-to-int conversion in `computeMortonCode`. The model starts from integer cells.
- `computeUnsortedKeysAndPrimIDs`, because it relies on concurrent atomic compaction. Its primitive IDs are not modelled either, and the final nodes' offsets index the Morton-ordered primitive list.
- The radix sort. It is a precondition: keys ascending, each below 2^64.
- `refit` is an external call.
- CUDA plumbing: allocation, events, copies and launch geometry.
- The block-local and global atomic child allocation. It becomes one sequential counter, and the threads of a round run in index order. The proved properties are stated without reference to which thread gets which slots, but they are proved only for the index-order schedule.
- Float parts of vec.h: `fSqrLength`, `fSqrDistance`, CUDA vector conversions and `cuda_eq_t` overloads.
- MortonCode.ShiftBitsMoves: stated for the five distances the interleave uses, and only where the destination bits are clear. The general bit-level statement for any mask is not stated.
- Vec.Apply: `+ - * /` are computed on unbounded integers. The model neither excludes nor models `int32_t` overflow or `INT_MIN / -1`, which are undefined behaviour in C++.
- Vec.Elementwise: no `int32_t` overflow bound on the results, as for `Vec.Apply`.
- Vec.ScalarVec: no `int32_t` overflow bound on the results, as for `Vec.Apply`.
- Vec.VecScalar: no `int32_t` overflow bound on the results, as for `Vec.Apply`.
- Vec.DotProduct: every product fitting in int32 and the length being at most `Int32Max` are preconditions; from them the loop proves that the sum fits in int64. Wrap-around is not modelled.
- `uint32_t` widths: `2*numValidPrims` at line 459, the `(begin+end)/2` in `findSplit`, and the `offset`/`count` bit fields of `bvh3f::Node` are taken not to overflow.
- Builder.Build: requires `numValidPrims > 0` or a non-negative leaf threshold. Otherwise the empty root would be handed to `findSplit`, which reads `keys[-1]`.
- Split.FindSplit: requires `begin < end`, because the source reads `keys[end-1]` unconditionally.

## Findings

| source | as written | input that shows it | evidently intended | confidence | as-written member | corrected member |
|---|---|---|---|---|---|---|
| cuBQL/impl/morton.h:163 | the last stage of `bitInterleave21` uses mask `0x0082042082042082` | x = 64 lands at bit 20 and x = 128 at bit 19, so cells (64,0,0) and (0,128,0) get the same key | mask `0x0082082082082082`, the one the binary mask in the bit diagram at line 115 derives (the hex row at line 117 repeats the 0x04), so bit i lands at bit 3i | not executed | MortonCode.AsWrittenCollision | MortonCode.MortonInjective |
| cuBQL/impl/morton.h:459-461, 269 | the temp-node array has `2*numValidPrims` slots and `initNodes` writes `nodes[1]` | numValidPrims = 0: zero slots, so both writes of `initNodes` (`nodes[0]` and `nodes[1]`) are past the end, and the first `createNodes` round then reads and writes `nodes[0]` | at least two slots | not executed | Builder.EmptyBuildOverrun | Builder.SafeNodeCapacity |
