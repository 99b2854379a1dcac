# SCAMP: a verified model of its matching core

SCAMP reads source catalogues from many astronomical exposures ("fields"), groups fields that overlap, identifies
detections ("samples") of one object across them, and fits astrometric and photometric solutions. This project models,
in Dafny, the discrete algorithms at its centre and proves what they promise.

* **Cross-identification** (`Samples`, `Linking`, `Potential`, `CrossId`, `RefChains`). Each sample has one link to a
  newer sample and one to an older one. The mutual recursion of crossmatch, cross_sample and try_match is modelled on
  heap objects as it stands. It ends, because each relinking raises a weighted sum over links. It ends stable, because
  a search never opens a candidate pair that was closed before it. `LinkAll` and `CrossIdRun` state this for every set of
  samples and every radius; `Linking` shows that without exact ties the result is the greedy linking by weight.
* **Pixel store** (`PixelAvl`, `PixelStore`). The AVL tree with parent pointers and in-place rotations refines a recursive
  insertion, and the store refines a map from pixel numbers to sample lists.
* **HEALPix geometry** (`Bits`, `HealpixNest`, `HealpixRing`, `HealpixNeighbours`, `HealpixSphere`). Round trips between
  RING, NEST and (x, y, face), symmetry of neighbourhood, which the stability proof rests on, and the layout on the sphere:
  the neighbours of a pixel are exactly the pixels that touch it.
* **Region quadtree and priority queue** (`QuadTree`, `QuadDistance`, `QuadNodes`, `PQueue`, `QuadSearch`, `QuadEdge`).
  Insertion, and best-first search for nearest neighbours.
* **Normal equations** (`Numbering`, `ShrinkMat`, `NormalMatrix`, `Trimming`). How the blocks of coefficients are
  numbered, packed storage, deletion of rows and columns in place, and the two passes that trim unconstrained
  coefficients.
* **Loading with threads** (`Loading`). All interleavings of the workers, as a transition system.
* **Smaller pieces**: medians (`Medians`, `HeapMedian`), grouping of fields (`Components`, `FieldGroups`), the sweep of
  the pattern matching (`MatchSweep`), clipping of outliers (`AstrClip`).

Where the source changes objects or arrays in place, so does the model: a class or an array, a method with the loop of
the source, and a specification function or predicate that the method is proved against. The lemmas are about those
specifications.

Places where the code does less than it promises, each with its exact condition as far as not said otherwise:

* The range test of the quadtree accepts the index 2^30, whose bits wrap around to those of index 0. A stored leaf is lost
  exactly if the new one descends to it above the last level and differs from it by wrapping around, whichever of the two
  is on the edge (`QuadTrees.LosesExactly`, `QuadTrees.LostAtUpperEdge`, `QuadTrees.LostFromUpperEdge`). The scale of a new
  tree sends the largest coordinate of its range to that edge (`QuadNodes.NewTree`).
* With such a leaf in the tree, tree_knn may miss the nearest leaf (`QuadEdge.EdgeLeafMissed`). Of two leaves it comes
  first to the one with the smaller bottleneck, the largest distance of a node on the way to it after the ways to the two
  have parted (`QuadSearch.Knn`). So it finds the nearest leaves for every k if nearer leaves have smaller bottlenecks, and
  misses one for some k if a farther leaf has the smaller bottleneck (`QuadEdge.NearestExactly`). Only where bottlenecks
  are equal, the order of equal elements in the heap decides, and nothing is said.
* Asked for no leaf at all, or for fewer, tree_knn yields all of them (`QuadSearch.Knn`).
* A new leaf that differs from a stored one only in the lowest bits is not stored (`QuadTrees.InsertedExactly`).
* fast_median of an even number of values, four or more, is not the median when the lower middle one is below -BIG and
  differs from the upper middle one (`Medians.FastMedian`, `Medians.BelowRangeInput`).
* The merge loop of group_fields advances past the group that was shifted into its slot
  (`Components.ArrivedComponents`, `Components.StarIsMissed`). The condition says exactly when the member sets are the
  connected components, for each arrival and for a run in which they are so throughout
  (`Components.AlwaysComponents`). At the end alone it is only sufficient: a later arrival may repair an earlier omission
  (`Components.LaterRepair`), and the flag left behind may spoil later groups (`Components.LaterIntrusion`).
* The numbering of field blocks in astrsolve_fgroups mixes up instruments of different kinds: a test inside the loop over
  instruments looks at the instrument of the last field, and negative counts enter the sums. The blocks tile exactly if
  `Numbering.FieldBlocksTileExactly` says so; two inputs where they do not are `Numbering.OneExposure` and
  `Numbering.OnePredistorted`.
* The two trimming passes differ: the first deletes the last coefficients of a set block, the second deletes the first
  ones of a field block. `Trimming.Trim` states which coefficients remain.

## Model

| member | source | states |
|---|---|---|
| `Linking.PreferredIsLighter` | scamp/src/crossid.c:333-355 | The two tests of crossmatch prefer, on either side, only links that are lighter in (epoch gap, field gap, squared distance): preferences are globally correlated. |
| `Linking.NoDisagreement` | scamp/src/crossid.c:325-396 | Without ties a link of one stable linking is a link of every other one. |
| `Linking.StableIsUnique` | scamp/src/crossid.c:239-396 | Without ties there is exactly one stable linking, so the order of pixels and samples cannot matter. |
| `Linking.TieIsAmbiguous` | scamp/src/crossid.c:337-355 | With an exact tie there are two different stable linkings: the tie condition cannot be dropped. |
| `Linking.StableKeeps` | scamp/src/crossid.c:337-355 | Stable means: of every candidate pair at least one end is linked to a sample that is nearer in epoch, or as near and nearer in the order of fields, or as near in both and no farther away. |
| `Linking.AddLightest` | scamp/src/crossid.c:239-396 | A lightest candidate extends any stable linking of the candidates compatible with it. |
| `Linking.GreedyIsStable` | scamp/src/crossid.c:239-396 | Linking greedily by increasing weight is stable, with or without ties. |
| `Linking.StableIsGreedy` | scamp/src/crossid.c:239-396 | Without ties every stable linking is the greedy one. |
| `Potential.LighterWeighsMore` | scamp/src/crossid.c:333-372 | A lighter candidate weighs at least three times as much as a heavier one, so more than the two links it may break. |
| `Potential.TotalBound` | scamp/src/crossid.c:325-396 | The total weight of any linking of given candidates is bounded. |
| `Potential.RelinkedWeighsMore` | scamp/src/crossid.c:363-374 | Every relinking by crossmatch raises the total weight: the measure behind termination. |
| `Samples.CmpTransitive` | scamp/src/chealpixstore.c:330-347 | The order on (epoch, signed field index) is transitive, strictly so if one step is strict. |
| `Samples.OlderExactly` | scamp/src/chealpixstore.c:330-347 | The order, spelled out: by epoch; at equal epochs reference fields before all others and in reverse, others by index; equal exactly for one field at one epoch. |
| `Samples.DistZero` | scamp/src/crossid.c:143-151 | The squared distance is never negative, and zero exactly for equal vectors. |
| `Samples.DistByProduct` | scamp/src/crossid.c:143-151 | The law of cosines in three coordinates; for unit vectors it is 2 less twice their product. |
| `Samples.DistBoundsAxes` | scamp/src/crossid.c:143-151 | It bounds the square of the difference on each of the three axes. |
| `CrossId.NearSymmetric` | scamp/src/crossid.c:269-279 | Being in the same or a neighbouring pixel is symmetric; the search from the older sample sees what the search from the newer one sees. |
| `CrossId.NoneOpenIsStable` | scamp/src/crossid.c:102-104 | When no candidate pair is wanted by both of its ends, the links on the heap form a stable linking. |
| `CrossId.Relink` | scamp/src/crossid.c:363-374 | Linking a to b and cutting the two old links keeps links mutual, is the map update with both losers removed, and opens only candidates of the two losers. |
| `CrossId.LessRoom` | scamp/src/crossid.c:325-396 | A rise of the total weight lowers the natural number that bounds the recursion. |
| `CrossId.WouldLink` | scamp/src/crossid.c:333-355 | The tests of crossmatch: link exactly if within the radius and strictly preferred on both sides; the two early-out codes mean that the present partner is strictly nearer in time. |
| `CrossId.GetPixelFromSample` | scamp/src/chealpixstore.c:171-183 | The pixel a sample is looked up in is the one it was stored under. |
| `CrossId.Crossmatch` | scamp/src/crossid.c:325-396 | The mutual recursion ends; links stay mutual candidates; no candidate becomes open, and (a, b) is not open afterwards, whatever searches are still pending in the callers. |
| `CrossId.PixelCleared` | scamp/src/crossid.c:297-310 | What the binary search skips and the break cuts off holds no open candidate of the searching sample. |
| `CrossId.TryMatch` | scamp/src/crossid.c:285-312 | After it, no sample of that pixel is open for the searching sample in that direction. |
| `CrossId.CrossSample` | scamp/src/crossid.c:260-280 | After it, the sample has no open candidate in that direction anywhere in the store, and none has been opened. |
| `CrossId.AddAll` | scamp/src/crossid.c:202-220 | Filling the store with samples: it holds exactly them, unlinked. |
| `CrossId.FillStore` | scamp/src/crossid.c:197-223 | The store holds exactly the samples of the fields and, with a catalogue, of the reference field, sorted and unlinked. |
| `CrossId.LinkPixel` | scamp/src/crossid.c:240-243 | After the inner loop no open candidate has its newer end in this pixel, and none has been opened elsewhere. |
| `CrossId.LinkAll` | scamp/src/crossid.c:239-244 | After the main loop the links are stable among all pairs within the radius in the same or neighbouring pixels; without ties they are the greedy linking. |
| `CrossId.TakeOut` | scamp/src/crossid.c:422-432 | Unlinking a reference sample splices it out of the mutual links. |
| `CrossId.Rewind` | scamp/src/crossid.c:435-437 | Rewinding ends at the first sample of the chain. |
| `CrossId.MoveRefsample` | scamp/src/crossid.c:414-450 | One reference sample: the heap follows the value-level step, with the "discard" branch. |
| `CrossId.MoveRefsamples` | scamp/src/crossid.c:403-454 | After all visits: no reference sample has a predecessor, other samples keep their order, no sample changes chain, no chain falls apart, chains with a reference begin with one. |
| `CrossId.CrossIdRun` | scamp/src/crossid.c:159-248 | The whole of it: a stable linking (the greedy one without ties), whose links lead to newer samples within the radius, on each of the three axes too, and of any two samples that could be linked one is linked to something nearer in time or as near and no farther away; read backwards consistently, then rearranged by move_refsamples as stated above. |
| `CrossId.ChainAscends` | scamp/src/crossid.c:239-246 | Before move_refsamples samples get strictly newer along every chain. |
| `RefChains.NotOwnPredecessor` | scamp/src/crossid.c:414-437 | Along mutual links that go back in time no sample precedes itself, so the rewinding loop ends. |
| `RefChains.SplicedNonRefBefore` | scamp/src/crossid.c:422-432 | Taking a reference sample out leaves the nearest non-reference predecessor of every other sample as it was. |
| `RefChains.MovedHead` | scamp/src/crossid.c:422-449 | One step changes the first sample of exactly the chains it should, to the moved sample, and no order. |
| `RefChains.MovedKeeps` | scamp/src/crossid.c:414-450 | One step keeps links mutual and free of rings, and the order of non-reference samples. |
| `RefChains.MovedVisit` | scamp/src/crossid.c:407-453 | The invariant of the two loops over all samples. |
| `RefChains.AllMoved` | scamp/src/crossid.c:398-454 | In the end a chain begins with a reference sample exactly if one was anywhere in it, and the rest stands in its old order. |
| `PixelAvl.RotationsKeepOrder` | scamp/src/chealpixstore.c:398-432 | A rotation keeps order, keys and nodes, in both directions. |
| `PixelAvl.RebalancedBalances` | scamp/src/chealpixstore.c:451-473 | A node that leans by at most two, over balanced sons, is balanced after one turn; its height falls by at most one. |
| `PixelAvl.InsertedKeepsAvl` | scamp/src/chealpixstore.c:490-526 | Insertion keeps key order and balance within one, adds exactly the new key and node, and lets the height grow by at most one. |
| `PixelAvl.InsertedAlongPath` | scamp/src/chealpixstore.c:451-473 | Rebalancing from the new leaf upwards along parent pointers is the recursive insertion. |
| `PixelAvl.RecomputeHeight` | scamp/src/chealpixstore.c:383-388 | The stored height becomes exact. |
| `PixelAvl.RotateBefore` | scamp/src/chealpixstore.c:398-410 | In place, parent pointers and heights included, the heap holds the rotated tree. |
| `PixelAvl.RotateAfter` | scamp/src/chealpixstore.c:420-432 | The mirror image. |
| `PixelAvl.BalanceNode` | scamp/src/chealpixstore.c:454-470 | One turn of the loop: the subtree is rebalanced and hung where it was. |
| `PixelAvl.PixelAvlBalance` | scamp/src/chealpixstore.c:451-473 | The loop up to the root yields the tree rebalanced along the whole path. |
| `PixelAvl.FoundByKey` | scamp/src/chealpixstore.c:478-484 | Search finds a node exactly for the keys of the tree. |
| `PixelAvl.PixelAvlSearch` | scamp/src/chealpixstore.c:478-484 | The descending loop returns the node found by the recursive search. |
| `PixelAvl.PixelAvlInsert` | scamp/src/chealpixstore.c:490-526 | In place: the heap holds the recursive insertion, or is unchanged and the node with that key is returned. |
| `PixelStores.ScanHigherStops` | scamp/src/chealpixstore.c:211-218 | When the linear scan given in the comment stops at an index. |
| `PixelStores.ScanNotLowerStops` | scamp/src/chealpixstore.c:252-259 | The same for the scan of the other comment. |
| `PixelStores.GetHigherFields` | scamp/src/chealpixstore.c:206-233 | The binary search equals the linear scan of the comment and splits the samples into newer ones and the rest. |
| `PixelStores.GetLowerFields` | scamp/src/chealpixstore.c:247-274 | The other binary search equals its linear scan, less one. |
| `PixelStores.PixelAvlSort` | scamp/src/chealpixstore.c:350-360 | Every pixel of the tree gets sorted and keeps its samples. |
| `PixelStores.PixelStore.constructor` | scamp/src/chealpixstore.c:62-70 | A new store is the empty map. |
| `PixelStores.PixelStore.Add` | scamp/src/chealpixstore.c:90-143 | The store as a map: one list gets the sample appended, or a new key appears; ids are listed once in order of appearance; both links of the sample are cleared. |
| `PixelStores.PixelStore.AddPixel` | scamp/src/chealpixstore.c:112-133 | A new pixel carries its neighbours and no samples, and no other pixel changes. |
| `PixelStores.PixelStore.Get` | scamp/src/chealpixstore.c:151-163 | Look-up in the map; null exactly for absent keys. |
| `PixelStores.PixelStore.Sort` | scamp/src/chealpixstore.c:190-194 | All lists become sorted permutations; keys stay. |
| `Bits.EvenBitsOfZip` | scamp/src/chealpix.c:536-563 | Taking the even bits undoes interleaving, on the first argument. |
| `Bits.OddBitsOfZip` | scamp/src/chealpix.c:536-563 | The same on the second argument. |
| `HealpixNest.UtabInterleaves` | scamp/src/chealpix.c:536-541 | The spreading table is bit interleaving of a byte with zeros. |
| `HealpixNest.SpreadInterleaves` | scamp/src/chealpix.c:536-541 | For all 32-bit arguments the table form equals recursive bit interleaving. |
| `HealpixNest.CtabUnzips` | scamp/src/chealpix.c:543-549 | The compression table undoes the interleaving of two nibbles. |
| `HealpixNest.CompressPicksEvenBits` | scamp/src/chealpix.c:543-549 | For all 64-bit arguments, masking, folding and four look-ups pick the even bits. |
| `HealpixNest.NestOfCell` | scamp/src/chealpix.c:551-554 | The number inside a face interleaves the coordinates and stays below nside^2. |
| `HealpixNest.CellOfNest` | scamp/src/chealpix.c:556-563 | The inverse splits off the face and takes even and odd bits. |
| `HealpixNest.NestRoundTrip` | scamp/src/chealpix.c:551-563 | nest2xyf64 undoes xyf2nest64 for every power of two up to 2^29, and numbers are below 12 nside^2. |
| `HealpixNest.CellRoundTrip` | scamp/src/chealpix.c:551-563 | xyf2nest64 undoes nest2xyf64 on all numbers below 12 nside^2. |
| `HealpixNeighbours.TablesAreMutual` | scamp/src/chealpix.c:950-990 | The face and orientation tables are mutual: going over an edge or a corner and back leads to the same face, with the inverse orientation. |
| `HealpixNeighbours.MovedBack` | scamp/src/chealpix.c:950-990 | A step over any border has a step back among the eight. |
| `HealpixNeighbours.MovedInjective` | scamp/src/chealpix.c:950-990 | Different steps from a pixel lead to different pixels, for nside from 2 on. |
| `HealpixNeighbours.NeighboursSymmetric` | scamp/src/chealpix.c:924-991 | A pixel listed as a neighbour lists the first one, for every power of two. |
| `HealpixNeighbours.NeighboursDistinct` | scamp/src/chealpix.c:924-991 | From nside 2 on the eight entries are distinct and none is the pixel itself, so there are seven or eight neighbours. |
| `HealpixNeighbours.InteriorNeighbour` | scamp/src/chealpix.c:931-947 | The direct sums of the fast path give the neighbour of the general path. |
| `HealpixNeighbours.InteriorNeighbours` | scamp/src/chealpix.c:931-947 | The fast path fills the array with the neighbours of the general path. |
| `HealpixNeighbours.BorderNeighbour` | scamp/src/chealpix.c:955-989 | One iteration over the tables, with the wrapped coordinates, the swap and the missing face. |
| `HealpixNeighbours.NeighboursNest64` | scamp/src/chealpix.c:924-991 | The method fills the array with the neighbours, on either path. |
| `HealpixSphere.SamePointIs` | scamp/src/chealpix.c:100-101 | When two corners of cells, on whatever faces, are the same point of the sphere, by parallel and place on it. |
| `HealpixSphere.AcrossIsSame` | scamp/src/chealpix.c:104-123 | Across every side and corner of every face the two tables lead to the same point of the sphere. |
| `HealpixSphere.SameIsAcross` | scamp/src/chealpix.c:104-123 | And wherever two corners are the same point, the tables lead from one to the other. |
| `HealpixSphere.NeighbourFacing` | scamp/src/chealpix.c:924-991 | Each entry shares with the pixel the side or the corner that its direction names. |
| `HealpixSphere.NeighboursExactly` | scamp/src/chealpix.c:924-991 | For every nside the list holds exactly the pixels that touch: those that share a corner with the pixel on the sphere. |
| `HealpixSphere.CornersOfRing` | scamp/src/chealpix.c:100-101 | The ring and the place in it that RING numbering gives a cell are those of its western and eastern corners. |
| `HealpixRing.CellToPosition` | scamp/src/chealpix.c:591-663 | Each cell lies on one of 4 nside - 1 rings, at a position from which the face selection and the inversion lead back to it. |
| `HealpixRing.PositionToCell` | scamp/src/chealpix.c:619-663 | Each position on a ring yields a cell of a valid face that lies there: caps, belt, face choice by ifp and ifm, wrap. |
| `HealpixRing.PositionNumber` | scamp/src/chealpix.c:595-617 | Positions are numbered within 12 nside^2. |
| `HealpixRing.PositionUnique` | scamp/src/chealpix.c:595-617 | Different positions have different numbers. |
| `HealpixRing.Xyf2RingInjective` | scamp/src/chealpix.c:591-618 | xyf2ring64 maps cells into [0, 12 nside^2), each to a different number, for every nside from 1 on. |
| `HealpixRing.RingOfBase` | scamp/src/chealpix.c:100-101 | With one pixel a face the ring number is the number of the face. |
| `HealpixRing.Isqrt64` | scamp/src/chealpix.c:524-533 | The correction yields the floor of the square root, from a double that is exact below 2^50 and at most one off above. |
| `HealpixRing.Ring2Xyf64` | scamp/src/chealpix.c:619-663 | The one cell that xyf2ring64 takes to the number: with the injectivity above, mutual inverses for every nside. |
| `HealpixRing.Xyf2RingFits` | scamp/src/chealpix.c:591-618 | Up to nside 2^29 no intermediate value leaves the 64-bit range. |
| `HealpixRing.Ring2XyfFits` | scamp/src/chealpix.c:619-654 | Up to nside 2^29 no intermediate value of ring2xyf64 before or in its three branches leaves the 64-bit range, those of isqrt64 and special_div64 included. |
| `HealpixRing.RootFits` | scamp/src/chealpix.c:524-533 | The squares that isqrt64 compares fit 64 bits for every argument below 2^62. |
| `HealpixRing.CellFits` | scamp/src/chealpix.c:656-662 | Nor does any value after the branches, the final shifts included. |
| `HealpixRing.PowerOfTwoTest` | scamp/src/chealpix.c:906-920 | The bit test accepts exactly the powers of two. |
| `HealpixRing.Ring2Nest64` | scamp/src/chealpix.c:915-923 | -1 exactly if nside is no power of two; else the one NEST number that nest2ring64 takes to the RING number. |
| `PQueues.RootIsLowest` | scamp/src/pqueue.c:49-123 | The root of the array heap has the lowest priority index. |
| `PQueues.PQueue.InsertElement` | scamp/src/pqueue.c:49-83 | In place, growing the array if full: heap order is kept and exactly one element is added. |
| `PQueues.PQueue.PullElement` | scamp/src/pqueue.c:93-123 | In place: an element of lowest priority index is removed, or none if the queue is empty. |
| `PQueues.PQueue.constructor` | scamp/src/pqueue.c:133-137 | A new queue is empty. |
| `QuadTrees.MetLeafIsStored` | scamp/src/quadtree.c:88-99 | The leaf that the descent runs into is a stored one. |
| `QuadTrees.InsertedLeaves` | scamp/src/quadtree.c:71-117 | What the loop does to the set of leaves of any tree, hollow nodes included: one is swallowed, or nothing changes, or the new one is added; and every leaf stays where its bits lead. |
| `QuadTrees.RefusedIfTaken` | scamp/src/quadtree.c:71-117 | In a tree without hollow nodes only a stored leaf that agrees in all but the lowest bits keeps the new one out. |
| `QuadTrees.InsertedFull` | scamp/src/quadtree.c:71-117 | An insertion that loses no leaf leaves no hollow node. |
| `QuadTrees.AgreeDetermines` | scamp/src/quadtree.c:100-107 | Agreement of all bits is equality, of all but the lowest is equality of halves. |
| `QuadTrees.InsertedExactly` | scamp/src/quadtree.c:50-120 | On indices below 2^depth no leaf is lost, and the new one is stored exactly if no stored one has the same index up to the lowest bits; the hypotheses are kept. |
| `QuadTrees.AcceptedExactly` | scamp/src/quadtree.c:50-120 | On all indices that the range test accepts, in all trees that the code can build: exactly which leaves are stored afterwards. |
| `QuadTrees.LosesExactly` | scamp/src/quadtree.c:62-117 | In all those trees a stored leaf is lost exactly if the descent ends above the last level at a leaf of another index that wraps around to the same one. |
| `QuadTrees.LostAtUpperEdge` | scamp/src/quadtree.c:62-117 | An input that loses a leaf: one at the origin, then one on the upper edge; neither is stored. |
| `QuadTrees.LostFromUpperEdge` | scamp/src/quadtree.c:62-117 | The other way round, where the new index is in range: one on the upper edge, then one at the origin. |
| `QuadTrees.BuiltRouted` | scamp/src/quadtree.c:50-120 | Every tree built from accepted indices meets the hypotheses of AcceptedExactly; built from indices below the edge, those of InsertedExactly. |
| `QuadDistance.InsertedCells` | scamp/src/quadtree.c:76-115 | Insertion keeps every stored index inside the cell of its node. |
| `QuadDistance.TruncatedIsCorner` | scamp/src/quadtree.c:77-78 | Shifting down and up again gives the first corner of the cell. |
| `QuadDistance.LeafDistanceIs` | scamp/src/quadtree.c:287-292 | The distance of a leaf is the integer d with d^2 <= dx^2 + dy^2 < (d + 1)^2. |
| `QuadDistance.NodeDistanceIs` | scamp/src/quadtree.c:293-307 | That of an inner node is the truncated distance of the nearest point of its cell, upper borders included, and zero exactly if that holds the query. |
| `QuadDistance.SonNotNearer` | scamp/src/quadtree.c:282-308 | tree_distance does not fall from a node to its son. |
| `QuadDistance.CellsGraded` | scamp/src/quadtree.c:282-308 | Trees with all leaves inside their cells are of that kind, for every query. |
| `QuadDistance.LeafNotNearer` | scamp/src/quadtree.c:282-308 | In a tree where distances do not fall on the way down, that of a node never exceeds that of any leaf below it. |
| `QuadDistance.GradedReach` | scamp/src/quadtree.c:257-266 | In such a tree the search goes no farther for a leaf than the leaf is away. |
| `QuadDistance.GradedBottleneck` | scamp/src/quadtree.c:257-266 | Nor does it after the way has parted from that to another leaf, at whatever node. |
| `QuadNodes.TreeNode.constructor` | scamp/src/quadtree.c:130-139 | A new node: one level below its parent, or at the top; no leaf, no sons. |
| `QuadNodes.QuadTree.IndexOf` | scamp/src/quadtree.c:60-65 | The range test accepts exactly the closed square, the bin holds the coordinates, and the only bins besides the valid indices are on the upper edge. |
| `QuadNodes.QuadTree.EveryBin` | scamp/src/quadtree.c:60-65 | Every accepted index, 2^30 included, is the bin of some coordinates. |
| `QuadNodes.NewTree` | scamp/src/quadtree.c:169-191 | The scale of a new tree, null exactly for a range no wider than TINY: the smallest coordinates go to the origin, all of the range are accepted, and the largest coordinate on the widest axis gets the index 2^30, on the upper edge. |
| `QuadNodes.QuadTree.Open` | scamp/src/quadtree.c:72-99 | One turn of the loop: an inner node takes the place of an empty slot or of a leaf, with the truncated index. |
| `QuadNodes.Uproot` | scamp/src/quadtree.c:88-99 | A leaf node becomes an inner node in place. |
| `QuadNodes.Resettle` | scamp/src/quadtree.c:104-116 | The former leaf gets a node of its own with its full index. |
| `QuadNodes.QuadTree.InsertLeaf` | scamp/src/quadtree.c:50-120 | In place, parent pointers, depths and truncated indices included, the loop is the recursive insertion; RETURN_ERROR exactly if out of range or met as a duplicate, and then the tree is unchanged. |
| `QuadSearch.TakenLeaf` | scamp/src/quadtree.c:258-261 | Taking the nearest element, a leaf, keeps the split into found and waiting leaves, and the order of the found ones and of those still to be found. |
| `QuadSearch.LeafInTurn` | scamp/src/quadtree.c:257-261 | It is its turn: every leaf with a shorter stretch to go after their ways have parted has been found. |
| `QuadSearch.TakenInner` | scamp/src/quadtree.c:262-265 | Taking the nearest element, an inner node, keeps them too: its sons stand to each other and to all that waits as the order demands, and are owed to the queue. |
| `QuadSearch.SonBehind` | scamp/src/quadtree.c:262-265 | A son keeps its parent's order with every other element of the queue, because the parent was no farther than any of them. |
| `QuadSearch.TreeDistance` | scamp/src/quadtree.c:282-308 | The loops over both axes compute the distance of the value-level tree; for a leaf the truncated Euclidean distance, for an inner node zero exactly if its cell holds the query. |
| `QuadSearch.QueueSons` | scamp/src/quadtree.c:262-265 | Queueing all present sons pays that debt. |
| `QuadSearch.PullNearest` | scamp/src/quadtree.c:257 | The pulled node has the lowest priority of those waiting; null exactly if nothing waits. |
| `QuadSearch.GradedNearest` | scamp/src/quadtree.c:236-271 | Where distances do not fall on the way down, the leaves that the search comes to first are the nearest ones. |
| `QuadSearch.NearestIs` | scamp/src/quadtree.c:236-271 | Nearest means in the plane: every circle of integer radius about the query that holds a leaf left out, or found later, holds the leaf found. |
| `QuadSearch.AgreeingNearest` | scamp/src/quadtree.c:236-271 | They are in any tree where the nearer of two leaves always has the smaller bottleneck. |
| `QuadSearch.Knn` | scamp/src/quadtree.c:236-271 | In all trees that the code can build and for every integer k: distinct leaves, and before each of them all leaves whose bottleneck, the largest distance of a node on the way to it after it has parted from the way to the other, is the smaller one; min(k, number of leaves) of them, or all if k is 0 or negative; the nearest ones, in coordinates, where nearer leaves have smaller bottlenecks, and so wherever all leaves are in their cells; the error code exactly if the query is out of range and the tree not empty. |
| `QuadEdge.BuiltGraded` | scamp/src/quadtree.c:50-120 | Trees built from indices below the upper edge are searched correctly, for every query. |
| `QuadEdge.BuiltNearest` | scamp/src/quadtree.c:236-271 | In such trees every search finds the nearest leaves in the plane, up to truncation. |
| `QuadEdge.NearestExactly` | scamp/src/quadtree.c:236-271 | Of a search for all leaves and the searches for the first k of them: if nearer leaves always have smaller bottlenecks, they find the nearest k for every k; if a farther leaf has the smaller bottleneck, some k leaves the nearer one out and finds the farther. If no two leaves at different distances have equal bottlenecks, the nearest k are found for every k if and only if nearer leaves have smaller bottlenecks. |
| `QuadEdge.OvertakenNotNearest` | scamp/src/quadtree.c:257-266 | If a farther leaf has the smaller bottleneck, no search that finds either of the two finds the nearest leaves. |
| `QuadEdge.EdgeLeafMissed` | scamp/src/quadtree.c:236-308 | A tree built from three accepted indices, one on the upper edge, and a query for one leaf at that very index, which does not find it: another leaf has the smaller bottleneck. |
| `QuadEdge.EdgeTreeSearched` | scamp/src/quadtree.c:236-308 | From the origin nearer leaves of that tree have smaller bottlenecks, although it is not graded, so they are found. |
| `ShrinkMat.StartAsWritten` | scamp/src/astrsolve.c:965 | The index expressions of add_alphamat and shrink_mat are the row starts of the packed upper triangle. |
| `ShrinkMat.CopyDown` | scamp/src/astrsolve.c:1412-1413 | The overlapping forward copy moves a block down unharmed. |
| `ShrinkMat.ShrunkIsDeleted` | scamp/src/astrsolve.c:1406-1423 | The copies, as a sequence, are the matrix without rows and columns [index, index+nmiss). |
| `ShrinkMat.ShrinkPacked` | scamp/src/astrsolve.c:1397-1451 | In place on the packed triangle: exactly the submatrix, beta likewise; nothing happens if nmiss covers all. |
| `ShrinkMat.DenseShrunkIsDeleted` | scamp/src/astrsolve.c:1424-1440 | The dense branch denotes the same submatrix. |
| `ShrinkMat.ShrinkDense` | scamp/src/astrsolve.c:1397-1451 | In place on the dense matrix, with its line-by-line copies and the shorter last line. |
| `ShrinkMat.ShrinkVector` | scamp/src/astrsolve.c:1443-1448 | beta loses the same entries. |
| `NormalMatrix.PackedInjective` | scamp/src/astrsolve.c:965 | Different elements of the triangle have different places. |
| `NormalMatrix.AddRow` | scamp/src/astrsolve.c:970-973 | The inner loop adds to exactly the elements of that row on or right of the diagonal. |
| `NormalMatrix.AddAlphamat` | scamp/src/astrsolve.c:943-977 | All three loops with their running pointers: every element of the upper triangle grows by the weight times the sum over the axes of the products of its two components, and nothing else changes; nothing at all if the first number of either component is negative. |
| `NormalMatrix.TwoAxes` | scamp/src/astrsolve.c:943-977 | On two axes: the weighted scalar product of the components. |
| `NormalMatrix.ComponentOwn` | scamp/src/astrsolve.c:943-977 | Where the numbers of the coefficients do not repeat, each picks its own value. |
| `NormalMatrix.ConsecutiveComponent` | scamp/src/astrsolve.c:971 | Counting the column up from the first number picks the components of consecutively numbered coefficients. |
| `NormalMatrix.SmallestIs` | scamp/src/astrsolve.c:1492-1503 | The smallest diagonal element above TINY in a range, or BIG. |
| `NormalMatrix.FindSmallest` | scamp/src/astrsolve.c:1492-1503 | The walk with cm visits the diagonal and finds it. |
| `NormalMatrix.AddToDiagonal` | scamp/src/astrsolve.c:1509-1522 | The walk adds to those diagonal elements and to nothing else. |
| `NormalMatrix.RegulMat` | scamp/src/astrsolve.c:1488-1522 | Each part of the diagonal gets its own constant, if it has an element in range; everything else is unchanged. |
| `NormalMatrix.RegularisationIs` | scamp/src/astrsolve.c:1488-1522 | Off the diagonal nothing is added, on it the same to all of a part: the factor times the smallest element between TINY and BIG, or nothing if there is none. |
| `Numbering.IndexFields` | scamp/src/astrsolve.c:194-222 | The first loop, on the arrays it counts in: what every instrument asks for, and each field's places among the blocks of its instrument. |
| `Numbering.Totals` | scamp/src/astrsolve.c:277-293 | The second loop, prefix sums in place while the counts ahead are still being lowered: where the blocks of every instrument start, and the number of coefficients, to which negative counts add nothing. |
| `Numbering.NumberFields` | scamp/src/astrsolve.c:176-318 | All numbers of sets and fields, on every list of fields and every mixture of instrument kinds. |
| `Numbering.TilesExactly` | scamp/src/astrsolve.c:283-289 | Consecutive blocks at running sums of integer claims, of which only the positive ones are reserved, tile if and only if everybody uses what it claims and none comes after a negative claim, given that nobody uses more than it claims or nobody less. |
| `Numbering.FieldBlocksTileExactly` | scamp/src/astrsolve.c:194-318 | The field blocks are exactly those for which there are coefficients, each for one field, if and only if the lowering of all counts, which is decided by the instrument of the very last field, suits the kind of every instrument, and no instrument with field blocks comes after one with a negative count. |
| `Numbering.SetBlocksTile` | scamp/src/astrsolve.c:194-318 | The set blocks tile in any case, and two sets have the same one just if they are equal sets of a stable instrument. |
| `Numbering.NumbersLaid` | scamp/src/astrsolve.c:296-318 | In the good case all numbers are the starts of the blocks of one tiling of all coefficients, which is what trimming starts from. |
| `Numbering.OneExposure` | scamp/src/astrsolve.c:207-211 | One exposure-dependent instrument before a stable one: its count ends at -2, and the field block of the other comes to lie two blocks before the end of the set blocks. |
| `Numbering.OnePredistorted` | scamp/src/astrsolve.c:277-280 | A predistorted instrument before a stable one: its field refers to a block for which there are no coefficients. |
| `Trimming.CutMoves` | scamp/src/astrsolve.c:421-447 | Where a coefficient was before a block lost its last or first entries. |
| `Trimming.SurvivingCut` | scamp/src/astrsolve.c:421-468 | Cutting keeps the list of surviving coefficients exact: first ones in the first pass, last ones in the second. |
| `Trimming.SubmatrixCut` | scamp/src/astrsolve.c:421-468 | One deletion after others leaves the submatrix of the survivors. |
| `Trimming.CountedCut` | scamp/src/astrsolve.c:422-426 | Moving the constraint counts keeps each count at the start of its block. |
| `Trimming.Renumber` | scamp/src/astrsolve.c:427-447 | The nested loops of the first pass decrement exactly the numbers behind the cut, block lengths included. |
| `Trimming.Renumber2` | scamp/src/astrsolve.c:474-494 | Those of the second pass too. |
| `Trimming.CutBlock` | scamp/src/astrsolve.c:419-426 | One cut of matrix, vector and counts. |
| `Trimming.TrimSet` | scamp/src/astrsolve.c:410-449 | One set: its block gets min(length, count), other blocks keep theirs. |
| `Trimming.TrimField` | scamp/src/astrsolve.c:462-496 | One field of the second pass: likewise. |
| `Trimming.Trim` | scamp/src/astrsolve.c:394-498 | From any tiling: blocks tile [0, new total) again, each of length min(old length, count), empty ones included; every stored number agrees; alpha and beta are those of the surviving coefficients: the first of each set block, the last of each field block. |
| `Medians.SortedIsSorted` | scamp/src/misc.c:63-147 | The reference: insertion sort sorts and permutes. |
| `Medians.PlacedUnique` | scamp/src/misc.c:63-147 | An element with none greater before and none smaller behind is the same in all permutations. |
| `Medians.PlacedIsSorted` | scamp/src/misc.c:63-147 | It is the one of the sorted sequence. |
| `Medians.MedianOfThree` | scamp/src/misc.c:88-98 | The swaps put the median of three first and set the sentinels of the scans. |
| `Medians.Partition` | scamp/src/misc.c:100-114 | The unguarded scans stay inside thanks to the sentinels, end, and split the window at the pivot. |
| `Medians.Select` | scamp/src/misc.c:83-125 | Quickselect ends with the wanted place filled as in the sorted sequence. |
| `Medians.AverageMiddle` | scamp/src/misc.c:130-145 | Even length: the mean of the middle two, with the lower one replaced by -BIG if it is below. |
| `Medians.FastMedian` | scamp/src/misc.c:63-147 | Permutes its input and returns the median if and only if the values are not below range in the even case; what it returns then. |
| `Medians.BelowRangeInput` | scamp/src/misc.c:130-145 | Four values for which fast_median does not return the median. |
| `HeapMedian.RootIsLargest` | scamp/src/field.c:647-649 | The root of the heap is its largest element. |
| `HeapMedian.Sift` | scamp/src/field.c:655-667 | The inner loop restores the heap around the hole, within bounds, permuting. |
| `HeapMedian.DhMedian` | scamp/src/field.c:631-672 | Sorts in place and returns the median, for every length from 1 on. |
| `Loading.Lookup` | scamp/src/field.c:344-368 | The search loops return the first entry that is equal, or the end of the table. |
| `Loading.TablesGrow` | scamp/src/field.c:340-384 | Tables are only appended to. |
| `Loading.SameLabel` | scamp/src/field.c:340-384 | Two fields of a catalogue get the same astrometric label exactly if headers and numbers of sets agree; photometric ones likewise. |
| `Loading.OwnEntry` | scamp/src/field.c:343-376 | A label is the index of the field's own entry in the tables, right after labelling and ever after. |
| `Loading.TablesList` | scamp/src/field.c:343-376 | The tables list every instrument of the fields once, and no other. |
| `Loading.Prefs.LabelField` | scamp/src/field.c:340-384 | In place: the label and the new tables are those of the sequential specification; the labels are the places of the field's own entries. |
| `Loading.InitialInv` | scamp/src/field.c:736-789 | The start of the threads meets the invariant. |
| `Loading.StepKeeps` | scamp/src/field.c:685-723 | Every step of every thread and of the master keeps the invariant. |
| `Loading.RunKeeps` | scamp/src/field.c:685-789 | So does every interleaving. |
| `Loading.AlwaysInOrder` | scamp/src/field.c:685-789 | In every interleaving of any number of threads: labelled in index order, each once and after its load; no field loaded twice; tables and labels those of the sequential loop so far. |
| `Loading.CompleteAtEnd` | scamp/src/field.c:736-789 | On return every field is loaded exactly once and labelled as sequentially. |
| `Loading.NoDeadlock` | scamp/src/field.c:685-789 | In every reachable state before the end some step is possible. |
| `Loading.StepNearer` | scamp/src/field.c:685-789 | Every step lowers a measure, so every interleaving ends. |
| `Components.ArrivedPartition` | scamp/src/fgroup.c:123-145 | Each arrival keeps the groups disjoint and adds just the newcomer. |
| `Components.FusedComponents` | scamp/src/fgroup.c:135-144 | Whatever the flags, the member sets after the merge loop are the connected components exactly if it has left no flag behind: a group that keeps one touches the group of the newcomer. |
| `Components.ArrivedComponents` | scamp/src/fgroup.c:123-145 | From connected components with no flag set, the member sets after an arrival are the connected components if and only if no two groups next to each other behind the first touched one are touched; a flag is left behind in just that case. |
| `Components.GroupedPartition` | scamp/src/fgroup.c:82-146 | In the end every field is in exactly one group. |
| `Components.GroupedComponents` | scamp/src/fgroup.c:82-146 | If no arrival is of that kind, the groups are the connected components, and no flag is left. |
| `Components.SameGroupExactly` | scamp/src/fgroup.c:82-146 | What components are: two fields are in one group exactly if fields that touch lead from one to the other. |
| `Components.AlwaysComponents` | scamp/src/fgroup.c:82-146 | The member sets are the connected components after every arrival if and only if no arrival is of that kind: the first one of that kind spoils them. |
| `Components.StarIsBlind` | scamp/src/fgroup.c:135-144 | The fourth field of a star is an arrival of the kind that loses a fusion. |
| `Components.StarIsMissed` | scamp/src/fgroup.c:135-144 | What the groups of the star are, and that they are not the components, because fields 3 and 2 touch across them: the loop steps over the group shifted into its slot. |
| `Components.LaterRepair` | scamp/src/fgroup.c:100-145 | Fields 3 and 2 touch across the groups of the first four fields; a fifth field makes the groups components again. |
| `Components.LaterIntrusion` | scamp/src/fgroup.c:100-145 | Two further fields that are fused, because of the flag left behind, with a group they do not touch. |
| `FieldGroups.SortGroups` | scamp/src/fgroup.c:89-98 | Members are sorted by distance to the newcomer and no group changes. |
| `FieldGroups.TouchIs` | scamp/src/fgroup.c:88-117 | The overlap that the loops test: the circles of the fields meet, and the circles and frames of some set of one and some set of the other, among all sets of both. |
| `FieldGroups.TouchSymmetric` | scamp/src/fgroup.c:88-117 | It is symmetric if distances and frames are. |
| `FieldGroups.OverlapComponents` | scamp/src/fgroup.c:82-146 | For it the groups are the connected components after every arrival exactly if none is of the kind that loses a fusion. |
| `FieldGroups.TestGroup` | scamp/src/fgroup.c:105-119 | With both early exits, the flag is set exactly if some member is touched. |
| `FieldGroups.TestGroups` | scamp/src/fgroup.c:100-121 | All flags after all sets are those of a full pairwise comparison, and testflag tells whether there is one. |
| `FieldGroups.AddField` | scamp/src/fgroup.c:445-460 | The field is appended and points to its group. |
| `FieldGroups.AddGroup` | scamp/src/fgroup.c:473-499 | All fields are appended and point to their new group. |
| `FieldGroups.Fuse` | scamp/src/fgroup.c:136-144 | One fusion with the shift of the array; back-pointers stay consistent. |
| `FieldGroups.FuseAll` | scamp/src/fgroup.c:135-144 | The loop, with its advance after the shift. |
| `FieldGroups.Join` | scamp/src/fgroup.c:129-133 | The newcomer joins the first flagged group, whose flag is cleared. |
| `FieldGroups.Establish` | scamp/src/fgroup.c:123-127 | A new group of one. |
| `FieldGroups.Arrive` | scamp/src/fgroup.c:82-146 | One arrival on the heap is one step of the specification. |
| `FieldGroups.GroupFields` | scamp/src/fgroup.c:65-146 | On the heap the groups are those of the specification, and every field points back to the one group that lists it. Where no arrival is of the kind that loses a fusion, two fields are in one group exactly if fields that overlap lead from one to the other, with overlap in terms of distances, radii and frames. |
| `MatchSweep.BrightestIs` | scamp/src/match.c:1270-1278 | What a full scan selects: the brightest sample strictly within reach, the first one among equals, none if there is none. |
| `MatchSweep.InBand` | scamp/src/match.c:1262-1276 | Only samples in the bands around the reference, in latitude and in longitude, are within reach. |
| `MatchSweep.MatchOne` | scamp/src/match.c:1262-1278 | The moving start skips only samples that no later reference needs either; the early end cuts nothing off. |
| `MatchSweep.Sweep` | scamp/src/match.c:1250-1278 | Every reference gets the match of the full scan: in coordinates, the first brightest sample nearer than the limit, or none if all are at least that far. |
| `AstrClip.Unlink` | scamp/src/astrstats.c:529-535 | Unlinking an outlier leaves the chain without it and the outlier alone. |
| `AstrClip.CutRef` | scamp/src/astrstats.c:566-569 | Cutting off the reference splits the chain in two. |
| `AstrClip.Collect` | scamp/src/astrstats.c:495-507 | The averaged samples are the unmasked ones before the first reference sample. |
| `AstrClip.ClipLoop` | scamp/src/astrstats.c:512-543 | Exactly the outliers before the first reference are unlinked, though links change under the traversal. |
| `AstrClip.ClipChain` | scamp/src/astrstats.c:490-572 | What stays of a chain, in one piece or two, and the two counts. |
| `AstrClip.ClipAt` | scamp/src/astrstats.c:490-572 | The same for the chain that ends at a sample of the store; all other samples keep their links. |
| `AstrClip.OutlierExactly` | scamp/src/astrstats.c:495-543 | Which samples of a chain are outliers: those before the first reference sample that are too far from the unmasked ones, masked or not, if at least two are not masked. |
| `AstrClip.AveragedExactly` | scamp/src/astrstats.c:508-550 | The samples whose mean the reference sample is compared with: those that stay, masked or not, or the only unmasked one. |
| `AstrClip.CutOffExactly` | scamp/src/astrstats.c:551-569 | Which reference sample is cut off: the first of the chain if it is too far from that mean, not all of those before it are masked and not all are removed. |
| `AstrClip.TooFar` | scamp/src/astrstats.c:515-526 | The loop over the axes: too far exactly if the squared distance from the mean exceeds the limit of the axis just added, on some axis. |
| `AstrClip.DeviationsCancel` | scamp/src/astrstats.c:501-511 | The mean: deviations from it cancel. |
| `AstrClip.ChainsChained` | scamp/src/astrstats.c:490-495 | Every linked sample is in exactly one chain, from its end backwards. |
| `AstrClip.EndVisited` | scamp/src/astrstats.c:490-572 | A chain whose end is visited loses its outliers as they were at the beginning, and its reference sample if that is too far: no other visit touches it before. |
| `AstrClip.NeverVisited` | scamp/src/astrstats.c:490-495 | A chain whose end is never visited stays, and so does one of a single sample. |
| `AstrClip.AfterWithin` | scamp/src/astrstats.c:490-572 | Chains are never joined: what is in one chain after some visits was in one before. |
| `AstrClip.VisitEnd` | scamp/src/astrstats.c:490-572 | A visit to the end of a chain on the heap is the visit on values. |
| `AstrClip.RemovedThen` | scamp/src/astrstats.c:481-574 | No sample is removed twice, and removals add up. |
| `AstrClip.AstrClipAll` | scamp/src/astrstats.c:481-574 | Over all fields links stay mutual, in order and without rings, and chains never join; the result counts the outliers, which end up linked to nothing, and the reference samples that were cut off; every other sample keeps its predecessor unless that is one of these. Exactly those samples go that are outliers of a chain whose end is visited, as it is then; the chains left are those of the same visits on values; and of every listed end of a chain at least the outliers of the old chain go. |

## Left out

- Floating point: distances, fluxes and matrix elements are reals; rounding, overflow and NaN are not modelled. Of the square root in isqrt64 it is assumed that the truncated double is exact below 2^50 and at most one off above.
- Integer width: integers are unbounded, except in the range proofs `HealpixRing.Xyf2RingFits`, `HealpixRing.Ring2XyfFits` and `HealpixRing.CellFits`; `long` against `int64_t` is not distinguished.
- ang2pix, vec2ang and all trigonometry: the pixel number of a sample is a constant of the sample, the same when it is stored and when it is looked up again. nsides and the squared radius are parameters of `CrossId.CrossIdRun`; their derivation from the matching radius is not modelled.
- The BMI2 variants of the bit functions in chealpix.c.
- The C library's qsort is replaced by an insertion sort, of which nothing but a sorted permutation is promised or used.
- Memory: allocation failure, freeing and progress messages. Growing arrays of the pixel store and of the groups are sequences, so their capacities are not modelled; the priority queue keeps its array and its growth.
- QuadSearch.Knn: the array must have room for the leaves it writes, k of them or, if k is not positive, all. Which of two leaves with equal bottlenecks comes first is left open.
- Components.GroupedComponents: one direction only; the exact condition is that of `Components.AlwaysComponents`, for all arrivals.
- FieldGroups.GroupFields: distances of fields and of sets, their radii and the overlap of frames (frame_wcs) are parameters; numbering of the groups, their final order by index and locate_fgroup are left out.
- Trimming.Trim: takes the initial tiling as given, on its own field and set objects. `Numbering.NumbersLaid` has it, on values, exactly for the inputs of `Numbering.FieldBlocksTileExactly`: for others, such as those with an EXPOSURE instrument, whose entry in findex2 turns negative (astrsolve.c:207-211 and 277-291), before one with field blocks, there is no tiling to trim. The list of groups is flattened into one list of fields.
- Numbering.NumberFields: the numbers are results of the method, not fields of set and field objects; context scales and offsets, which the same loops compute, are left out.
- NormalMatrix.AddAlphamat: takes the numbers of the second component as consecutive on each axis, as the caller fills them (astrsolve.c:747-779); the dense branch of the row start is left out. The solvers that use the matrix are too.
- NormalMatrix.RegulMat: takes the start of the field coefficients as a parameter, and only the packed branch is modelled.
- Medians.FastMedian: and `HeapMedian.DhMedian` take at least one value, as their callers do.
- Loading.AlwaysInOrder: load_field, locate_field and print_fieldinfo have no effect besides the field they produce, a header is the prefix that strncmp compares, the exit on too many instruments is left out, and the gates are plain barriers.
- AstrClip.AstrClipAll: takes the decisions as functions of a list of samples and a sample; `AstrClip.RuleOf` has their arithmetic, from limits that are given. Division by a positive number of samples only: the code, too, never tests a reference sample when none before it is left. The fields, sets and samples of the loops are one list.
- MatchSweep.Sweep: takes a search radius that is not negative; the accumulation of the normal equations and the shortening of the catalogues before the sweep are left out.
- Stored `sexflags`, magnitudes, merging of samples and statistics over groups.
- Plotting, catalogue and FITS input and output, reference catalogue queries, WCS projections, FFT, LAPACK: foreign code or numerics.
