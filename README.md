# UNG index bookkeeping and label-set data tools, in Dafny

This project models the integer, set and sequence logic of the Unified Navigating Graph (UNG)
index for label-filtered vector search, together with two Python tools that prepare label data.
It proves properties of that model.

- **`uni_nav_graph.cpp`** is modelled by the class `UniNav.UniNavGraph`. Its fields mirror the index members, and its methods are the construction steps, each proved against module-level specifications. They cover:
  - dividing vectors into groups by label set, through the trie;
  - renumbering the vectors so that each group owns a contiguous id range;
  - the label navigating graph (LNG): minimum supersets, and the in-lists that reverse the out-lists;
  - coverage propagation and descendant sets;
  - the vector/attribute bipartite graph, its checksum, its binary "BIPGRPH1" codec and its comparison;
  - the attribute bitmap;
  - the query-side bookkeeping: group entry points, the hybrid global-search switch, the post-filter and the K result slots.
- **`FlatLabelDeepener.py.py`** is modelled by the module `FlatLabelDeepener`. It mines theme trees over label sets, matches each row to its deepest path, and rewrites and tallies the rows.
- **`generate_base_label_m2.py`** is modelled by the class `LabelTreeGenerator.LNGVectorGenerator`. It grows the label-set tree, traverses it breadth first, hands out vector ids and builds both mappings.

Modules:
- `Common`: shared sequences and options.
- `LabelSets`: canonical label sequences and `std::includes`.
- `Trie`: the trie as a map from label sequence to group id.
- `Partition`: division and reordering.
- `Lng`: minimum supersets, descendants and coverage as specifications.
- `Coverage`: the queue drain.
- `Descendants`: the per-group depth-first search.
- `Bipartite`: graph construction and the bitmap.
- `BipartiteFile`: the checksum and the codec.
- `Query`: offsets, cross edges, entry points, the flag, the filter and the result slots.
- `UniNav`: the index classes.
- `FlatLabelDeepener`.
- `LabelTreeGenerator`.

Randomness and the searches the source delegates are parameters:
- `draws` stands for the successive values of `rand()`.
- `shuffle` stands for `random.shuffle`. Its results must be permutations.
- `pick` stands for the bisection over the prefix sums of the weights.
- `search` is a black box returning the local ids found by a group's Vamana search.

## Model

| member | source | states |
|---|---|---|
| LabelSets.IncludesIsSubset | UNG/codes/src/uni_nav_graph.cpp:184 | On ascending label sequences the ordered `std::includes` walk holds exactly when the second set is a subset of the first |
| LabelSets.CanonicalUnique | UNG/codes/src/uni_nav_graph.cpp:127-128 | Two ascending label sequences with the same elements are the same sequence, so the trie key of a label set is unique |
| LabelSets.SameSizeIncludedIsEqual | UNG/codes/src/uni_nav_graph.cpp:179-190 | An included label set of the same size is the same set, which is why candidates of the minimum size skip the inclusion scan |
| Trie.TrieIndex.Insert | UNG/codes/src/uni_nav_graph.cpp:128 | insert returns the existing group of a known label set and leaves the counter alone; a new set gets the counter's id and the counter advances by one; other entries are kept |
| Trie.TrieIndex.FindExactMatch | UNG/codes/src/uni_nav_graph.cpp:1570-1572 | find_exact_match finds a group exactly when the label set was inserted, and returns that set's group |
| Trie.InsertNumbered | UNG/codes/src/uni_nav_graph.cpp:124-141 | Inserting keeps group ids 1..next-1 given one per label set; a new set receives `next` |
| Trie.InsertIdsAgree | UNG/codes/src/uni_nav_graph.cpp:128-137 | Two label sets get equal group ids from insert exactly when they are equal |
| Partition.MembersSpec | UNG/codes/src/uni_nav_graph.cpp:125-138 | A group's member list holds exactly the earlier vectors with that label set, in increasing id order |
| Partition.DividedIsPartition | UNG/codes/src/uni_nav_graph.cpp:121-141 | After division every vector lies in the group of its label set and in no other; lists are nonempty and ascending; group label sets are pairwise different; num_groups is the number of distinct label sets |
| Partition.DividedGroupCount | UNG/codes/src/uni_nav_graph.cpp:141 | The division fills exactly group slots 1..new_group_id-1 |
| Partition.ReorderIsPermutation | UNG/codes/src/uni_nav_graph.cpp:203-216 | The new-to-old table of the reorder is a permutation of 0..num_points-1 |
| Partition.BlockUnique | UNG/codes/src/uni_nav_graph.cpp:206-216 | No new id lies in the ranges of two different groups |
| Partition.BlocksTile | UNG/codes/src/uni_nav_graph.cpp:206-216 | The group ranges are consecutive, start at 0 and end at num_points |
| Partition.GroupOfMatchesRanges | UNG/codes/src/uni_nav_graph.cpp:206-216 | new_vec_id_to_group_id[i] is g exactly when i lies in g's range |
| Partition.FlattenIndex | UNG/codes/src/uni_nav_graph.cpp:209-213 | New id i in group g's range stands for the (i - first)-th member of g |
| Partition.ReorderedLabels | UNG/codes/src/uni_nav_graph.cpp:209-219 | After reorder_data every new id carries the label set of the group whose range holds it |
| Partition.DividedIsGrouped | UNG/codes/src/uni_nav_graph.cpp:121-141 | The division of all vectors satisfies the grouping the later steps rely on |
| Partition.DividedIsIndexed | UNG/codes/src/uni_nav_graph.cpp:121-141 | After the division the trie maps exactly the group label sets to their group ids |
| Partition.LaidOutIsReordered | UNG/codes/src/uni_nav_graph.cpp:198-219 | The layout of prepare_group_storages_graphs (ranges, group of each new id, reordered label sets) follows from the grouping |
| UniNav.DivideVector | UNG/codes/src/uni_nav_graph.cpp:126-137 | One vector's insert and list update extends the division invariant by that vector |
| UniNav.DivideGroups | UNG/codes/src/uni_nav_graph.cpp:124-141 | The division loop establishes the division invariant for all vectors |
| UniNav.FormGroups | UNG/codes/src/uni_nav_graph.cpp:121-143 | build_trie_and_divide_groups yields a grouping of all vectors, indexed by the trie |
| UniNav.PlaceGroup | UNG/codes/src/uni_nav_graph.cpp:208-215 | Laying out one group writes its members in order after the earlier groups, and each new id's group range holds it |
| UniNav.ReorderGroups | UNG/codes/src/uni_nav_graph.cpp:203-216 | The renumbering gives the concatenated member lists as new-to-old table; range (0,0) for slot 0; consecutive ranges sized by the groups; each new id's group range holds it |
| UniNav.PrepareStorage | UNG/codes/src/uni_nav_graph.cpp:198-219 | prepare_group_storages_graphs leaves a reordered storage in which new id i carries the label set of old id new_to_old[i] |
| UniNav.IncludesKept | UNG/codes/src/uni_nav_graph.cpp:181-189 | The inner scan reports exactly whether some accepted set lies inside the current candidate |
| UniNav.KeepMinimal | UNG/codes/src/uni_nav_graph.cpp:163-195 | Over the candidates sorted by size, the filter keeps each minimal candidate once and nothing else |
| UniNav.GetMinSuperSets | UNG/codes/src/uni_nav_graph.cpp:145-196 | get_min_super_sets returns, without repeats, exactly the minimal groups whose label sets contain the query (strictly with avoid_self) |
| UniNav.GroupedLabelTable | UNG/codes/src/uni_nav_graph.cpp:131-141 | The group label table has one canonical, pairwise different label set per group |
| UniNav.OutNeighbors | UNG/codes/src/uni_nav_graph.cpp:945-953 | Every group's out-list is its minimum supersets, and each out-edge leads to a strictly larger label set |
| UniNav.AddIncoming | UNG/codes/src/uni_nav_graph.cpp:957-958 | After group g's out-edges are added, each in-list holds exactly its sources among groups 0..g |
| UniNav.InNeighbors | UNG/codes/src/uni_nav_graph.cpp:956-958 | in_neighbors is exactly the reverse of out_neighbors, each source once, ascending |
| UniNav.LabelNavGraph.constructor | UNG/codes/src/uni_nav_graph.cpp:941 | A new LNG for n groups has n empty out-lists and n empty in-lists |
| Lng.CandidatesSpec | UNG/codes/src/uni_nav_graph.cpp:152 | The superset candidates are exactly the groups whose label set contains the query (strictly when avoid_self), each once |
| Lng.MinimalCandidates | UNG/codes/src/uni_nav_graph.cpp:145-196 | The minimal candidates are the minimum supersets of the query |
| Lng.MinimalSingleton | UNG/codes/src/uni_nav_graph.cpp:157-160 | A single candidate is returned as the only minimum superset |
| Lng.MinimalHasSmallest | UNG/codes/src/uni_nav_graph.cpp:164-169 | A candidate of the smallest size is always minimal, so the result includes one |
| Lng.MinimalBelowExists | UNG/codes/src/uni_nav_graph.cpp:178-190 | Every candidate the filter drops lies strictly above some minimal candidate |
| Lng.StrictSubsetShorter | UNG/codes/src/uni_nav_graph.cpp:179 | A label set strictly inside another is shorter, so the size order puts it first |
| Lng.SortedSameElems | UNG/codes/src/uni_nav_graph.cpp:164-168 | Sorting the candidates by size keeps the same candidates, each once |
| Lng.MinSupersetEdgesRanked | UNG/codes/src/uni_nav_graph.cpp:945-953 | Minimum-superset out-edges always go to a larger label set, so the LNG has no cycles |
| Lng.MinSupersetEdgesCover | UNG/codes/src/uni_nav_graph.cpp:145-196 | Every strict superset group of g lies above one of g's out-neighbours |
| Lng.IncomingIsReverse | UNG/codes/src/uni_nav_graph.cpp:956-958 | A group's in-list holds exactly the groups with an out-edge to it, ascending |
| Lng.DescAbove | UNG/codes/src/uni_nav_graph.cpp:868-910 | Every descendant has a strictly larger label set, so no group is its own descendant |
| Lng.DescClosed | UNG/codes/src/uni_nav_graph.cpp:898-908 | The descendants are closed under out-edges |
| Lng.ClosedHoldsDesc | UNG/codes/src/uni_nav_graph.cpp:887-910 | Any edge-closed set holding g holds all of g's descendants |
| Lng.CovIsDescMembers | UNG/codes/src/uni_nav_graph.cpp:787-828 | A group's coverage is its own members together with the members of all its descendants |
| Lng.PartialComplete | UNG/codes/src/uni_nav_graph.cpp:809-827 | Once every child has been merged, a partial coverage is the full coverage |
| Lng.AllFinished | UNG/codes/src/uni_nav_graph.cpp:800-828 | On the acyclic LNG, a set of finished groups closed under "all children finished" holds every group |
| Coverage.InitCovered | UNG/codes/src/uni_nav_graph.cpp:782-794 | Each group's covered set starts as its own members |
| Coverage.Leaves | UNG/codes/src/uni_nav_graph.cpp:797-805 | out_degree copies the out-list sizes, and the queue starts with exactly the groups without out-edges, ascending |
| Coverage.DrainStart | UNG/codes/src/uni_nav_graph.cpp:797-805 | Before the first pop every group is settled with nothing finished |
| Coverage.QueueBound | UNG/codes/src/uni_nav_graph.cpp:809-828 | The queue never holds a group twice, so it is shorter than the number of groups |
| Coverage.MergeStart | UNG/codes/src/uni_nav_graph.cpp:811-812 | The popped group has no unfinished child, so its covered set is complete |
| Coverage.SettledParent | UNG/codes/src/uni_nav_graph.cpp:814-826 | Merging a finished child into a parent and decrementing its counter keeps the parent settled with that child counted |
| Coverage.MergeEnd | UNG/codes/src/uni_nav_graph.cpp:814-827 | After the last parent, the popped group counts as finished for every group |
| Coverage.MergeIntoParents | UNG/codes/src/uni_nav_graph.cpp:811-827 | One pop and its parent loop advance the drain by one group |
| Coverage.DrainEnd | UNG/codes/src/uni_nav_graph.cpp:809-828 | When the queue is drained every group was enqueued and holds its full coverage |
| Coverage.CoveredSets | UNG/codes/src/uni_nav_graph.cpp:776-828 | cal_f_coverage_ratio leaves covered_sets[g] equal to g's members united with those of every group reachable from g |
| Descendants.PushChildren | UNG/codes/src/uni_nav_graph.cpp:898-909 | Every unvisited child other than the node itself is pushed and recorded, and nothing else is recorded; the count grows by the number of pushes; with a repeat-free out-list and no unvisited child recorded before, every push records a new group |
| Descendants.PopVisited | UNG/codes/src/uni_nav_graph.cpp:889-895 | Popping a visited group keeps the search invariant |
| Descendants.PopNew | UNG/codes/src/uni_nav_graph.cpp:889-909 | Popping, marking and expanding an unvisited group keeps the search invariant |
| Descendants.SearchDone | UNG/codes/src/uni_nav_graph.cpp:887-910 | An empty stack leaves exactly g's descendants recorded |
| Descendants.ChildNotFound | UNG/codes/src/uni_nav_graph.cpp:898-906 | On the label navigation graph, no unvisited child of the popped group has been recorded before, so its push is a new one |
| Descendants.PopVisitedExact | UNG/codes/src/uni_nav_graph.cpp:890-895 | Skipping a visited group keeps the count equal to the number recorded |
| Descendants.PopNewExact | UNG/codes/src/uni_nav_graph.cpp:896-909 | Expanding an unvisited group keeps the count equal to the number recorded: a pushed minimal superset never lies strictly inside a group below it on the stack |
| Descendants.DescendantsReadAsWritten | UNG/codes/src/uni_nav_graph.cpp:1079 | Reading the table at index g gives a value exactly when g is below its size, so the last group reads nothing defined |
| Descendants.SearchFrom | UNG/codes/src/uni_nav_graph.cpp:880-910 | The stack search from g records exactly the groups reachable by one or more out-edges; its count is at least their number, and on the label navigation graph exactly their number |
| Descendants.DescendantsInfo | UNG/codes/src/uni_nav_graph.cpp:868-918 | get_descendants_info stores group g's pair (g, count) and descendant set at index g-1; on the label navigation graph the count is the number of g's descendants |
| Descendants.ChainDescendants | UNG/codes/src/uni_nav_graph.cpp:868-913 | In a two-group chain, group 1's only descendant is group 2, which has none |
| Descendants.DescendantsMisread | UNG/codes/src/uni_nav_graph.cpp:1076-1080 | Reading the descendant table at g, as initialize_roaring_bitsets does, gives group 1 the wrong set and runs past the end for the last group |
| Descendants.RoaringBitsets | UNG/codes/src/uni_nav_graph.cpp:1069-1096 | With the read at g-1, each group's bitset holds exactly its descendants and its covered set; slot 0 is empty |
| Bipartite.Dedup | UNG/codes/src/uni_nav_graph.cpp:315-328 | The label list without repeats is distinct and holds exactly the labels that occur |
| Bipartite.NumberingStep | UNG/codes/src/uni_nav_graph.cpp:319-326 | A label met for the first time gets the next attribute id in both maps; a known one changes nothing |
| Bipartite.AssignAttributeIds | UNG/codes/src/uni_nav_graph.cpp:309-328 | The first pass numbers the distinct labels 0..m-1 in both maps, and counts m of them |
| Bipartite.NumberLabels | UNG/codes/src/uni_nav_graph.cpp:318-326 | One vector's labels extend the numbering: the labels seen so far stay numbered 0..m-1 in order of first appearance, in both maps |
| Bipartite.NumberingInverse | UNG/codes/src/uni_nav_graph.cpp:323-324 | attr_to_id and id_to_attr invert each other, with ids below m |
| Bipartite.NumberedLabels | UNG/codes/src/uni_nav_graph.cpp:315-339 | Every label of every vector has an attribute id below num_attributes |
| Bipartite.EdgesStep | UNG/codes/src/uni_nav_graph.cpp:344-345 | One (vector, label) pair adds the edge in both directions |
| Bipartite.AddVectorEdges | UNG/codes/src/uni_nav_graph.cpp:336-346 | One vector's labels extend the adjacency from vectors 0..v-1 to vectors 0..v |
| Bipartite.BuildAdjacency | UNG/codes/src/uni_nav_graph.cpp:331-347 | The second pass builds num_points + m lists holding the edges of every vector |
| Bipartite.VectorEdges | UNG/codes/src/uni_nav_graph.cpp:334-347 | Each (vector, label) pair gives an edge both ways: the vector's list holds attribute node num_points+id(l), and that node's list holds the vector |
| Bipartite.AttributeEdges | UNG/codes/src/uni_nav_graph.cpp:334-347 | An attribute node's list holds exactly the vectors carrying a label with that id |
| Bipartite.AttrNodeMember | UNG/codes/src/uni_nav_graph.cpp:345 | A vector lies in an attribute node's list exactly when it carries a label with that id |
| Bipartite.CountGraphEdges | UNG/codes/src/uni_nav_graph.cpp:362-370 | count_graph_edges is half the total length of the adjacency lists |
| Bipartite.EdgeCount | UNG/codes/src/uni_nav_graph.cpp:362-370 | On a built graph the edge count is the number of (vector, label) pairs |
| Bipartite.CarriesLabel | UNG/codes/src/uni_nav_graph.cpp:319-326 | Under the numbering, a vector holds a label exactly when it holds a label numbered like it |
| Bipartite.IndexesOfBuilt | UNG/codes/src/uni_nav_graph.cpp:304-347 | The built bipartite graph indexes every known label by its attribute node |
| Bipartite.SetBits | UNG/codes/src/uni_nav_graph.cpp:699-704 | Setting the bits of one attribute node's list gives its set of vectors, or fails when an id is past the last bit |
| Bipartite.ComputeAttributeBitmap | UNG/codes/src/uni_nav_graph.cpp:676-715 | The loop starts from all bits set, returns the empty bitmap at the first unknown attribute, and otherwise intersects with each attribute node's bits |
| Bipartite.Bitmap | UNG/codes/src/uni_nav_graph.cpp:676-715 | Intersecting never adds a vector, and a nonempty bitmap means every query label is known; BitmapOfLabels gives the exact set |
| Bipartite.LabelBits | UNG/codes/src/uni_nav_graph.cpp:695-704 | A known label's attribute node sets exactly the bits of the vectors carrying that label |
| Bipartite.BitmapHaving | UNG/codes/src/uni_nav_graph.cpp:684-712 | Intersecting with the attribute nodes of a nonempty known query leaves the vectors carrying every query label |
| Bipartite.BitmapOfLabels | UNG/codes/src/uni_nav_graph.cpp:676-715 | On a built graph: an empty query gives all bits; a query with an unknown label gives none; otherwise bit v is set exactly when v carries every query label |
| BipartiteFile.ReadLE | UNG/codes/src/uni_nav_graph.cpp:516-517 | A k-byte little-endian field reads as a number below 256^k |
| BipartiteFile.ChecksumSnoc | UNG/codes/src/uni_nav_graph.cpp:433 | One more node id folds into the checksum by `sum ^= node << (sum % 32)` in 32-bit arithmetic |
| BipartiteFile.ChecksumContinue | UNG/codes/src/uni_nav_graph.cpp:431-434 | The inner loop continues the running checksum over one neighbour list |
| BipartiteFile.ComputeChecksum | UNG/codes/src/uni_nav_graph.cpp:425-437 | compute_checksum is the fold over all lists, one after another |
| BipartiteFile.EncodeEntries | UNG/codes/src/uni_nav_graph.cpp:462-466 | Each (label, id) pair takes sizeof(LabelType) + sizeof(AtrType) bytes |
| BipartiteFile.WriteEntries | UNG/codes/src/uni_nav_graph.cpp:462-466 | The map loop writes the pairs' encoding, in iteration order |
| BipartiteFile.WriteNode | UNG/codes/src/uni_nav_graph.cpp:477-485 | One list is written as its 32-bit count followed by its ids |
| BipartiteFile.WriteNodes | UNG/codes/src/uni_nav_graph.cpp:474-486 | The adjacency loop writes every list in order |
| BipartiteFile.Save | UNG/codes/src/uni_nav_graph.cpp:440-494 | save_bipartite_graph writes, in order: the magic, num_points, num_attributes, the map count and pairs, the node count and lists, and the checksum |
| BipartiteFile.Encode | UNG/codes/src/uni_nav_graph.cpp:440-494 | The saved bytes begin with the magic "BIPGRPH1" and end with the adjacency's 32-bit checksum; DecodeEncode gives the round trip |
| BipartiteFile.Decode | UNG/codes/src/uni_nav_graph.cpp:497-578 | A wrong header is the only invalid format; DecodeBody and DecodeEncode give what a saved file decodes to |
| BipartiteFile.ReadLEOf | UNG/codes/src/uni_nav_graph.cpp:516-517 | A fixed-width field written with x reads back as x and leaves what follows |
| BipartiteFile.ReadEntriesOf | UNG/codes/src/uni_nav_graph.cpp:528-538 | Encoded pairs read back as the same stores into both maps, and leave what follows |
| BipartiteFile.ReadIdsOf | UNG/codes/src/uni_nav_graph.cpp:555-559 | An encoded id block reads back as the same ids |
| BipartiteFile.ReadNodeOf | UNG/codes/src/uni_nav_graph.cpp:551-559 | An encoded neighbour list reads back and leaves what follows |
| BipartiteFile.ReadNodesOf | UNG/codes/src/uni_nav_graph.cpp:544-560 | Encoded lists read back as the same adjacency |
| BipartiteFile.DecodeBody | UNG/codes/src/uni_nav_graph.cpp:507-570 | A well-formed body followed by a stored checksum decodes to its fields exactly when that checksum is the adjacency's, and otherwise reports a mismatch carrying those same fields |
| BipartiteFile.DecodeEncode | UNG/codes/src/uni_nav_graph.cpp:440-578 | Loading what save wrote restores num_points, num_attributes, the stored maps and the adjacency, whenever the values fit their widths |
| BipartiteFile.ReadAttributeMap | UNG/codes/src/uni_nav_graph.cpp:520-538 | The map loop of load reads count pairs into both maps, a later pair overwriting, or reports a short read |
| BipartiteFile.ReadAdjacency | UNG/codes/src/uni_nav_graph.cpp:540-560 | The list loop of load reads count lists, or reports a short read |
| BipartiteFile.Load | UNG/codes/src/uni_nav_graph.cpp:497-578 | load_bipartite_graph rejects a wrong magic or a short file, reports a checksum mismatch together with the fields it has read, and otherwise restores the fields |
| BipartiteFile.ApplyNumbering | UNG/codes/src/uni_nav_graph.cpp:536-537 | Storing the pairs of an attribute numbering, in any order, restores both maps |
| BipartiteFile.LoadSaved | UNG/codes/src/uni_nav_graph.cpp:440-578 | Saving a built numbering in any map order and loading it gives back both maps, both counts and the adjacency |
| BipartiteFile.SameListsEqual | UNG/codes/src/uni_nav_graph.cpp:639-665 | The list-by-list comparison holds exactly for equal adjacencies |
| BipartiteFile.SubMapEqual | UNG/codes/src/uni_nav_graph.cpp:599-619 | A map contained in a map of the same size is that map |
| BipartiteFile.CompareGraphsAsWritten | UNG/codes/src/uni_nav_graph.cpp:581-670 | compare_graphs as written holds exactly when both counts, the forward map and the adjacency agree and the first reverse map is inside the second |
| BipartiteFile.CompareGraphsAsWrittenExtraId | UNG/codes/src/uni_nav_graph.cpp:621-636 | Two graphs that differ only by an extra pair in the second reverse map compare equal |
| BipartiteFile.CompareGraphs | UNG/codes/src/uni_nav_graph.cpp:581-670 | With a size check on the reverse maps too, compare_graphs holds exactly for equal restored fields |
| Query.OthersMeans | UNG/codes/src/uni_nav_graph.cpp:720-723 | A point of a complete group graph is linked to every other point of 0..n-1, ascending, n-1 of them |
| Query.BuildCompleteGraph | UNG/codes/src/uni_nav_graph.cpp:718-724 | build_complete_graph appends to each point 0..n-1 every other point in ascending order, and leaves the other lists alone |
| Query.CompleteGraphMeans | UNG/codes/src/uni_nav_graph.cpp:251-255 | A small group's graph links each point to exactly the other points of its group |
| Query.AddOffset | UNG/codes/src/uni_nav_graph.cpp:1099-1106 | add_offset shifts every neighbour of point i by the first new id of i's group |
| Query.OffsetStaysInGroup | UNG/codes/src/uni_nav_graph.cpp:1099-1106 | A group graph over local ids becomes one whose every edge stays inside the group |
| Query.ConnectedGroups | UNG/codes/src/uni_nav_graph.cpp:1182-1187 | The connected-groups loop collects exactly the groups of the group's cross-group neighbours |
| Query.LinkFound | UNG/codes/src/uni_nav_graph.cpp:1199-1204 | A point is linked to the first `limit` ids found (num_cross_edges/2 in the source), each shifted into the out-group |
| Query.EdgesFromMeans | UNG/codes/src/uni_nav_graph.cpp:1199-1204 | Each found id t gives the edge (vec, t + first of the out-group) |
| Query.EdgesToOutGroup | UNG/codes/src/uni_nav_graph.cpp:1193-1206 | The edges towards one out-group are the group's points in order, while fewer than num_cross_edges were added, each linked to at most half of that many ids found |
| Query.AdditionalFromMeans | UNG/codes/src/uni_nav_graph.cpp:1193-1206 | Those edges start at the group's own points and end at found ids shifted by the out-group's first id |
| Query.AdditionalFromCount | UNG/codes/src/uni_nav_graph.cpp:1193-1206 | Fewer than num_cross_edges + num_cross_edges/2 edges are added towards one out-group, and none when num_cross_edges is 0 |
| Query.EdgesIntoOutGroup | UNG/codes/src/uni_nav_graph.cpp:1197-1202 | When the search returns local ids of the out-group, every additional edge lands in that out-group |
| Query.GroupAdditionalEdges | UNG/codes/src/uni_nav_graph.cpp:1181-1207 | Only the out-groups in LNG out-neighbour order that the cross edges do not reach get additional edges |
| Query.AdditionalEdgesMeans | UNG/codes/src/uni_nav_graph.cpp:1190-1207 | Additional edges go only to out-groups not yet connected, and start at the group's own points |
| Query.MergeCrossEdges | UNG/codes/src/uni_nav_graph.cpp:1214-1217 | Each point's cross-group neighbours are appended to its list |
| Query.AppendEdges | UNG/codes/src/uni_nav_graph.cpp:1223-1224 | Each additional edge (from, to) appends to to from's list, in edge order |
| Query.MergeAdditionalEdges | UNG/codes/src/uni_nav_graph.cpp:1220-1225 | Groups 1..num_groups in order append their additional edges to the lists of their sources |
| Query.FinishCrossGroupEdges | UNG/codes/src/uni_nav_graph.cpp:1211-1225 | A point's final list is its group neighbours shifted to global ids, then its cross-group neighbours, then the additional edges starting at it, in group order |
| Query.EntryPointsGivenGroupAsWrittenRepeats | UNG/codes/src/uni_nav_graph.cpp:1612-1620 | With the source's push of i + first, the group entry point can be pushed twice while the sampled point is marked visited and never pushed |
| Query.SampleAsWrittenInRange | UNG/codes/src/uni_nav_graph.cpp:1612-1620 | As written, every sampled id pushed is i + first for some i below num_entry_points, so it stays inside the group |
| Query.SampleMeans | UNG/codes/src/uni_nav_graph.cpp:1612-1620 | Pushing the sampled point: each pushed id is a fresh point of the group; pushed ids are distinct and marked visited; at most count - i are pushed; one rand() per round |
| Query.SampleAsWritten | UNG/codes/src/uni_nav_graph.cpp:1612-1620 | As written, the loop draws rand() once per round, only appends entry points and only grows the visited set; SampleAsWrittenInRange gives the ids pushed |
| Query.SampleEntryPoints | UNG/codes/src/uni_nav_graph.cpp:1612-1620 | The sampling loop computes the corrected sampling specification |
| Query.AppendGroup | UNG/codes/src/uni_nav_graph.cpp:1599-1603 | A group of at most num_entry_points points appends all of its ids in order |
| Query.GetEntryPointsGivenGroup | UNG/codes/src/uni_nav_graph.cpp:1593-1621 | The per-group entry-point routine computes its specification |
| Query.EntryPointsGivenGroupMeans | UNG/codes/src/uni_nav_graph.cpp:1593-1621 | A group of at most num_entry_points points adds all of them in order; a larger one adds its entry point first, then sampled points; at most num_entry_points ids are added (one when that is 0), all distinct and in the group's range |
| Query.EntryPointsGivenGroupAsWritten | UNG/codes/src/uni_nav_graph.cpp:1593-1621 | As written, earlier entry points are kept, the visited set only grows, and a group larger than num_entry_points adds its entry point first; EntryPointsGivenGroupAsWrittenRepeats shows the repeat |
| Query.EntryPointsGivenGroup | UNG/codes/src/uni_nav_graph.cpp:1593-1621 | With the sampled point pushed, earlier entry points are kept, the visited set only grows, and a larger group adds its entry point first; EntryPointsGivenGroupMeans gives the bound, the range and the distinctness |
| Query.GetEntryPoints | UNG/codes/src/uni_nav_graph.cpp:1560-1591 | get_entry_points computes its specification for each scenario |
| Query.EntryPointsOfGroupsMeans | UNG/codes/src/uni_nav_graph.cpp:1581-1582 | The groups' entry points lie in the groups' ranges; when every group is nonempty, none are added exactly when there are no groups |
| Query.EntryPointsMeans | UNG/codes/src/uni_nav_graph.cpp:1560-1591 | Equality gives none without an exact-match group and some for a nonempty one; containment gives points of the minimum supersets, none exactly when there are none (for nonempty groups); other scenarios are an error |
| Query.EntryPoints | UNG/codes/src/uni_nav_graph.cpp:1560-1591 | Only equality and containment queries get entry points, and an equality query without an exact-match group gets none; EntryPointsMeans gives the rest |
| Query.UnionOverMeans | UNG/codes/src/uni_nav_graph.cpp:1383-1414 | The merged bitmap holds exactly the members of sets[g] for entry groups 0 < g <= num_groups |
| Query.MergeGroupSets | UNG/codes/src/uni_nav_graph.cpp:1383-1414 | The roaring merges compute that union |
| Query.UseGlobalSearchThresholds | UNG/codes/src/uni_nav_graph.cpp:1350-1351 | The integer tests 5c > 4n and floor(2n/5) are the source's 0.8 ratio and n/2.5 threshold read over the reals |
| Query.UseGlobalSearch | UNG/codes/src/uni_nav_graph.cpp:1417-1425 | The original UNG never searches the global graph, and entry groups covering every point always switch to it |
| Query.HybridFlag | UNG/codes/src/uni_nav_graph.cpp:1375-1426 | The flag merges the entry groups' descendant and coverage sets and searches the global graph exactly on high coverage or many descendants, never for the original UNG |
| Query.UseGlobalSearchMonotone | UNG/codes/src/uni_nav_graph.cpp:1383-1418 | More entry groups can only switch the global search on |
| Query.ValidCandidatesMeans | UNG/codes/src/uni_nav_graph.cpp:1455-1485 | The valid candidates are exactly those of the queue that pass the scenario and bitmap test |
| Query.ValidCandidatesPrefix | UNG/codes/src/uni_nav_graph.cpp:1455 | The valid candidates of a queue prefix are a prefix of the valid candidates |
| Query.PostFilter | UNG/codes/src/uni_nav_graph.cpp:1454-1485 | The global branch keeps the first K valid candidates of the search queue, in queue order |
| Query.ContainmentFilterMeans | UNG/codes/src/uni_nav_graph.cpp:1468-1473 | Under containment with the query's bitmap, a candidate is kept exactly when its labels include every query label |
| Query.EqualityFilterMeans | UNG/codes/src/uni_nav_graph.cpp:1462-1465 | Under equality a kept candidate has exactly the query's labels; without a bitmap that is also enough to keep it |
| Query.AnswerAt | UNG/codes/src/uni_nav_graph.cpp:1307-1316 | Slot k holds the original id of the k-th result when there is one, else -1 |
| Query.SlotsAt | UNG/codes/src/uni_nav_graph.cpp:1538-1549 | Only query id's block of K slots changes, to its answers |
| Query.SlotsCommute | UNG/codes/src/uni_nav_graph.cpp:1356-1357 | Different queries write disjoint blocks, so the parallel order of their writes does not matter |
| Query.WriteResults | UNG/codes/src/uni_nav_graph.cpp:1538-1549 | The write loop leaves the result array as the slot specification says |
| Query.HybridSlotsAsWrittenStale | UNG/codes/src/uni_nav_graph.cpp:1525-1529 | search_hybrid as written leaves the old slot value for a query without entry points, where search writes -1 |
| Query.SearchSlotsEmpty | UNG/codes/src/uni_nav_graph.cpp:1293-1299 | A query without entry points gets -1 in all of its K slots |
| Query.SearchSlots | UNG/codes/src/uni_nav_graph.cpp:1293-1299 | search writes only the query's K slots; SearchSlotsEmpty gives -1 in all of them without entry points |
| Query.HybridSlotsAsWritten | UNG/codes/src/uni_nav_graph.cpp:1525-1529 | search_hybrid as written also writes only the query's K slots; HybridSlotsAsWrittenStale shows them left stale without entry points |
| Query.AnswerQuery | UNG/codes/src/uni_nav_graph.cpp:1292-1316 | The group branch writes -1 everywhere without entry points, and the search's results otherwise |
| UniNav.UniNavGraph.constructor | UNG/codes/src/uni_nav_graph.cpp:64-65 | A new index over the base label sets has every table empty |
| UniNav.UniNavGraph.BuildTrieAndDivideGroups | UNG/codes/src/uni_nav_graph.cpp:121-143 | The vectors are grouped by label set and indexed by the trie; the group label sets are canonical and distinct |
| UniNav.UniNavGraph.PrepareGroupStoragesGraphs | UNG/codes/src/uni_nav_graph.cpp:198-231 | The ranges tile 0..num_points; new_to_old is the concatenated member lists; each new id carries its old label set |
| UniNav.UniNavGraph.BuildLabelNavGraph | UNG/codes/src/uni_nav_graph.cpp:937-964 | A fresh LNG whose out-lists are the minimum supersets and whose in-lists reverse them |
| UniNav.UniNavGraph.CalFCoverageRatio | UNG/codes/src/uni_nav_graph.cpp:776-830 | covered_sets[g] becomes g's members together with all its descendants' members; the LNG edges are unchanged |
| UniNav.UniNavGraph.GetDescendantsInfo | UNG/codes/src/uni_nav_graph.cpp:868-918 | The descendant tables hold, at g-1, group g's descendants and, beside g, the number of them |
| UniNav.UniNavGraph.InitializeRoaringBitsets | UNG/codes/src/uni_nav_graph.cpp:1069-1096 | With the index corrected to g-1, each group's bitsets hold exactly its descendants and its covered set |
| UniNav.UniNavGraph.BuildVectorAndAttrGraph | UNG/codes/src/uni_nav_graph.cpp:304-359 | The maps number the labels in first-appearance order, and the adjacency holds both directions of every (vector, label) edge |
| UniNav.UniNavGraph.CountGraphEdges | UNG/codes/src/uni_nav_graph.cpp:362-370 | The count is half the total list length, which on a built graph is the number of (vector, label) pairs |
| UniNav.UniNavGraph.SaveBipartiteGraph | UNG/codes/src/uni_nav_graph.cpp:440-494 | The bytes written are the file encoding, and on a built graph they load back to the same fields |
| UniNav.UniNavGraph.LoadBipartiteGraph | UNG/codes/src/uni_nav_graph.cpp:497-578 | Loading succeeds exactly when the bytes decode, and then restores the decoded fields; a checksum mismatch leaves the fields holding what was read; a wrong magic changes nothing |
| UniNav.UniNavGraph.ComputeAttributeBitmap | UNG/codes/src/uni_nav_graph.cpp:676-715 | The bitmap is the bitmap specification; on a built graph it sets exactly the vectors carrying every query label, or is empty for an unknown label |
| UniNav.UniNavGraph.SetGroupEntryPoints | UNG/codes/src/uni_nav_graph.cpp:242-269 | Each group's entry point is its local entry point shifted by the group's first new id, so it lies in the group |
| UniNav.UniNavGraph.GetEntryPoints | UNG/codes/src/uni_nav_graph.cpp:1560-1591 | Equality finds none exactly when the trie lacks the label set; containment uses the minimum supersets, each a real group; other scenarios are an error |
| UniNav.UniNavGraph.HybridFlag | UNG/codes/src/uni_nav_graph.cpp:1375-1426 | The entry groups are the minimum strict supersets; the two cardinalities are of the merged bitsets; the switch follows them |
| FlatLabelDeepener.AllRows | DataTools/FlatLabelDeepener.py.py:100 | remaining_indices starts with every row index once |
| FlatLabelDeepener.IndexIntersection | DataTools/FlatLabelDeepener.py.py:42-49 | Intersecting rows with an inverted-index entry keeps exactly the rows holding that label |
| FlatLabelDeepener.LabelHeld | DataTools/FlatLabelDeepener.py.py:56-59 | A counted label is held by at least one row |
| FlatLabelDeepener.MostCommon | DataTools/FlatLabelDeepener.py.py:68 | most_common is a rearrangement of the labels by descending count |
| FlatLabelDeepener.Strong | DataTools/FlatLabelDeepener.py.py:60 | The strong children are exactly the counted labels with support at least MIN_SUPPORT_COUNT |
| FlatLabelDeepener.BuildTreeGrown | DataTools/FlatLabelDeepener.py.py:53-69 | Every node built carries a counted label, and an inner node's children are grown over the rows holding its label |
| FlatLabelDeepener.BuildChildrenGrown | DataTools/FlatLabelDeepener.py.py:62-67 | The strong children and their subtrees satisfy the same growth property |
| FlatLabelDeepener.BuildTree | DataTools/FlatLabelDeepener.py.py:53-69 | No rows give no children, and every child carries a label of the rows that is not on the path; BuildTreeGrown gives the growth property |
| FlatLabelDeepener.BuildChildren | DataTools/FlatLabelDeepener.py.py:62-67 | One child per strong label, in order, labelled with it |
| FlatLabelDeepener.BuildTreePaths | DataTools/FlatLabelDeepener.py.py:53-69 | A path grown below a path repeats no label of either, and all its labels occur together in one row |
| FlatLabelDeepener.GrownPaths | DataTools/FlatLabelDeepener.py.py:53-69 | The same for any forest with the growth property |
| FlatLabelDeepener.DepthMeans | DataTools/FlatLabelDeepener.py.py:86-88 | get_max_depth is the length of the longest root-to-node path |
| FlatLabelDeepener.FirstSupportedMeans | DataTools/FlatLabelDeepener.py.py:76-78 | Over a ranking by descending count, the scan finds the head when it has enough support, and nothing otherwise |
| FlatLabelDeepener.ThemeRootMeans | DataTools/FlatLabelDeepener.py.py:74-80 | The root candidate has the greatest support among the rows, at least MIN_SUPPORT_COUNT; there is none exactly when no label reaches it |
| FlatLabelDeepener.ThemeTreeSupport | DataTools/FlatLabelDeepener.py.py:81-84 | A theme tree's root is the candidate and has enough support |
| FlatLabelDeepener.ThemeTreeMeans | DataTools/FlatLabelDeepener.py.py:71-94 | A theme tree has a root of greatest support, is at least MIN_PATH_DEPTH deep, and each path repeats no label and lies in one row; there is no tree without a supported label |
| FlatLabelDeepener.FindSingleThemeTree | DataTools/FlatLabelDeepener.py.py:71-94 | No rows or no candidate root give no tree; a tree found is rooted at the candidate root and is at least MIN_PATH_DEPTH deep |
| FlatLabelDeepener.ThemeTreeShape | DataTools/FlatLabelDeepener.py.py:85-94 | A theme tree is rooted at the candidate, with the children grown below it |
| FlatLabelDeepener.UncoveredStep | DataTools/FlatLabelDeepener.py.py:115-116 | Removing the rows holding the new root is the uncovered set of the longer forest |
| FlatLabelDeepener.BuildThemeForest | DataTools/FlatLabelDeepener.py.py:96-119 | Each tree is mined from the rows the earlier roots leave; the loop stops when nothing remains, the coverage target is reached, or no tree is found |
| FlatLabelDeepener.TreeShrinks | DataTools/FlatLabelDeepener.py.py:113-116 | Each new root removes at least MIN_SUPPORT_COUNT rows from remaining_indices |
| FlatLabelDeepener.MinedShrinks | DataTools/FlatLabelDeepener.py.py:103-117 | Every tree of a mined forest has enough support among the remaining rows and shrinks them by at least that much |
| FlatLabelDeepener.MinedTrees | DataTools/FlatLabelDeepener.py.py:96-119 | Every mined tree is MIN_PATH_DEPTH deep, and its paths repeat no label and lie in one row |
| FlatLabelDeepener.MinedRootsDistinct | DataTools/FlatLabelDeepener.py.py:113-116 | No label roots two trees of the forest |
| FlatLabelDeepener.DeepestPath | DataTools/FlatLabelDeepener.py.py:124-132 | There is no path exactly when the node's label is not in the row; a path found starts with that label |
| FlatLabelDeepener.LongestMeans | DataTools/FlatLabelDeepener.py.py:127-131 | The strict-comparison scan keeps nothing exactly when nothing was found, and otherwise the first path of greatest length |
| FlatLabelDeepener.FoundNonEmpty | DataTools/FlatLabelDeepener.py.py:130 | A path found is never empty |
| FlatLabelDeepener.DeepestPathIsPath | DataTools/FlatLabelDeepener.py.py:124-132 | A path found runs from the node down the tree through labels of the row only |
| FlatLabelDeepener.DeepestPathIsLongest | DataTools/FlatLabelDeepener.py.py:124-132 | No path of the tree through labels of the row is longer than the one found |
| FlatLabelDeepener.RelabelMeans | DataTools/FlatLabelDeepener.py.py:143-159 | A matched row becomes a longest path of the forest through its labels, from the first tree with one that long; an unmatched row keeps its labels |
| FlatLabelDeepener.Match | DataTools/FlatLabelDeepener.py.py:144-150 | The tree index is -1 exactly when no path is kept; a kept path runs down that tree through the row's labels |
| FlatLabelDeepener.Relabel | DataTools/FlatLabelDeepener.py.py:152-158 | The written labels are among the row's labels, and are all of them when no tree matches |
| FlatLabelDeepener.ChoicesRange | DataTools/FlatLabelDeepener.py.py:145-150 | The tree credited to a row is -1 or a tree index |
| FlatLabelDeepener.Credited | DataTools/FlatLabelDeepener.py.py:155-158 | The credited rows and the unmatched rows add up to the batch size |
| FlatLabelDeepener.CreditedCount | DataTools/FlatLabelDeepener.py.py:155 | Each tree's count among the credited rows is its count among all choices |
| FlatLabelDeepener.CounterMeans | DataTools/FlatLabelDeepener.py.py:154-159 | A Counter filled by `c[x] += 1` holds for each key the number of times it was counted |
| FlatLabelDeepener.Increment | DataTools/FlatLabelDeepener.py.py:154 | `c[x] += 1` turns the Counter of s into the Counter of s + [x] |
| FlatLabelDeepener.RecordRow | DataTools/FlatLabelDeepener.py.py:152-159 | The statistics update for one row keeps the statistics equal to the counts over the rows so far |
| FlatLabelDeepener.CountersMean | DataTools/FlatLabelDeepener.py.py:152-159 | The kept Counters tally the unmatched rows, the written lengths and the rows per tree |
| FlatLabelDeepener.MatchRow | DataTools/FlatLabelDeepener.py.py:144-150 | The tree loop keeps the first tree with the longest path |
| FlatLabelDeepener.ProcessRow | DataTools/FlatLabelDeepener.py.py:143-159 | One row's written labels and credited tree, which is -1 exactly when no path was kept |
| FlatLabelDeepener.ProcessBatch | DataTools/FlatLabelDeepener.py.py:135-161 | process_batch emits one (index, labels) pair per row in batch order, and statistics that tally them |
| FlatLabelDeepener.Merge | DataTools/FlatLabelDeepener.py.py:186-187 | Counter.update adds the counts key by key |
| FlatLabelDeepener.TalliesMerge | DataTools/FlatLabelDeepener.py.py:182-187 | Merging the statistics of two batches tallies the run over both |
| FlatLabelDeepener.SortAndEmitRestoresOrder | DataTools/FlatLabelDeepener.py.py:192-194 | Whatever order the batches return in, sorting by row index emits output line i for input row i |
| FlatLabelDeepener.SortAndEmit | DataTools/FlatLabelDeepener.py.py:192-194 | One output line per collected pair; SortAndEmitRestoresOrder gives their order |
| FlatLabelDeepener.ReconstructLabels | DataTools/FlatLabelDeepener.py.py:163-201 | Every row is rewritten as the batch step says, in input order, and the merged statistics tally the whole input |
| LabelTreeGenerator.ExtendMeans | DataTools/generate_base_label_m2.py:62-76 | A child's set is its parent's plus one attribute above all of the parent's; it is one larger and strictly contains the parent |
| LabelTreeGenerator.ExtendInjective | DataTools/generate_base_label_m2.py:62-76 | Different parents or different rounds never make the same child set |
| LabelTreeGenerator.AddChildUnique | DataTools/generate_base_label_m2.py:75-78 | Adding a child keeps all label sets of the tree pairwise different |
| LabelTreeGenerator.ChildrenDistinct | DataTools/generate_base_label_m2.py:71-80 | A node's children are distinct nodes, none of them the root |
| LabelTreeGenerator.BudgetBound | DataTools/generate_base_label_m2.py:71-79 | With max_groups set, the tree never has more than max_groups nodes |
| LabelTreeGenerator.RootGenerated | DataTools/generate_base_label_m2.py:40-42 | The root {base_attr_start} at depth 1 starts a well-formed tree |
| LabelTreeGenerator.GrowStep | DataTools/generate_base_label_m2.py:71-80 | A round of the branch loop that does not break keeps the tree well formed: linked, distinct sets, depth bounded, within budget |
| LabelTreeGenerator.SaturatedKept | DataTools/generate_base_label_m2.py:71-80 | Nodes whose branch loops have finished stay finished |
| LabelTreeGenerator.BuildRecursive | DataTools/generate_base_label_m2.py:55-80 | _build_recursive lists the node at its depth and grows its subtree. The tree stays well formed, earlier nodes are kept, and every node it reaches has run its loop to the end |
| LabelTreeGenerator.BranchLoop | DataTools/generate_base_label_m2.py:71-81 | The branch loop stops at branch_factor children or at the max_groups break, keeping the tree well formed |
| LabelTreeGenerator.GrowChild | DataTools/generate_base_label_m2.py:75-80 | One round makes the next child of the node, counts it, and grows it in full |
| LabelTreeGenerator.ChildExtendsParent | DataTools/generate_base_label_m2.py:62-80 | In the grown tree, each child strictly contains its parent and adds one attribute above all of the parent's |
| LabelTreeGenerator.AllNodes | DataTools/generate_base_label_m2.py:83-92 | _get_all_nodes lists every node once, root first, shallower before deeper |
| LabelTreeGenerator.BfsDone | DataTools/generate_base_label_m2.py:85-92 | When the deque is empty, every node has been reached in breadth-first order |
| LabelTreeGenerator.TotalWeightBounds | DataTools/generate_base_label_m2.py:114-121 | total_weight is non-negative and at least each node's weight |
| LabelTreeGenerator.ZeroWeightIff | DataTools/generate_base_label_m2.py:113-122 | The normalisation divides by zero exactly when max_depth is 0 |
| LabelTreeGenerator.Chosen | DataTools/generate_base_label_m2.py:142-143 | The clamped index names a node, and is the bisection result when that is in range |
| LabelTreeGenerator.GuaranteeVectors | DataTools/generate_base_label_m2.py:110-111 | Step 1 gives the k-th node of the traversal exactly [k] and changes nothing else |
| LabelTreeGenerator.DistributeRemaining | DataTools/generate_base_label_m2.py:139-146 | Step 3 gives each node its guaranteed id followed by the shuffled ids whose choice names it |
| LabelTreeGenerator.AssignedCovers | DataTools/generate_base_label_m2.py:139-145 | Each remaining id goes to the node its clamped choice names |
| LabelTreeGenerator.AssignedOwner | DataTools/generate_base_label_m2.py:139-145 | No remaining id goes to two nodes |
| LabelTreeGenerator.RemainingIds | DataTools/generate_base_label_m2.py:108 | The remaining ids are len(nodes)..total_vectors-1, each once |
| LabelTreeGenerator.VectorsPartition | DataTools/generate_base_label_m2.py:106-146 | The ids handed out are exactly 0..max(len(nodes), total_vectors)-1, each held by one node, none twice |
| LabelTreeGenerator.AssignmentOwned | DataTools/generate_base_label_m2.py:106-146 | After the assignment the nodes hold each id below max(len(nodes), total_vectors) exactly once, and nothing else |
| LabelTreeGenerator.MapNode | DataTools/generate_base_label_m2.py:153-155 | One node's loop maps its vectors to its set and appends them to its set's list |
| LabelTreeGenerator.VectorLabelMappings | DataTools/generate_base_label_m2.py:150-155 | The mapping loop computes both maps over the traversal |
| LabelTreeGenerator.Grow | DataTools/generate_base_label_m2.py:40-42 | Growing from the root {base_attr_start} at depth 1 leaves a well-formed tree whose every branch loop ran to its end, listed by depth |
| LabelTreeGenerator.AssignVectors | DataTools/generate_base_label_m2.py:94-146 | Only the vectors change; the division by zero happens exactly when max_depth is 0; otherwise the traversal is breadth-first, the node at position k holds k and then the shuffled ids sent to it, and every id is owned once |
| LabelTreeGenerator.Mappings | DataTools/generate_base_label_m2.py:150-155 | On a tree with distinct label sets and no vector held twice, every held vector maps to its node's set, every mapped vector is held, and every node's set lists exactly that node's vectors |
| LabelTreeGenerator.MappingsMean | DataTools/generate_base_label_m2.py:150-155 | Visiting every node once, in any order, gives both mappings that meaning |
| LabelTreeGenerator.VectorLabelsMeans | DataTools/generate_base_label_m2.py:150-155 | vector_to_labels maps exactly the ids held by visited nodes, each to its holder's label set |
| LabelTreeGenerator.LabelVectorsKeys | DataTools/generate_base_label_m2.py:150-155 | label_set_to_vectors has keys only for the label sets of visited nodes |
| LabelTreeGenerator.LabelVectorsMeans | DataTools/generate_base_label_m2.py:150-155 | label_set_to_vectors maps each visited node's set to that node's vectors |
| LabelTreeGenerator.VectorMappingMeans | DataTools/generate_base_label_m2.py:150-155 | After visiting every node once, vector_to_labels[v] is the label set of the node owning v, for every held v and nothing else |
| LabelTreeGenerator.LabelMappingMeans | DataTools/generate_base_label_m2.py:150-155 | After visiting every node once, label_set_to_vectors[S] lists exactly the vectors of the node with set S |
| LabelTreeGenerator.SameTreeGenerated | DataTools/generate_base_label_m2.py:110-146 | Changing only the vector lists keeps the grown tree |
| LabelTreeGenerator.LayerVectorsMeans | DataTools/generate_base_label_m2.py:163-166 | The extended list holds exactly the vectors of the listed nodes |
| LabelTreeGenerator.LayerVectorsAtDepth | DataTools/generate_base_label_m2.py:161-166 | A vector is in the layer's list exactly when a node built at that depth holds it |
| LabelTreeGenerator.ExtendVectors | DataTools/generate_base_label_m2.py:163-166 | The extend loop computes the layer's vector list |
| LabelTreeGenerator.LNGVectorGenerator.constructor | DataTools/generate_base_label_m2.py:15-30 | A new generator keeps its parameters and has empty tables |
| LabelTreeGenerator.LNGVectorGenerator.Build | DataTools/generate_base_label_m2.py:32-53 | ValueError exactly when max_groups is set and total_vectors < max_groups, with nothing changed; otherwise a fully grown tree; a division by zero exactly when max_depth is 0; otherwise the assignment and both mappings as specified |
| LabelTreeGenerator.LNGVectorGenerator.GrowTree | DataTools/generate_base_label_m2.py:37-42 | Growing from the root leaves a well-formed tree whose every branch loop ran to its end, listed by depth |
| LabelTreeGenerator.LNGVectorGenerator.AssignVectorsEvenly | DataTools/generate_base_label_m2.py:94-146 | The tree is unchanged but for the vectors; it fails exactly when max_depth is 0; otherwise the node at traversal position k holds k and its share, and every id is owned once |
| LabelTreeGenerator.LNGVectorGenerator.BuildVectorLabelMappings | DataTools/generate_base_label_m2.py:150-155 | Both mappings agree with the node that owns each vector and the set of each node |
| LabelTreeGenerator.LNGVectorGenerator.GetLayerLabels | DataTools/generate_base_label_m2.py:157-159 | The layer lists, once each, exactly the nodes built at that depth |
| LabelTreeGenerator.LNGVectorGenerator.GetLayerVectors | DataTools/generate_base_label_m2.py:161-166 | A vector is returned exactly when a node built at that depth holds it |

## Left out

- The Vamana graph builder and `iterate_to_fixed_point`, with their distances, pruning and search queues. Their source is not part of this model. A group's search is the parameter `search`, which returns local ids, and a group's local entry point is a parameter of `SetGroupEntryPoints`.
- `build` itself and `build_graph_for_all_groups`: they are calls to the modelled steps plus Vamana. The scenario branch and the `exit(-1)` for an unknown index name are not modelled. The complete graph of small groups is `Query.BuildCompleteGraph`.
- The trie's internals. The trie is a map from label sequence to group id. The superset candidates are the groups whose sets contain the query, taken in ascending group id in place of the trie's own order. The minimum supersets are proved as a set, so they do not depend on that order.
- OpenMP parallel loops and the search-cache pool. Every loop runs sequentially. `Query.SlotsCommute` shows why the order of the per-query writes does not matter.
- Floating point:
  - `coverage_ratio` and `avg_descendants`;
  - distances;
  - timings.
  The hybrid switch compares integer cardinalities, and `Query.UseGlobalSearchThresholds` ties them to the source's 0.8 and `/2.5` over the reals. The rounding of `float` is not modelled.
- Roaring bitmaps and `std::bitset` are Dafny sets. A bitset position must be below 10000001, as `bitset::set` requires.
- The global branch of `search_hybrid`: the global entry points drawn with `rand()` and the global search are not modelled; the post-filter takes the search queue as input.
- The overlap and nofilter branches of `search` and `search_hybrid`. Only the entry groups they use (`get_min_super_sets`) are modelled.
- BipartiteFile.Load: the source does not check its reads, so a short file leaves fields holding whatever was read. The model reports `Truncated` instead. A file that cannot be opened is not modelled.
- UniNav.UniNavGraph.LoadBipartiteGraph: after a short file the model's fields keep their old values, where the source's hold whatever was partly read.
- Descendants.SearchFrom: on a ranked graph whose edges are not minimal supersets, a group can be pushed twice, and the count is then only bounded below by the number of descendants. get_descendants_info only searches the label navigation graph, where the count is exact.
- BipartiteFile.Save: `std::unordered_map` iteration order is a parameter `entries`. `LoadSaved` holds for every order.
- The widths of `IdxType`, `AtrType` and `LabelType` come from a configuration header that is not part of this model. The codec assumes 4, 4 and 2 bytes.
- `covered_sets` is filled from `_group_id_to_vec_ids`, which holds ids from before the reordering (uni_nav_graph.cpp:789-793), while the search works on new ids. The model keeps the source's old ids. Only the cardinality of those sets is read, at :1413, and it is the same under the renumbering.
- LabelTreeGenerator.LNGVectorGenerator.Build: requires a freshly constructed generator. A second `build` on the same object appends to `nodes_by_depth` and both mappings, and that is not modelled.
- LabelTreeGenerator.LNGVectorGenerator.GetLayerLabels: returns node numbers where the source returns the node objects.
- Python iteration order over sets and dicts is taken as ascending label order. `Counter.most_common` is a stable sort by descending count.
- `_assign_vectors_evenly`:
  - The weights, `random.random()` and the bisection are the parameter `pick`, which gives the bisection result for each shuffled id.
  - `random.shuffle` is the parameter `shuffle`.
  - `allocator` is never read and is not modelled.
- Python's recursion limit for deep trees is not modelled.
- Other Python code that is not modelled:
  - `load_labels`, whose parsing is not modelled; the data is the list of label sets;
  - the file writing in `reconstruct_and_save_labels_parallel`, which is not modelled;
  - logging, `tqdm`, and the `multiprocessing` pool, whose batches the model processes one after another;
  - `analyze_tree_structure` and `log_statistics`, which only report;
  - `print_tree`, `save_to_file`, `get_group_stats` and `print_stats`, which only print or write files.
- The query generators and the index `save`/`load`/`statistics` in uni_nav_graph.cpp are file I/O and sampling, not index logic.

## Findings

| source | as written | input that shows it | evidently intended | confidence | as-written member | corrected member |
|---|---|---|---|---|---|---|
| UNG/codes/src/uni_nav_graph.cpp:1079 | `initialize_roaring_bitsets` reads `_lng_descendants[group_id]`, but `get_descendants_info` stores group g at index g-1 (:912-913) | groups 1 and 2 with the edge 1→2: group 1 receives group 2's empty set, and group 2 reads past the end of the two-entry table | read `_lng_descendants[group_id - 1]` | high, not executed | Descendants.DescendantsMisread | Descendants.RoaringBitsets |
| UNG/codes/src/uni_nav_graph.cpp:1618 | a new sampled point `entry_point` is marked visited, but `i + group_range.first` is pushed | group with new ids 0..2, entry point 1, two entry points asked for, first draw 2: pushes [1, 1] and never pushes point 2 | push `entry_point` | high, not executed | Query.EntryPointsGivenGroupAsWrittenRepeats | Query.EntryPointsGivenGroupMeans |
| UNG/codes/src/uni_nav_graph.cpp:1525-1529 | `search_hybrid` moves on to the next query when there are no entry points, without writing that query's K result slots | one query, K = 1, no entry points, slot holding 7 beforehand: the slot keeps 7, where `search` writes -1 (:1293-1299) | write -1 to every slot, as `search` does | high, not executed | Query.HybridSlotsAsWrittenStale | Query.SearchSlotsEmpty |
| UNG/codes/src/uni_nav_graph.cpp:621-636 | `compare_graphs` checks that every pair of g1's `_id_to_attr` is in g2's, but not that the two have the same size, as it does for `_attr_to_id` (:599-603) | two empty graphs, the second with an extra reverse pair 0→0: they compare equal | compare the reverse maps' sizes too | medium, not executed | BipartiteFile.CompareGraphsAsWrittenExtraId | BipartiteFile.CompareGraphs |
