# Animesh surfel-graph core, modelled in Dafny

Animesh turns a sequence of depth frames into a graph of *surfels*. A surfel is a surface element seen in one or more frames. The system then optimises an orientation field (RoSy) and a position field (PoSy) over that graph, and from the result extracts a quad-dominant mesh. This project models the discrete core of that pipeline as pure Dafny functions and proves properties about it:

| module | models |
|---|---|
| `Graph`, `GraphAdjacency`, `Path`, `CycleExtractor`, `GraphNodeSimplifier` | the generic graph library: nodes, directed or undirected edges, neighbours, the adjacency multimaps behind them, paths, cycle canonicalisation, and the collapse of node pairs |
| `VoteCounter` | the tally of votes and the pick of a winner, with ties passed to a tie breaker |
| `Surfel`, `SurfelGraphEdge`, `SurfelGraph`, `PixelAdjacency` | surfels and the builder, the per-edge orientation (`k`) and position (`t`) labels, graph frame queries, and pixel and surfel adjacency |
| `Hierarchy`, `MultiResolution` | how a coarser level is linked to a finer one (parent pixels, pruning of orphans) and how the multi-resolution stack is built by pairwise merging |
| `Shuffling`, `NodeOptimiser`, `AbstractOptimiser`, `MultiResolutionOptimiser`, `FieldOptimiser` | selection of the surfels to optimise, the termination criteria and the state machine of the optimisers, and the per-level driver |
| `BinaryIo`, `SurfelIo`, `SurfelLoad` | the binary stream primitives and the surfel graph file: save, load, and the edges generated when a file has none |
| `PlyFile`, `ObjFile`, `Text` | the PLY header parser, the OBJ reader and its adjacency, and the string splitting they use |
| `CorrPaths` | how the correspondence tool chains correspondences between consecutive frames into paths, and the text it writes |
| `Quad` | the building of the red/blue quad edge graph of one frame, and the choice of edges `collapse` merges along |
| `ViewerConstants` | the vertex layout constants of the Java viewer |

`Wrappers` gives `Option` and `Result`. `FixedWidth` gives the subset types for the source's machine integers. `Sequences` holds the sequence helpers shared by the modules.

Conventions:

- A node handle is a `nat`, and every pointer comparison in the source is a comparison of handles. A graph keeps its nodes in a map and its edges in the order they were added. The neighbours of one node come out of the adjacency multimaps in that order, as in the source. The source's `edges()` instead walks a `std::map` keyed by pointer pairs, whose order depends on allocation addresses. The operations that walk `edges()` are listed under "Left out".
- Thrown exceptions become `Failure` values of a per-module error type. So does a read past the end of a `std::vector` through `operator[]`, which C++ leaves undefined: `MultiResolutionOptimiser.SetData`, `PlyFile.ParsePropertyAsWritten`, `ObjFile.CornerAsWritten` and `FieldOptimiser.EdgeFrameAsWritten` report it as an out-of-range error. `assert`s are compiled out, as in a release (`NDEBUG`) build, so the model follows the code past them.
- Randomness, the clock and every floating point computation are parameters of the functions that need them. This covers shuffles, random ids, random tangents, the field smoothing step and the convergence measures.
- Reading an `std::string` one past its end yields `'\0'`. That behaviour is modelled where the source relies on it.
- A member named `...AsWritten` models code whose behaviour departs from what its own messages, names or writer evidently intend. The rest of the model uses the corrected member. The section "Findings" pairs each one with the lemma that exhibits the difference.

Where the description of the system and its code disagree, the model follows the code:

- `FieldOptimiser::label_edge` reports both failures under one message.
- `NodeOptimiser::setup_ssa` has a case for a selection algorithm the header's enum does not declare.
- In `Surfel_IO.cpp` the flag word is written only when a flag is set.
- `PlyFileParser` accepts scalar property lines of five tokens.

## Model

| member | source | states |
|---|---|---|
| Text.Split | src/libGeomFileUtils/src/io_utils.cpp:154-168 | split yields the delimiter-free fields between delimiters; an empty line has no fields |
| Text.JoinSplit | src/libGeomFileUtils/src/io_utils.cpp:154-168 | splitting loses nothing but a final delimiter: joining the fields gives the line back |
| Text.SplitJoin | src/libGeomFileUtils/src/io_utils.cpp:154-168 | non-empty, delimiter-free fields split back out of their join |
| Text.SplitTrailing | src/libGeomFileUtils/src/io_utils.cpp:154-168 | a delimiter at the end of a line adds no field, unless the line is only that delimiter |
| Text.Pieces | src/libOptimise/src/AbstractOptimiser.cpp:37-40 | reading fields while the stream stays good always yields at least one, each free of the delimiter |
| Text.JoinPieces | src/libOptimise/src/AbstractOptimiser.cpp:37-40 | those fields joined with the delimiter give the property back, whatever it is |
| Text.Stoi | src/libGeomFileUtils/src/ObjFileParser.cpp:61 | stoi skips leading white space, fails with an invalid argument exactly when no digits follow the optional sign after it, and every value it returns fits a 32-bit int |
| Text.SignedPrefix | src/libGeomFileUtils/src/ObjFileParser.cpp:61 | after the white space, stoi fails with an invalid argument exactly when no digit follows the optional sign, and every value it returns fits a 32-bit int |
| Text.StoiSkipsSpace | src/libGeomFileUtils/src/ObjFileParser.cpp:61 | white space in front of a token does not change what stoi reads from it |
| Text.SpaceRun | src/libGeomFileUtils/src/ObjFileParser.cpp:61 | the white space stoi skips is the longest leading run of isspace characters |
| Text.StoiOfNatToString | src/libGeomFileUtils/src/ObjFileParser.cpp:61 | stoi reads back the decimal text of every non-negative int |
| Sequences.RotateStep | src/libGraph/include/Graph/CycleExtractor.h:115 | rotating left by one more place is one more application of the single-place rotate |
| Sequences.RotateIndex | src/libGraph/include/Graph/CycleExtractor.h:110-127 | element i of a rotation by k is element (k + i) mod n of the original |
| Sequences.LexLessIrreflexive | src/libSurfel/src/MultiResolutionSurfelGraph.cpp:14-20 | no id string is less than itself |
| Sequences.LexLessTransitive | src/libSurfel/src/MultiResolutionSurfelGraph.cpp:14-20 | string order is transitive |
| Sequences.LexLessTotal | src/libSurfel/src/MultiResolutionSurfelGraph.cpp:14-20 | any two different id strings are ordered one way or the other |
| Graph.Empty | src/libGraph/include/Graph/Graph.h:88-90 | a new graph has the requested directedness, no nodes and no edges, and satisfies the container invariant |
| Graph.AddNode | src/libGraph/include/Graph/Graph.h:105-118 | `add_node(data)` adds one fresh node carrying the data, leaves the edges alone and keeps the invariant |
| Graph.AddExistingNode | src/libGraph/include/Graph/Graph.h:115-118 | adding a node object fails exactly when it is already present; otherwise that node is added and nothing else changes |
| Graph.AddEdge | src/libGraph/include/Graph/Graph.h:166-176 | `add_edge` succeeds exactly when both ends are present and `has_edge` is false, failing with the first missing end or the existing link; on success one edge is appended and nodes are unchanged |
| Graph.AddEdgeKeepsValid | src/libGraph/include/Graph/Graph.h:166-176 | a successful `add_edge` keeps the container invariant (ends present, no duplicate link) |
| Graph.RemoveNode | src/libGraph/include/Graph/Graph.h:123-161 | `remove_node` fails for a missing node; otherwise the node goes, every edge touching it goes, and every other edge stays; this is the intended removal: the multimaps as written keep stale entries for the node (see Findings) |
| Graph.RemoveNodeKeepsValid | src/libGraph/include/Graph/Graph.h:123-161 | removing a node keeps the container invariant |
| Graph.DropIncidentKeepsNoDuplicates | src/libGraph/include/Graph/Graph.h:127-158 | dropping the edges incident to a node never introduces a duplicate link |
| Graph.Neighbours | src/libGraph/include/Graph/Graph.h:516-536 | `neighbours` fails for a missing node; otherwise it lists exactly the ends reachable over one edge, forwards only when directed and both ways when undirected |
| Graph.EdgeData | src/libGraph/include/Graph/Graph.h:492-501 | `edge(a, b)` fails exactly when `has_edge(a, b)` is false; otherwise it returns the data of the (a, b) edge, or in an undirected graph that of the (b, a) edge |
| Graph.HasEdgeSameLink | src/libGraph/include/Graph/Graph.h:586-599 | `has_edge(a, b)` holds exactly when some stored edge is the same link as an edge from a to b: the same orientation in a directed graph, either orientation in an undirected one |
| Graph.AddEdgeMakesNeighbours | src/libGraph/include/Graph/Graph.h:166-176 | after `add_edge(a, b)`, `b` is a neighbour of `a`, and in an undirected graph `a` is a neighbour of `b` |
| Graph.TargetsDistinct | src/libGraph/include/Graph/Graph.h:519-526 | without duplicate links the forward adjacency lists no target twice |
| Graph.SourcesDistinct | src/libGraph/include/Graph/Graph.h:529-533 | without duplicate links the reverse adjacency lists no source twice |
| Graph.NeighboursRepeatOnlySelf | src/libGraph/include/Graph/Graph.h:516-536 | in a valid graph the only node `neighbours` can list twice is the node itself, through a self loop of an undirected graph |
| GraphAdjacency.ValuesOf | src/libGraph/include/Graph/Graph.h:519-526 | the values an `equal_range` walk yields for a key are exactly those stored under it, none when the key is absent |
| GraphAdjacency.AdjacencyOf | src/libGraph/include/Graph/Graph.h:166-176 | adding the graph's edges in order leaves one forward and one reverse entry per edge and the graph's directedness |
| GraphAdjacency.NeighboursOf | src/libGraph/include/Graph/Graph.h:516-536 | `neighbours` lists exactly the forward values of the node and, in an undirected graph, its inbound values |
| GraphAdjacency.EraseFirst | src/libGraph/include/Graph/Graph.h:133-139 | the tidying loop erases one entry with the key and value when there is one and otherwise changes nothing, adding nothing |
| GraphAdjacency.EraseFirstKeepsOthers | src/libGraph/include/Graph/Graph.h:133-139 | erasing one entry keeps every entry different from it |
| GraphAdjacency.Unlink | src/libGraph/include/Graph/Graph.h:130-155 | tidying the other ends adds no entry and keeps every entry whose value is not the removed node |
| GraphAdjacency.DropKey | src/libGraph/include/Graph/Graph.h:141-158 | erasing a key's range keeps exactly the entries under other keys |
| GraphAdjacency.DropKeyKeepsOtherValues | src/libGraph/include/Graph/Graph.h:141-158 | erasing one key's range leaves every other key's values, in order, as they were |
| GraphAdjacency.RemoveNodeAsWritten | src/libGraph/include/Graph/Graph.h:123-161 | as written: the range erases act on iterators the loops have already advanced to the end, so every forward entry of the removed node to another node survives |
| GraphAdjacency.RemoveNode | src/libGraph/include/Graph/Graph.h:123-161 | corrected: the node's own ranges are erased as well, so no entry keyed by the removed node remains in either multimap |
| GraphAdjacency.RemoveNodeForgetsOnlyNode | src/libGraph/include/Graph/Graph.h:123-161 | after the corrected removal the node has no neighbours, and every other node has the neighbours the as-written removal leaves it |
| GraphAdjacency.UnlinkCount | src/libGraph/include/Graph/Graph.h:132-139 | a tidying loop that visits a key leaves no entry of that key naming the removed node, when there was at most one such entry |
| GraphAdjacency.TidiedEntries | src/libGraph/include/Graph/Graph.h:128-158 | for every other node, the corrected removal keeps exactly its forward entries to stored targets other than the removed node, and exactly its reverse entries from stored sources other than the removed node |
| GraphAdjacency.RemoveNodeTidiesOthers | src/libGraph/include/Graph/Graph.h:120-161 | for every other node of a valid graph, the corrected multimaps list exactly the neighbours `Graph.RemoveNode` leaves it: the incident edges are gone on both sides |
| GraphAdjacency.ForwardValues | src/libGraph/include/Graph/Graph.h:519-526 | the forward multimap's values for a node are the targets of its edges in insertion order |
| GraphAdjacency.ReverseValues | src/libGraph/include/Graph/Graph.h:529-533 | the reverse multimap's values for a node are the sources of its edges in insertion order |
| GraphAdjacency.AdjacencyNeighbours | src/libGraph/include/Graph/Graph.h:516-536 | for a present node the multimaps give the same neighbours, in the same order, as the graph model's `Graph.Neighbours` |
| GraphAdjacency.ReaddedNodeHasNoNeighbours | src/libGraph/include/Graph/Graph.h:115-161 | in a valid graph a removed node re-added has no neighbours in the graph model, and the corrected multimaps list none for it either |
| GraphAdjacency.StaleNeighbours | src/libGraph/include/Graph/Graph.h:123-161 | for the undirected graph with the single edge 0-1, the as-written removal of 0 leaves 1 listed as its neighbour while the corrected removal and the graph model list none |
| Path.Extend | src/libGraph/src/Path.cpp:26-30 | the two-argument constructor copies the path and its direction flag and appends the new node at the end; the result is a cycle exactly when the new node is the first node |
| Path.IsCycle | src/libGraph/src/Path.cpp:63-65 | a cycle ends where it starts, so its first node comes back later in the path unless the path is that one node, and a one-node path is a cycle |
| Path.Contains | src/libGraph/src/Path.cpp:84-88 | `contains` is true exactly when the index occurs in the path |
| Path.IsEquivalentTo | src/libGraph/src/Path.cpp:94-135 | paths of different lengths, or whose first node the other lacks, are not equivalent; an equivalent path is a rotation (or, undirected, a reversed rotation); and for a path of distinct nodes every such rotation is recognised |
| Path.WalkMatches | src/libGraph/src/Path.cpp:126-134 | the comparison loop answers true exactly when walking the other path from the found index in the chosen direction, wrapping modulo the length, meets every node of this path in order |
| Path.CompleteStart | src/libGraph/src/Path.cpp:103-125 | for distinct nodes, the first occurrence of my first node is the matching offset and the second-node test picks a direction that matches |
| Path.Canonicalise | src/libGraph/src/Path.cpp:140-155 | `canonicalise` returns the rotation starting at the first occurrence of the smallest index: same length, smallest node first |
| Path.CanonicaliseIdempotent | src/libGraph/src/Path.cpp:140-155 | canonicalising a canonical path changes nothing |
| CycleExtractor.CycleExists | src/libGraph/include/Graph/CycleExtractor.h:103-128 | `cycle_exists` is true exactly when some left rotation of the cycle, or of its reversal, is already recorded |
| CycleExtractor.NoRotationKnown | src/libGraph/include/Graph/CycleExtractor.h:110-127 | when none of the rotations either loop tries is recorded, the cycle is not known up to rotation |
| CycleExtractor.FilterEligible | src/libGraph/include/Graph/CycleExtractor.h:145-163 | a neighbour is kept exactly when its edge from the last node is untraversed and it is off the path, or is the front of a path that is not two nodes long |
| CycleExtractor.ConsecutivePairs | src/libGraph/include/Graph/CycleExtractor.h:226-233 | the pairs the marking loop visits are exactly the consecutive pairs of the path |
| CycleExtractor.MarkEdgesUsed | src/libGraph/include/Graph/CycleExtractor.h:222-234 | `mark_edges_used` adds exactly the path's consecutive pairs and its closing (back, front) pair to the traversed set |
| CycleExtractor.EdgesAreUsed | src/libGraph/include/Graph/CycleExtractor.h:198-219 | `edges_are_used` is true exactly when the closing pair or some consecutive pair is already traversed |
| CycleExtractor.AnyConsecutiveIn | src/libGraph/include/Graph/CycleExtractor.h:208-217 | the scanning loop finds a traversed pair exactly when some consecutive pair of the path is traversed |
| CycleExtractor.MarkedPathIsUsed | src/libGraph/include/Graph/CycleExtractor.h:198-234 | once a cycle's edges are marked, `edges_are_used` reports it as used |
| CycleExtractor.ClosedCycleCannotCloseAgain | src/libGraph/include/Graph/CycleExtractor.h:76-83 | after a cycle closed by `node` is recorded and marked, `can_close_cycle` rejects the same path and node (its closing edge is traversed) |
| CycleExtractor.FirstLeast | src/libGraph/include/Graph/CycleExtractor.h:245-250 | the first loop of `canonicalise_path` finds the first index of least node data |
| CycleExtractor.WalkAround | src/libGraph/include/Graph/CycleExtractor.h:256-266 | the second loop steps from the start by the increment, wrapping at both ends, and yields one element per path node |
| CycleExtractor.CanonicalisePath | src/libGraph/include/Graph/CycleExtractor.h:241-269 | `canonicalise_path` returns a rotation of the path or of its reversal that starts at a least-data node and moves towards the smaller of its two neighbours |
| CycleExtractor.EligibleNextNodes | src/libGraph/include/Graph/CycleExtractor.h:137-164 | fails exactly when the path's last node is not in the graph; otherwise lists exactly the nodes an edge reaches from the last node that are eligible: edge untraversed, and off the path or the front of a path longer than two |
| CycleExtractor.CanCloseCycle | src/libGraph/include/Graph/CycleExtractor.h:167-193 | a path of at least two nodes can be closed by `node` exactly when some stored edge joins `node` and the front, in either orientation and whatever the graph's direction, and (node, front) is untraversed |
| GraphNodeSimplifier.NeighboursOf | src/libGraph/include/Graph/GraphNodeSimplifier.h:26-40 | `neighbours_of` a list fails at the first source missing from the graph; otherwise it is exactly the nodes one edge from some source that are not sources themselves |
| GraphNodeSimplifier.NeighboursFrom | src/libGraph/include/Graph/GraphNodeSimplifier.h:31-38 | the loop over the sources from index `i` on collects exactly the non-source nodes one edge from those sources, failing at the first missing one |
| GraphNodeSimplifier.NeighboursOfSet | src/libGraph/include/Graph/GraphNodeSimplifier.h:42-57 | the set overload fails exactly when a source is missing and otherwise gives the same neighbours as the list overload |
| GraphNodeSimplifier.SecondNeighboursOf | src/libGraph/include/Graph/GraphNodeSimplifier.h:59-66 | `second_neighbours_of` fails for a missing node; otherwise it is exactly the nodes two steps away that are neither the node nor a direct neighbour |
| GraphNodeSimplifier.DataOf | src/libGraph/include/Graph/GraphNodeSimplifier.h:78-79 | the merge function is given the data of the neighbours then the node, in that order |
| GraphNodeSimplifier.AddEdgesFrom | src/libGraph/include/Graph/GraphNodeSimplifier.h:83-86 | adding an edge to each second neighbour appends exactly that fan of edges and leaves the nodes alone; it cannot fail when the targets are fresh, distinct nodes |
| GraphNodeSimplifier.AddEdgesFromKeepsValid | src/libGraph/include/Graph/GraphNodeSimplifier.h:83-86 | the added fan keeps the graph invariant |
| GraphNodeSimplifier.RemoveAll | src/libGraph/include/Graph/GraphNodeSimplifier.h:89-92 | removing each listed node succeeds exactly when the list is repeat-free and all present; the survivors keep their data and exactly the edges touching no removed node stay |
| GraphNodeSimplifier.RemoveAllKeepsValid | src/libGraph/include/Graph/GraphNodeSimplifier.h:89-92 | the removals keep the graph invariant |
| GraphNodeSimplifier.GroupRemoval | src/libGraph/include/Graph/GraphNodeSimplifier.h:74-92 | removing the node and its neighbours succeeds exactly when the node has no self loop; with one, the node comes up twice and its second removal fails |
| GraphNodeSimplifier.FanSucceeds | src/libGraph/include/Graph/GraphNodeSimplifier.h:80-86 | the edges from the freshly added merged node to the second neighbours can all be added |
| GraphNodeSimplifier.CollapsedEdges | src/libGraph/include/Graph/GraphNodeSimplifier.h:83-92 | after the fan and the removals, the new node links to exactly the second neighbours, nothing links into it, and every other edge is an original edge away from the removed group, all of which survive |
| GraphNodeSimplifier.CollapseFacts | src/libGraph/include/Graph/GraphNodeSimplifier.h:68-93 | a successful `collapse_node` removes the node and its neighbours (node last), adds one node carrying their merged data, and links it to exactly the second neighbours |
| GraphNodeSimplifierExample.CollapseOutcome | src/libGraph/include/Graph/GraphNodeSimplifier.h:68-93 | after a successful `collapse_node` the node count drops by the removed nodes less one, links stay duplicate-free, every edge is an untouched original or leaves the new node, and the new node's targets are the second neighbours |
| GraphNodeSimplifierExample.CollapseEdgeCount | src/libGraph/include/Graph/GraphNodeSimplifier.h:83-92 | when every edge touches the collapsed group, exactly one edge per second neighbour is left |
| GraphNodeSimplifierExample.ChainSecondNeighbours | src/libGraph/tests/TestGraphNodeSimplifier.cpp:166-176 | on the chain a-b-c-d-e the second neighbours of c are a and e |
| GraphNodeSimplifierExample.CollapseMiddleOfChain | src/libGraph/tests/TestGraphNodeSimplifier.cpp:203-218 | collapsing c in the chain removes three nodes and leaves four nodes, among them the merged "dbc", and two edges |
| GraphNodeSimplifier.CollapseNode | src/libGraph/include/Graph/GraphNodeSimplifier.h:68-93 | `collapse_node` fails exactly when the node is missing or has a self loop; otherwise it reports the neighbours then the node as removed, and the graph holds one new node with their merged data linked to exactly the second neighbours, with every other node and edge kept |
| VoteCounter.Empty | src/libVote/include/Vote/VoteCounter.h:15 | a new counter holds no votes and is a well-formed ordered map |
| VoteCounter.Insert | src/libVote/include/Vote/VoteCounter.h:16-22 | one more vote for `c` (a first vote creates its entry); every other candidate's count is unchanged and the key set grows by at most `c` |
| VoteCounter.InsertKeepsOrder | src/libVote/include/Vote/VoteCounter.h:16-22 | inserting keeps the map's keys strictly ascending |
| VoteCounter.CastVote | src/libVote/include/Vote/VoteCounter.h:16-22 | `cast_vote` raises `c`'s count by one, leaves every other count alone and keeps the map well formed |
| VoteCounter.MaxVotes | src/libVote/include/Vote/VoteCounter.h:31-41 | the largest count bounds every entry and, for a non-empty map, is held by some entry |
| VoteCounter.WithVotes | src/libVote/include/Vote/VoteCounter.h:31-41 | the candidates holding exactly `n` votes, in map order |
| VoteCounter.ScanFindsLeaders | src/libVote/include/Vote/VoteCounter.h:31-41 | the winner loop ends with the largest count and exactly the candidates that hold it, in map order |
| VoteCounter.Winner | src/libVote/include/Vote/VoteCounter.h:24-47 | `winner` fails with "No votes cast." exactly when no vote was cast; a sole leader wins without the tie breaker; otherwise the tie breaker receives the two or more tied leaders in map order |
| VoteCounter.LeadersSole | src/libVote/include/Vote/VoteCounter.h:42-44 | a single listed leader is exactly a candidate with strictly more votes than every other |
| VoteCounter.CountsWithinMax | src/libVote/include/Vote/VoteCounter.h:31-41 | every candidate's count is at most the largest, and a stored candidate's count is its entry's |
| VoteCounter.LeadersDistinct | src/libVote/include/Vote/VoteCounter.h:31-41 | the tie breaker never receives a candidate twice |
| VoteCounter.ClearWinner | src/libVote/tests/TestVoteCounter.cpp:44-56 | two votes for "a" against one for "b" make "a" the winner |
| VoteCounter.TieGoesToTieBreaker | src/libVote/tests/TestVoteCounter.cpp:58-80 | a two-two tie hands ["a", "b"] to the tie breaker |
| VoteCounter.CastAll | src/libVote/include/Vote/VoteCounter.h:16-22 | casting a run of votes keeps the tally's entries ordered, distinct and positive |
| VoteCounter.SingleLeaderIsSole | src/libVote/include/Vote/VoteCounter.h:42-44 | when exactly one candidate has the most votes, every other candidate has fewer |
| VoteCounter.SoleIsSingleLeader | src/libVote/include/Vote/VoteCounter.h:42-44 | a candidate with more votes than every other is the only leader listed |
| SurfelGraphEdge.NewEdge | src/libSurfel/include/Surfel/SurfelGraph.h:18-20 | a new edge keeps its weight and starts with no rotation or displacement labels |
| SurfelGraphEdge.Grow | src/libSurfel/include/Surfel/SurfelGraph.h:23-26 | growing a store to reach an index keeps every old entry, and each new slot holds the value the fill gives for its position |
| SurfelGraphEdge.K | src/libSurfel/include/Surfel/SurfelGraph.h:22-36 | `k_ij`/`k_ji` return the stored index, or 0 beyond the end after growing the store; no label anyone can read changes and the other stores are untouched |
| SurfelGraphEdge.T | src/libSurfel/include/Surfel/SurfelGraph.h:62-76 | `t_ij`/`t_ji` return the stored displacement, or (0, 0) beyond the end; growing the store sets only the slot read to (0, 0), the slots grown below it hold whatever the resize left, and stored slots and the other stores are unchanged |
| SurfelGraphEdge.SetK | src/libSurfel/include/Surfel/SurfelGraph.h:48-60 | `set_k_ij`/`set_k_ji` store the value narrowed to an unsigned short at the frame, growing the store if needed, and change no other label |
| SurfelGraphEdge.SetT | src/libSurfel/include/Surfel/SurfelGraph.h:78-90 | `set_t_ij`/`set_t_ji` store the displacement at the frame; other stored slots and stores are unchanged, and slots grown below the frame hold whatever the resize left |
| SurfelGraphEdge.KValues | src/libSurfel/include/Surfel/SurfelGraph.h:38-41 | `k_values` counts the ij store: reading a frame below it changes nothing, every frame at or beyond it reads 0, and, when the ji store has the length the assertion demands, on that side too |
| SurfelGraphEdge.TValues | src/libSurfel/include/Surfel/SurfelGraph.h:43-46 | `t_values` counts the ij store: reading a frame below it changes nothing, every frame at or beyond it reads (0, 0), and, when the ji store has the length the assertion demands, on that side too |
| SurfelGraphEdge.LoneReadCounts | src/libSurfel/include/Surfel/SurfelGraph.h:22-46 | after a lone `k_ij(5)` or `t_ij(5)` on a new edge, `k_values` or `t_values` is 6 while the ji store is still empty, the case the assertions exclude |
| SurfelGraphEdge.SetThenGetK | src/libSurfel/include/Surfel/SurfelGraph.h:22-60 | reading a rotation index back after writing it gives the narrowed value at that frame and the old value elsewhere |
| SurfelGraphEdge.SetThenGetT | src/libSurfel/include/Surfel/SurfelGraph.h:62-90 | reading a displacement back after writing it gives the written value at that frame, the old value at frames already stored or beyond the written one, and whatever the resize left at the frames the write grew over |
| SurfelGraphEdge.ReadsCommute | src/libSurfel/include/Surfel/SurfelGraph.h:22-76 | a rotation read never changes a later read; a displacement read changes later reads exactly at the frames its growth passed over, which then read whatever the resize left |
| SurfelGraphEdge.NarrowingKeepsShorts | src/libSurfel/include/Surfel/SurfelGraph.h:48-53 | a value that fits an unsigned short is stored unchanged, and 65536 wraps to 0 |
| Surfel.FramesOf | src/libSurfel/src/Surfel.cpp:40-43 | the frame list is each record's frame, in record order |
| Surfel.NewSurfel | src/libSurfel/src/Surfel.cpp:28-44 | the constructor keeps id, frame data, tangent and offset, lists the frames in record order, and starts with RoSy smoothness 45*45 and no corrections |
| Surfel.IsInFrame | src/libSurfel/src/Surfel.cpp:49-54 | `is_in_frame` holds exactly when some frame-data record is for the frame |
| Surfel.InFrameIffListed | src/libSurfel/src/Surfel.cpp:28-54 | a constructed surfel is in exactly the frames it lists |
| Surfel.FirstForFrame | src/libSurfel/src/Surfel.cpp:58-62 | the loop stops at the first record for the frame, or runs past the end when there is none |
| Surfel.FrameDataForFrame | src/libSurfel/src/Surfel.cpp:56-64 | `frame_data_for_frame` returns the first record for the frame, and fails, naming surfel and frame, exactly when the surfel is not in it |
| Surfel.Reset | src/libSurfel/src/SurfelBuilder.cpp:21-27 | `reset` forgets every value set and every frame added |
| Surfel.WithId | src/libSurfel/src/SurfelBuilder.cpp:29-33 | `with_id` sets the id and changes nothing else |
| Surfel.WithTangent | src/libSurfel/src/SurfelBuilder.cpp:35-41 | `with_tangent` sets the tangent and changes nothing else |
| Surfel.WithOffset | src/libSurfel/src/SurfelBuilder.cpp:47-51 | `with_reference_lattice_offset` sets the offset and changes nothing else |
| Surfel.WithFrame | src/libSurfel/src/SurfelBuilder.cpp:57-60 | `with_frame` appends one record after those already added |
| Surfel.RandomId | src/libSurfel/src/SurfelBuilder.cpp:99-114 | the generated id is one lower-case hex digit per draw, in draw order, each standing for its draw |
| Surfel.Build | src/libSurfel/src/SurfelBuilder.cpp:136-153 | `build` uses every value that was set, a random one for each that was not, and the frames added or else the single default frame, and starts, as the constructor does, with RoSy smoothness 45*45, no RoSy correction and PoSy smoothness 0 |
| Surfel.BuildWithoutFrames | src/libSurfel/src/SurfelBuilder.cpp:116-123 | a surfel built without frames is in frame 0 and no other |
| Surfel.BuildAfterReset | src/libSurfel/src/SurfelBuilder.cpp:21-27 | frames added after a reset come out in call order, and the id is generated afresh |
| Surfel.RandomIdReadsBack | src/libSurfel/src/SurfelBuilder.cpp:102-111 | reading the generated id's digits back gives the draws |
| Surfel.InFrameAt | src/libSurfel/src/Surfel.cpp:49-54 | a surfel is in a frame exactly when one of its frame data lies in that frame |
| SurfelGraph.KeepInFrame | src/libSurfel/src/SurfelGraph.cpp:12-16 | the filter keeps exactly the listed nodes whose surfel is in the frame, in list order |
| SurfelGraph.KeepInFrameAppend | src/libSurfel/src/SurfelGraph.cpp:12-16 | filtering a concatenation is concatenating the filtered parts, so the kept nodes keep their order |
| SurfelGraph.KeepInFrameAll | src/libSurfel/src/SurfelGraph.cpp:12-16 | when every node is in the frame, nothing is dropped |
| SurfelGraph.NeighboursInFrame | src/libSurfel/src/SurfelGraph.cpp:6-18 | `get_node_neighbours_in_frame` fails for a missing node; otherwise it is the node's neighbours, in neighbour order, restricted to those whose surfel is in the frame |
| SurfelGraph.NeighboursInFrameOrder | src/libSurfel/src/SurfelGraph.cpp:6-18 | in an undirected graph the in-frame neighbours are the in-frame forward targets followed by the in-frame inbound sources |
| SurfelGraph.MaxFrame | src/libSurfel/src/SurfelGraph.cpp:27-34 | the scan's maximum bounds every frame any record mentions and is either 0 or one of them |
| SurfelGraph.NumFrames | src/libSurfel/src/SurfelGraph.cpp:24-36 | `get_num_frames` is an `unsigned int`: while every frame index is below 2^32 - 1 it is one more than the largest frame any surfel of the graph is in, so at least 1; with indices below 2^32 it wraps to 0 exactly when some frame index is 2^32 - 1 |
| SurfelGraph.OnlyFrameZero | src/libSurfel/src/SurfelGraph.cpp:24-36 | a graph whose surfels all hold only the default frame spans one frame |
| PixelAdjacency.PixelsAreNeighbours | src/libSurfel/src/Surfel_Compute.cpp:46-59 | pixels in different frames, or the same pixel twice, are never neighbours |
| PixelAdjacency.NeighboursAtDistanceOne | src/libSurfel/src/Surfel_Compute.cpp:46-59 | pixels are neighbours exactly when they share a frame and lie at chessboard distance one (8-connected) or city-block distance one (4-connected) |
| PixelAdjacency.PixelNeighboursSymmetric | src/libSurfel/src/Surfel_Compute.cpp:50-58 | pixel adjacency does not depend on the order of the pixels |
| PixelAdjacency.FourConnectedIsEightConnected | src/libSurfel/src/Surfel_Compute.cpp:56-58 | every 4-connected neighbour is an 8-connected one |
| PixelAdjacency.SurfelWalk | src/libSurfel/src/Surfel_Compute.cpp:74-92 | the merge walk answers yes only when some record of each list shares a frame and has adjacent pixels |
| PixelAdjacency.SurfelsAreNeighbours | src/libSurfel/src/Surfel_Compute.cpp:70-93 | surfels are neighbours only when some shared frame holds adjacent pixels of both |
| PixelAdjacency.SurfelWalkComplete | src/libSurfel/src/Surfel_Compute.cpp:74-92 | with one record per frame in frame order, the walk finds every adjacent pair in a shared frame |
| PixelAdjacency.SurfelNeighboursExactly | src/libSurfel/src/Surfel_Compute.cpp:70-93 | for frame-sorted surfels, neighbourhood is exactly a shared frame with adjacent pixels |
| PixelAdjacency.SurfelNeighboursSymmetric | src/libSurfel/src/Surfel_Compute.cpp:70-93 | for frame-sorted surfels the test is symmetric |
| SurfelGraph.MaxFrameIn | src/libSurfel/src/SurfelGraph.cpp:27-34 | the result bounds every frame of the frame data and is one of them, or 0 |
| SurfelGraph.Surfels | src/libSurfel/src/SurfelGraph.cpp:27-34 | the surfels visited are exactly the data of the graph's nodes |
| SurfelGraph.MaxFrameOfGraph | src/libSurfel/src/SurfelGraph.cpp:24-36 | the largest frame bounds every frame stored in any surfel of the graph and is one of them, or 0 |
| Hierarchy.ParentPif | src/libRoSy/src/HierarchicalRoSyOptimiser.cpp:86-88 | the parent pixel is in the same frame and is the coarse pixel whose 2x2 block of fine pixels contains the child pixel |
| Hierarchy.ParentOfBlock | src/libRoSy/src/HierarchicalRoSyOptimiser.cpp:86-88 | a coarse pixel is the parent of exactly the four fine pixels of its 2x2 block, in the same frame |
| Hierarchy.EmplaceRecords | src/libRoSy/src/HierarchicalRoSyOptimiser.cpp:111-113 | emplacing a node's pixels adds every pixel it is seen at, and a pixel already mapped keeps its node |
| Hierarchy.PifMapOf | src/libRoSy/src/HierarchicalRoSyOptimiser.cpp:105-116 | the map holds every pixel some visited node is seen at, each mapped to the first visited node seen there |
| Hierarchy.PifToNode | src/libRoSy/src/HierarchicalRoSyOptimiser.cpp:105-116 | a pixel is a key iff some surfel of the level is seen there; its node is seen there, and no node seen there has a smaller handle (first in visiting order wins) |
| Hierarchy.ParentsOf | src/libRoSy/src/HierarchicalRoSyOptimiser.cpp:84-94 | at most one parent per record; no parent at all iff no record's parent pixel is mapped; every parent found owns the parent pixel of one of the child's records |
| Hierarchy.ParentsOfAppend | src/libRoSy/src/HierarchicalRoSyOptimiser.cpp:85-94 | parents are found record by record, in record order |
| Hierarchy.ParentsOfAllFound | src/libRoSy/src/HierarchicalRoSyOptimiser.cpp:89-93 | when every record finds a parent there is exactly one entry per record, each the owner of that record's parent pixel |
| Hierarchy.Recorded | src/libRoSy/src/HierarchicalRoSyOptimiser.cpp:82-91 | the multimap range of a child holds y exactly when the entry (child, y) was emplaced |
| Hierarchy.RecordedAppend | src/libRoSy/src/HierarchicalRoSyOptimiser.cpp:82-91 | entries emplaced later come after earlier ones in a child's range |
| Hierarchy.ChildLinks | src/libRoSy/src/HierarchicalRoSyOptimiser.cpp:83-98 | for distinct children, the range of each child is exactly the parents found for its records, in record order; other keys have no entries |
| Hierarchy.Orphans | src/libRoSy/src/HierarchicalRoSyOptimiser.cpp:84-97 | a child is listed as an orphan iff it is visited and finds no parent; each orphan is listed once |
| Hierarchy.PruneOrphans | src/libRoSy/src/HierarchicalRoSyOptimiser.cpp:126-143 | a surfel survives iff the parent of one of its pixels is a pixel of the previous level; survivors keep their data, edges between survivors stay, and the recorded parents of each surfel are the ones its records found |
| Hierarchy.OrphansPresent | src/libRoSy/src/HierarchicalRoSyOptimiser.cpp:84-97 | every orphan found is a node of the graph |
| Hierarchy.PrunedNodes | src/libRoSy/src/HierarchicalRoSyOptimiser.cpp:126-143 | removing the orphans leaves exactly the nodes whose surfel has a parent |
| MultiResolution.KeyLessLexicographic | src/libSurfel/src/MultiResolutionSurfelGraph.cpp:12-21 | the edge comparator orders edges lexicographically by (from id, to id) |
| MultiResolution.KeyLessStrictTotal | src/libSurfel/src/MultiResolutionSurfelGraph.cpp:12-21 | the comparator is irreflexive, transitive, total on distinct keys and asymmetric, so the score map holds one entry per ordered id pair |
| MultiResolution.CommonFrames | src/libSurfel/src/MultiResolutionSurfelGraph.cpp:32-40 | the shared frames are exactly those in both surfels' frame lists, strictly ascending (the sorted set intersection) |
| MultiResolution.AddFrames | src/libSurfel/src/MultiResolutionSurfelGraph.cpp:50-62 | the builder receives one frame record per shared frame, appended in order; id, tangent and offset are untouched |
| MultiResolution.MergedFrames | src/libSurfel/src/MultiResolutionSurfelGraph.cpp:50-62 | one record per shared frame, each at pixel (0, 0) with depth 0 |
| MultiResolution.MergeSurfels | src/libSurfel/src/MultiResolutionSurfelGraph.cpp:24-64 | the merged surfel is named "(" id1 " + " id2 ")", has one record per shared frame in ascending order, takes its tangent and offset from the weighted blend, and falls back to the builder's default frame when nothing is shared |
| MultiResolution.MergedSurfelFrames | src/libSurfel/src/MultiResolutionSurfelGraph.cpp:32-62 | a merged surfel is in frame f exactly when both parts are, and its frames ascend |
| MultiResolution.MergedSurfelNoCommonFrame | src/libSurfel/src/MultiResolutionSurfelGraph.cpp:36-41 | parts without a shared frame (the case the assertion forbids) give a surfel that is in frame 0 only |
| MultiResolution.LowerPair | src/libSurfel/src/MultiResolutionSurfelGraph.cpp:232 | the recorded lower pair names exactly the nodes the new node covers (a copied node twice, as at line 254) |
| MultiResolution.MergeStep | src/libSurfel/src/MultiResolutionSurfelGraph.cpp:217-238 | merging two unmapped lower nodes adds one new node covering both, maps both to it, keeps earlier mappings and keeps the level coherent |
| MultiResolution.CopyStep | src/libSurfel/src/MultiResolutionSurfelGraph.cpp:248-255 | copying an unmapped lower node adds one new node covering it alone and maps it there, keeping earlier mappings |
| MultiResolution.MergePass | src/libSurfel/src/MultiResolutionSurfelGraph.cpp:199-239 | the collapse loop leaves every visited pair with at least one merged end (the matching is maximal) and never remaps a node |
| MultiResolution.CopyPass | src/libSurfel/src/MultiResolutionSurfelGraph.cpp:248-255 | after the copy loop exactly the visited and previously mapped nodes are mapped, earlier mappings unchanged |
| MultiResolution.HasEdgeAfterAppend | src/libSurfel/src/MultiResolutionSurfelGraph.cpp:278-281 | in an undirected graph, after one more edge the pairs with an edge are the old ones plus that edge in either direction |
| MultiResolution.LinkOne | src/libSurfel/src/MultiResolutionSurfelGraph.cpp:270-281 | one neighbour step adds exactly the link between the two new nodes, unless they are the same node or already linked |
| MultiResolution.LinkPass | src/libSurfel/src/MultiResolutionSurfelGraph.cpp:269-283 | after the edge loop two new nodes are linked exactly when they were before or some visited lower link joins them |
| MultiResolution.PairsFrom | src/libSurfel/src/MultiResolutionSurfelGraph.cpp:271-272 | the pairs are the node with each of its neighbours |
| MultiResolution.Links | src/libSurfel/src/MultiResolutionSurfelGraph.cpp:269-272 | the visited lower links are exactly the neighbouring pairs of the listed nodes |
| MultiResolution.Candidates | src/libSurfel/src/MultiResolutionSurfelGraph.cpp:184-199 | the visiting order holds the end pairs of the edges in score order, each a stored edge |
| MultiResolution.IdsOf | src/libSurfel/src/MultiResolutionSurfelGraph.cpp:156-159 | the area map starts with an entry for the surfel id of every lower node |
| MultiResolution.AreaKeysPass | src/libSurfel/src/MultiResolutionSurfelGraph.cpp:199-238 | the area map is keyed by surfel id: while every unmerged node's id has an entry and ids are distinct, no lookup of the collapse loop misses |
| MultiResolution.AreasFound | src/libSurfel/src/MultiResolutionSurfelGraph.cpp:156-238 | when the lower nodes carry distinct surfel ids, every area lookup of the collapse loop finds its entry |
| MultiResolution.MergedIdIsNew | src/libSurfel/src/MultiResolutionSurfelGraph.cpp:225-238 | the id inserted for a merged surfel differs from the id of its first part, so inserting it never restores an erased entry for that part |
| MultiResolution.SharedIdMissesArea | src/libSurfel/src/MultiResolutionSurfelGraph.cpp:217-238 | when the first two visited edges have four distinct ends and their first ends share a surfel id, merging the first pair erases that id and the lookup for the second pair throws |
| MultiResolution.MergeWith | src/libSurfel/src/MultiResolutionSurfelGraph.cpp:225-228 | the merge applied to a pair is surfel_merge_function with the given floating point part |
| MultiResolution.Collapse | src/libSurfel/src/MultiResolutionSurfelGraph.cpp:194-239 | from an empty level the collapse phase yields a coherent level without edges in which every visited edge has a merged end |
| MultiResolution.CopyRest | src/libSurfel/src/MultiResolutionSurfelGraph.cpp:248-255 | after the copy phase every lower node is mapped, and earlier merges are untouched |
| MultiResolution.Link | src/libSurfel/src/MultiResolutionSurfelGraph.cpp:269-283 | the edge phase changes no mapping or node, and two new nodes are linked exactly when some lower edge joins their covers |
| MultiResolution.Coarsen | src/libSurfel/src/MultiResolutionSurfelGraph.cpp:148-287 | building a level fails exactly when an area lookup of the collapse loop misses; otherwise the new level maps every lower node to one new node, links two new nodes exactly when some lower edge joins their covers, and leaves no visited edge with both ends unmerged |
| MultiResolution.StayMerged | src/libSurfel/src/MultiResolutionSurfelGraph.cpp:248-283 | nodes merged in the collapse phase are still recorded as merged after the copy and edge phases |
| MultiResolution.CoarsenLinks | src/libSurfel/src/MultiResolutionSurfelGraph.cpp:269-283 | linking every lower node with its neighbours links new nodes exactly when some lower edge joins them |
| MultiResolution.CoverUnique | src/libSurfel/src/MultiResolutionSurfelGraph.cpp:230-232 | no lower node belongs to the covers of two different new nodes |
| MultiResolution.PreimageIsCover | src/libSurfel/src/MultiResolutionSurfelGraph.cpp:230-254 | the lower nodes mapped to a new node are exactly its cover: one or two nodes |
| MultiResolution.AreaIsSumOfParts | src/libSurfel/src/MultiResolutionSurfelGraph.cpp:156-159 | a new node's dual area is the number of lower nodes it stands for (line 235 sums two areas of 1) |
| MultiResolution.FromGraph | src/libSurfel/src/MultiResolutionSurfelGraph.cpp:73-79 | the constructor's stack holds the given graph as its only level |
| MultiResolution.AddLevel | src/libSurfel/src/MultiResolutionSurfelGraph.cpp:285-286 | appending a level fails exactly when building it from the coarsest level fails; otherwise one more level is appended and the earlier levels and up maps are unchanged |
| MultiResolution.AddLevels | src/libSurfel/src/MultiResolutionSurfelGraph.cpp:101-104 | no levels leave the stack as it was, a failing first level fails the loop, and a successful loop appends count levels, the earlier ones unchanged |
| MultiResolution.GenerateLevelsAsWritten | src/libSurfel/src/MultiResolutionSurfelGraph.cpp:84-105 | as written: nothing for 0 levels or when enough exist, and otherwise, when every level builds, num - 1 new levels regardless of how many exist |
| MultiResolution.GenerateLevelsOvershoots | src/libSurfel/src/MultiResolutionSurfelGraph.cpp:97-104 | from two levels a request for three ends with four whenever the levels build |
| MultiResolution.GenerateLevels | src/libSurfel/src/MultiResolutionSurfelGraph.cpp:97-104 | as the guard intends: with enough levels nothing changes, and a successful run tops the stack up to num levels, existing levels untouched |
| MultiResolution.GenerateLevelsIdempotent | src/libSurfel/src/MultiResolutionSurfelGraph.cpp:97-99 | generating the same number of levels a second time after a successful run changes nothing |
| MultiResolution.GenerateLevelsFromOneLevel | src/libSurfel/src/MultiResolutionSurfelGraph.cpp:97-104 | on a stack holding only the input graph, the code as written and as intended agree |
| Shuffling.Shuffle | src/libOptimise/src/NodeOptimiser.cpp:66 | whatever the engine draws, the shuffled sequence is a rearrangement of the input: same length, same multiset of elements |
| Shuffling.PermutationKeepsElements | src/libOptimise/src/NodeOptimiser.cpp:64-73 | a rearrangement has the same elements and keeps a repeat-free sequence repeat-free |
| Shuffling.Iota | src/libOptimise/src/NodeOptimiser.cpp:64-65 | the index vector holds 0 .. n-1 in order |
| Shuffling.Pick | src/libOptimise/src/NodeOptimiser.cpp:67-72 | the selected nodes are the graph nodes at the shuffled indices, in that order |
| Shuffling.PickShuffleFrom | src/libOptimise/src/NodeOptimiser.cpp:64-72 | looking nodes up through shuffled indices is the same as shuffling the nodes with the same draws |
| Shuffling.PickAll | src/libOptimise/src/NodeOptimiser.cpp:64-72 | looking every node up through the unshuffled indices gives the nodes themselves |
| NodeOptimiser.WithName | src/libOptimise/include/Optimise/SurfelSelectionAlgorithm.h:15-26 | the two configured names, and only they, select an algorithm; any other name is the error "Unknown surfel selection algorithm " followed by the name |
| NodeOptimiser.WithNameOfName | src/libOptimise/include/Optimise/SurfelSelectionAlgorithm.h:15-26 | each algorithm is found under its own name and under no other |
| NodeOptimiser.SsaFraction | src/libOptimise/src/NodeOptimiser.cpp:37-38 | the configured percentage becomes a fraction divided by 100 and clamped to [0, 1] |
| NodeOptimiser.SsaFractionMonotone | src/libOptimise/src/NodeOptimiser.cpp:38 | a larger percentage never yields a smaller fraction |
| NodeOptimiser.SelectAll | src/libOptimise/src/NodeOptimiser.cpp:60-74 | selecting all in random order returns a rearrangement of the graph's nodes |
| NodeOptimiser.SelectAllOfGraph | src/libOptimise/src/NodeOptimiser.cpp:60-74 | every node of the graph is selected exactly once |
| NodeOptimiser.Insert | src/libOptimise/src/NodeOptimiser.cpp:88-92 | inserting one node into a worst-first list adds exactly that node and keeps the list worst first |
| NodeOptimiser.SortWorstFirst | src/libOptimise/src/NodeOptimiser.cpp:88-92 | the sort is a permutation of the nodes in which no node is followed by a worse one |
| NodeOptimiser.InsertWithScore | src/libOptimise/src/NodeOptimiser.cpp:88-92 | an inserted node lands after every node of its own score |
| NodeOptimiser.SortWorstFirstStable | src/libOptimise/src/NodeOptimiser.cpp:88-92 | the sort is stable: the nodes of any one score keep their input order |
| NodeOptimiser.WorstPrefix | src/libOptimise/src/NodeOptimiser.cpp:94-96 | the first k sorted nodes (all, when fewer): no node left out is worse than one kept |
| NodeOptimiser.SelectWorst100 | src/libOptimise/src/NodeOptimiser.cpp:79-98 | the hundred worst nodes, or all of them when there are fewer, in sorted order; nothing left out is worse than anything selected |
| NodeOptimiser.Round | src/libOptimise/src/NodeOptimiser.cpp:116 | roundf of a non-negative value: the nearest integer, halves rounding up |
| NodeOptimiser.Required | src/libOptimise/src/NodeOptimiser.cpp:116 | the required count is the rounded share of the node count, never more than the node count; a zero share gives 0 and a full share all |
| NodeOptimiser.SelectWorstPercentage | src/libOptimise/src/NodeOptimiser.cpp:100-121 | the worst nodes in sorted order, as many as the rounded share of the node count; nothing left out is worse than anything selected |
| NodeOptimiser.SelectWorstPercentageExtremes | src/libOptimise/src/NodeOptimiser.cpp:37-38 | a percentage of 100 or more selects every node; 0 or less selects none |
| Shuffling.ShuffleFrom | src/libOptimise/src/NodeOptimiser.cpp:66 | the Fisher-Yates steps from any position on, whatever the draws, give a rearrangement of the input of the same length, every element of which comes from the input |
| AbstractOptimiser.SetNamed | src/libOptimise/src/AbstractOptimiser.cpp:42-50 | a criterion bit is set when its option is named and left alone otherwise |
| AbstractOptimiser.AddOption | src/libOptimise/src/AbstractOptimiser.cpp:39-50 | one option sets the bit it names; an unknown option sets none |
| AbstractOptimiser.IgnoredOption | src/libOptimise/src/AbstractOptimiser.cpp:41-54 | the criteria stay unchanged, so the option is reported as ignored, exactly when it is unknown or already set |
| AbstractOptimiser.AddOptionBits | src/libOptimise/src/AbstractOptimiser.cpp:42-50 | after one option each named bit is set exactly when it was already set or the option names it; other bits are untouched |
| AbstractOptimiser.AddOptions | src/libOptimise/src/AbstractOptimiser.cpp:38-55 | after the options each named bit is set exactly when it was already set or some option names it |
| AbstractOptimiser.ReadTerminationCriteria | src/libOptimise/src/AbstractOptimiser.cpp:31-57 | the criteria have the absolute, relative or fixed bit exactly when that name is one of the comma-separated fields, and no other bit |
| AbstractOptimiser.SameNamesSameCriteria | src/libOptimise/src/AbstractOptimiser.cpp:31-57 | two properties listing the same known names give the same criteria, whatever order, repeats or unknown fields they have |
| AbstractOptimiser.CheckTermination | src/libOptimise/src/AbstractOptimiser.cpp:100-196 | optimisation stops exactly when cancelled, when the fixed count is reached, or when it has converged; cancellation wins, and a stop never reports NOT_COMPLETE |
| AbstractOptimiser.NewOptimiser | src/libOptimise/src/AbstractOptimiser.cpp:15-29 | a new optimiser is UNINITIALISED with result NOT_COMPLETE, no criteria and no iterations |
| AbstractOptimiser.SetupTermination | src/libOptimise/src/AbstractOptimiser.cpp:59-77 | the criteria come from the property; the iteration bound is read only when the fixed criterion is named |
| AbstractOptimiser.SetData | src/libOptimise/src/AbstractOptimiser.cpp:284-294 | loading a graph makes the optimiser INITIALISED and records the graph's frame count, keeping the criteria |
| AbstractOptimiser.Begin | src/libOptimise/src/AbstractOptimiser.cpp:79-89 | beginning resets the iteration count and enters OPTIMISING |
| AbstractOptimiser.End | src/libOptimise/src/AbstractOptimiser.cpp:198-203 | ending returns to INITIALISED and keeps the result |
| AbstractOptimiser.Pass | src/libOptimise/src/AbstractOptimiser.cpp:213-229 | one pass increments the unsigned iteration count, wrapping at 2^32, and moves to ENDING_OPTIMISATION with the check's result exactly when a termination check fires |
| AbstractOptimiser.Step | src/libOptimise/src/AbstractOptimiser.cpp:205-236 | with the data assertion compiled out, a step of an uninitialised optimiser changes nothing and answers false; otherwise it answers true exactly when it finished, and then the optimiser is INITIALISED again, and keeps the criteria and bound |
| AbstractOptimiser.StepKeepsSettled | src/libOptimise/src/AbstractOptimiser.cpp:205-236 | a step from a settled state leaves it settled |
| AbstractOptimiser.StepFinishes | src/libOptimise/src/AbstractOptimiser.cpp:205-236 | a step finishes exactly when a termination check fires after its pass, and the result it records is that check's reason |
| AbstractOptimiser.FixedRun | src/libOptimise/src/AbstractOptimiser.cpp:162-173 | with the fixed criterion alone and a bound of m, quiet steps answer false m - 1 times, then true, with result CONVERGED after m iterations |
| AbstractOptimiser.FixedRunFrom | src/libOptimise/src/AbstractOptimiser.cpp:205-236 | k steps before the end of a fixed run, quiet steps answer false k - 1 times and then true |
| AbstractOptimiser.Intersection | src/libOptimise/src/AbstractOptimiser.cpp:337-341 | the intersection of two ascending sequences holds exactly the values both hold, in ascending order |
| AbstractOptimiser.GetCommonFrames | src/libOptimise/src/AbstractOptimiser.cpp:327-343 | the common frames are exactly the frames both surfels are in, ascending, and the same list a merge of the two surfels uses |
| MultiResolutionOptimiser.NewMrOptimiser | src/libMultiResolutionOptimiser/src/MultiResolutionOptimiser.cpp:7-15 | a new optimiser is UNINITIALISED at level 0 with the configured level count |
| MultiResolutionOptimiser.SetData | src/libMultiResolutionOptimiser/src/MultiResolutionOptimiser.cpp:58-67 | loading a graph succeeds exactly when levels are configured and the level stack builds; it then starts INITIALISED at the coarsest level, num_levels - 1; with no levels configured the unsigned subtraction wraps to a level that does not exist, which is the out-of-range error |
| MultiResolutionOptimiser.Step | src/libMultiResolutionOptimiser/src/MultiResolutionOptimiser.cpp:17-56 | with the data assertion compiled out, a step of an uninitialised optimiser changes nothing and answers false; every step keeps the level count and answers true exactly when optimisation has ended |
| MultiResolutionOptimiser.IncompleteStepWaits | src/libMultiResolutionOptimiser/src/MultiResolutionOptimiser.cpp:26-39 | a sub-step that does not complete leaves phase and level alone and the call answers false |
| MultiResolutionOptimiser.PosyDoneDescends | src/libMultiResolutionOptimiser/src/MultiResolutionOptimiser.cpp:40-47 | completing PoSy above level 0 moves one level down and back to RoSy, answering false |
| MultiResolutionOptimiser.StepKeepsSettled | src/libMultiResolutionOptimiser/src/MultiResolutionOptimiser.cpp:17-56 | a step from a settled state keeps the level within the stack |
| MultiResolutionOptimiser.EagerRunLevels | src/libMultiResolutionOptimiser/src/MultiResolutionOptimiser.cpp:17-56 | when every sub-step completes at once, a run from level l answers false l times and then true, ending at level 0 |
| MultiResolutionOptimiser.EagerRun | src/libMultiResolutionOptimiser/src/MultiResolutionOptimiser.cpp:17-56 | n calls in which every sub-step completes give n answers, keep the number of levels, and keep a settled optimiser settled |
| FieldOptimiser.RandomiseIndices | src/tools/libTool/src/FieldOptimiser.cpp:176-183 | the shuffled indices hold every position 0 .. n-1 exactly once |
| FieldOptimiser.EdgeFrameAsWritten | src/tools/libTool/src/FieldOptimiser.cpp:422-438 | as written: labelling succeeds exactly for one shared frame; several shared frames are reported as "no common frames", and none reads past the end of the empty list |
| FieldOptimiser.EdgeFrameAsWrittenMisreports | src/tools/libTool/src/FieldOptimiser.cpp:426-438 | an edge in frames 0 and 1 is reported as having no common frames; an edge in none reads out of range |
| FieldOptimiser.EdgeFrame | src/tools/libTool/src/FieldOptimiser.cpp:422-438 | as the messages intend: no shared frame is "no common frames", several are "multi-frame labeling not supported", and otherwise the edge is labelled in its one shared frame |
| FieldOptimiser.EdgeFrameAgreesOnOneFrame | src/tools/libTool/src/FieldOptimiser.cpp:422-438 | on an edge with exactly one shared frame both versions label it in that frame |
| FieldOptimiser.EdgeFrames | src/tools/libTool/src/FieldOptimiser.cpp:356-372 | the frames an edge lies in are exactly those both its surfels list |
| FieldOptimiser.LabellingOf | src/tools/libTool/src/FieldOptimiser.cpp:436-446 | a labellable edge is labelled between its own two ends in a frame both list |
| FieldOptimiser.LabelEdgesFrom | src/tools/libTool/src/FieldOptimiser.cpp:349-351 | labelling a list of edges succeeds exactly when every one is labellable, and then gives each edge's labelling in order |
| FieldOptimiser.LabelEdges | src/tools/libTool/src/FieldOptimiser.cpp:341-354 | label_edges succeeds exactly when every edge of the finest level has exactly one shared frame, and labels each edge in edge order |
| FieldOptimiser.NewField | src/tools/libTool/src/FieldOptimiser.cpp:13-34 | a new optimiser is UNINITIALISED with the given pass target, no passes and level 0 |
| FieldOptimiser.SetGraph | src/tools/libTool/src/FieldOptimiser.cpp:477-481 | loading a multi-resolution graph makes the optimiser INITIALISED over its levels, keeping the pass target |
| FieldOptimiser.SetMode | src/tools/libTool/include/Tools/FieldOptimiser.h:26-34 | the mode changes only in the UNINITIALISED or INITIALISED state, and nothing else ever changes |
| FieldOptimiser.Begin | src/tools/libTool/src/FieldOptimiser.cpp:45-52 | beginning starts a new level at the coarsest level, num_levels - 1 |
| FieldOptimiser.StartLevel | src/tools/libTool/src/FieldOptimiser.cpp:324-331 | starting a level resets the pass count and enters RoSy smoothing at the same level |
| FieldOptimiser.RosyPass | src/tools/libTool/src/FieldOptimiser.cpp:301-305 | a RoSy pass counts itself; the pass that reaches the target restarts the count and hands over to PoSy |
| FieldOptimiser.PosyPass | src/tools/libTool/src/FieldOptimiser.cpp:170-173 | a PoSy pass counts itself; the pass that reaches the target ends the level |
| FieldOptimiser.EndLevel | src/tools/libTool/src/FieldOptimiser.cpp:308-322 | ending level 0 moves to edge labelling; ending any other level starts the next finer one |
| FieldOptimiser.Step | src/tools/libTool/src/FieldOptimiser.cpp:449-475 | optimising with no graph fails, only the DONE state answers true, the pass target, finest level and level count never change, and the optimiser stays settled |
| FieldOptimiser.LabelStateStep | src/tools/libTool/src/FieldOptimiser.cpp:341-354 | the labelling step fails exactly when some finest-level edge does not have exactly one shared frame, and otherwise reaches DONE with every edge labelled |
| FieldOptimiser.RosyNeverEndsWithoutTarget | src/tools/libTool/src/FieldOptimiser.cpp:301-305 | with a pass target of 0 or less the equality test never fires, so the RoSy phase never ends |
| FieldOptimiser.Run | src/tools/libTool/src/FieldOptimiser.cpp:449-475 | n successful calls in a row give n answers and leave the optimiser settled |
| FieldOptimiser.RunSplit | src/tools/libTool/src/FieldOptimiser.cpp:449-475 | a successful run of n > 0 calls began with a successful call whose answer is the run's first, followed by a successful run of n - 1 calls giving the other answers |
| FieldOptimiser.RunJoin | src/tools/libTool/src/FieldOptimiser.cpp:449-475 | a successful call followed by a successful run of n - 1 calls is a successful run of n calls, its answer first |
| FieldOptimiser.RunAppend | src/tools/libTool/src/FieldOptimiser.cpp:449-475 | a calls and then b calls are a + b calls |
| FieldOptimiser.RosyPhase | src/tools/libTool/src/FieldOptimiser.cpp:188-306 | the last k RoSy passes all answer false and end in PoSy with the count restarted |
| FieldOptimiser.PosyPhase | src/tools/libTool/src/FieldOptimiser.cpp:57-174 | the last k PoSy passes all answer false and end the level with the count at the target |
| FieldOptimiser.OneLevel | src/tools/libTool/src/FieldOptimiser.cpp:449-475 | one level takes 2 * target + 2 calls, all answering false: start, the RoSy passes, the PoSy passes, then the end of the level |
| FieldOptimiser.AllLevels | src/tools/libTool/src/FieldOptimiser.cpp:449-475 | from the start of level l, the levels take (l + 1) * (2 * target + 2) calls, all answering false, and reach edge labelling |
| FieldOptimiser.WholeRun | src/tools/libTool/src/FieldOptimiser.cpp:449-475 | with a positive target and every edge in one shared frame, begin, all levels and labelling answer false, after which the optimiser is DONE and every further call answers true |
| BinaryIo.DecodeEncode | src/libGeomFileUtils/src/io_utils.cpp:13-47 | the little-endian bytes a value is written as decode back to the value |
| BinaryIo.EncodeDecode | src/libGeomFileUtils/src/io_utils.cpp:77-119 | any w bytes are the encoding of the value they decode to, so values and byte strings correspond one to one |
| BinaryIo.ReadUnsigned | src/libGeomFileUtils/src/io_utils.cpp:77-119 | a read of a w-byte value fails exactly when fewer than w bytes remain; otherwise it returns the value those bytes encode and the bytes after them |
| BinaryIo.ReadUnsignedWritten | src/libGeomFileUtils/src/io_utils.cpp:77-119 | reading back a written w-byte value gives the value and leaves what followed |
| BinaryIo.ReadUnsignedShort | src/libGeomFileUtils/src/io_utils.cpp:90-95 | reading an unsigned short fails exactly when fewer than 2 bytes remain, and otherwise the input is that value's encoding followed by the rest |
| BinaryIo.UnsignedShortRoundTrip | src/libGeomFileUtils/src/io_utils.cpp:28-31 | read_unsigned_short undoes write_unsigned_short |
| BinaryIo.ReadUnsignedInt | src/libGeomFileUtils/src/io_utils.cpp:83-88 | reading an unsigned int fails exactly when fewer than 4 bytes remain, and otherwise the input is that value's encoding followed by the rest |
| BinaryIo.UnsignedIntRoundTrip | src/libGeomFileUtils/src/io_utils.cpp:12-15 | read_unsigned_int undoes write_unsigned_int |
| BinaryIo.ReadSizeT | src/libGeomFileUtils/src/io_utils.cpp:114-119 | reading a size_t fails exactly when fewer than 8 bytes remain, and otherwise the input is that value's encoding followed by the rest |
| BinaryIo.SizeTRoundTrip | src/libGeomFileUtils/src/io_utils.cpp:44-47 | read_size_t undoes write_size_t |
| BinaryIo.IntBits | src/libGeomFileUtils/src/io_utils.cpp:20-23 | a non-negative int is stored as itself, a negative one as a pattern with the top bit set (two's complement) |
| BinaryIo.BitsInt | src/libGeomFileUtils/src/io_utils.cpp:76-81 | every 32-bit pattern is the storage of exactly the int read back from it |
| BinaryIo.ReadInt | src/libGeomFileUtils/src/io_utils.cpp:76-81 | reading an int fails exactly when fewer than 4 bytes remain, and otherwise the input is that value's encoding followed by the rest |
| BinaryIo.IntRoundTrip | src/libGeomFileUtils/src/io_utils.cpp:20-23 | read_int undoes write_int, negative values included |
| BinaryIo.ReadFloat | src/libGeomFileUtils/src/io_utils.cpp:121-126 | reading a float fails exactly when fewer than 4 bytes remain, and otherwise the input is that pattern's bytes followed by the rest |
| BinaryIo.FloatRoundTrip | src/libGeomFileUtils/src/io_utils.cpp:36-39 | read_float returns the bit pattern write_float stored |
| BinaryIo.ReadVector2i | src/libGeomFileUtils/src/io_utils.cpp:129-135 | reading two ints fails exactly when fewer than 8 bytes remain |
| BinaryIo.Vector2iRoundTrip | src/libGeomFileUtils/src/io_utils.cpp:70-74 | read_vector_2i gives back x and y in the order write_vector_2i wrote them |
| BinaryIo.ReadVector2f | src/libGeomFileUtils/src/io_utils.cpp:137-143 | reading two floats fails exactly when fewer than 8 bytes remain |
| BinaryIo.Vector2fRoundTrip | src/libGeomFileUtils/src/io_utils.cpp:62-66 | read_vector_2f gives back x and y in the order write_vector_2f wrote them |
| BinaryIo.ReadVector3f | src/libGeomFileUtils/src/io_utils.cpp:145-152 | reading three floats fails exactly when fewer than 12 bytes remain |
| BinaryIo.Vector3fRoundTrip | src/libGeomFileUtils/src/io_utils.cpp:52-57 | read_vector_3f gives back x, y and z in the order write_vector_3f wrote them |
| BinaryIo.WriteString | src/libGeomFileUtils/src/io_utils.cpp:107-112 | a string is written as its 8-byte length followed by its bytes |
| BinaryIo.ReadString | src/libGeomFileUtils/src/io_utils.cpp:97-105 | reading a string fails exactly when the length or that many bytes are missing; otherwise the input is that string written, followed by the rest |
| BinaryIo.StringRoundTrip | src/libGeomFileUtils/src/io_utils.cpp:97-112 | read_string undoes write_string and leaves what followed |
| BinaryIo.WriteUnsignedShort | src/libGeomFileUtils/src/io_utils.cpp:29-31 | an unsigned short is written as exactly two bytes |
| BinaryIo.WriteUnsignedInt | src/libGeomFileUtils/src/io_utils.cpp:13-15 | an unsigned int is written as exactly four bytes |
| BinaryIo.WriteSizeT | src/libGeomFileUtils/src/io_utils.cpp:45-47 | a `size_t` is written as exactly eight bytes |
| BinaryIo.WriteInt | src/libGeomFileUtils/src/io_utils.cpp:21-23 | an int is written as exactly four bytes |
| BinaryIo.WriteFloat | src/libGeomFileUtils/src/io_utils.cpp:37-39 | a float is written as exactly four bytes |
| BinaryIo.WriteVector2i | src/libGeomFileUtils/src/io_utils.cpp:71-74 | an integer 2-vector is written as exactly eight bytes |
| BinaryIo.WriteVector2f | src/libGeomFileUtils/src/io_utils.cpp:63-66 | a float 2-vector is written as exactly eight bytes |
| BinaryIo.WriteVector3f | src/libGeomFileUtils/src/io_utils.cpp:53-57 | a float 3-vector is written as exactly twelve bytes |
| SurfelIo.Lift | src/libSurfel/src/Surfel_IO.cpp:146-158 | a load step succeeds exactly when the underlying stream read does, with the same value and remaining bytes |
| SurfelIo.Flags | src/libSurfel/src/Surfel_IO.cpp:47-49 | the flags word has the smoothness bit exactly when smoothness is saved and the edges bit exactly when edges are saved |
| SurfelIo.HeaderAsWritten | src/libSurfel/src/Surfel_IO.cpp:45-51 | as written, the marker and flags take 4 bytes, and are present only when smoothness or edges are saved |
| SurfelIo.Header | src/libSurfel/src/Surfel_IO.cpp:45-51 | corrected, the header is always the marker and the flags |
| SurfelIo.ReadHeader | src/libSurfel/src/Surfel_IO.cpp:149-157 | reading the header fails only on a file too short for the marker, or for the flags after it; when the first two bytes are not the marker they are put back and the flags are 0 |
| SurfelIo.HeaderRoundTrip | src/libSurfel/src/Surfel_IO.cpp:45-51 | a corrected header reads back as the flags saved and leaves what followed |
| SurfelIo.MarkerAmbiguity | src/libSurfel/src/Surfel_IO.cpp:149-158 | a file saved without flags whose surfel count is 43505 (0xa9f1) has its count taken for the marker: the flags come from the count's high bytes and the count from the first surfel's bytes |
| SurfelIo.HeaderAsWrittenWhenFlagged | src/libSurfel/src/Surfel_IO.cpp:45-51 | when smoothness or edges are saved, the header as written is the corrected header |
| SurfelIo.AllRoundTrip | src/libSurfel/src/Surfel_IO.cpp:53-94 | when each record reads back what its writer wrote, a list of records reads back in full and leaves what followed |
| SurfelIo.ReadAllFirst | src/libSurfel/src/Surfel_IO.cpp:166-225 | reading n + 1 records is reading the first and then n more |
| SurfelIo.FloatsRoundTrip | src/libSurfel/src/Surfel_IO.cpp:66-74 | the nine transform entries read back in the order written |
| SurfelIo.ReadFrame | src/libSurfel/src/Surfel_IO.cpp:173-197 | a frame record read from the file always has a nine-entry transform |
| SurfelIo.FrameRoundTrip | src/libSurfel/src/Surfel_IO.cpp:58-81 | a frame read back after writing has the same pixel, frame, depth, transform, normal and position |
| SurfelIo.IdRoundTrip | src/libSurfel/src/Surfel_IO.cpp:55 | a surfel id reads back as written |
| SurfelIo.PutSmoothness | src/libSurfel/src/Surfel_IO.cpp:90-93 | the two smoothness values take 8 bytes when saved and none otherwise |
| SurfelIo.ReadSmoothness | src/libSurfel/src/Surfel_IO.cpp:214-219 | without the smoothness flag nothing is read and both values are 0 |
| SurfelIo.BuiltFrames | src/libSurfel/src/SurfelBuilder.cpp:116-148 | a surfel built from the frames read keeps them, and one built from none gets the single default frame: pixel (0, 0) of frame 0, depth 0, identity transform, normal (0, 1, 0), position (0, 0, 0) |
| SurfelIo.ReadSurfel | src/libSurfel/src/Surfel_IO.cpp:166-221 | a surfel read from the file always has at least one frame, since the builder supplies one when the record lists none, and its smoothness values are 0 when the file carries none |
| SurfelIo.AsLoaded | src/libSurfel/src/Surfel_IO.cpp:166-221 | a surfel loads as saved, except that a record without frames gets the builder's default frame (pixel (0, 0) of frame 0) and unsaved smoothness values are 0 |
| SurfelIo.SmoothnessRoundTrip | src/libSurfel/src/Surfel_IO.cpp:90-93 | the smoothness values read back as they load |
| SurfelIo.FramesRoundTrip | src/libSurfel/src/Surfel_IO.cpp:57-81 | a surfel's frames read back in order |
| SurfelIo.IdsRoundTrip | src/libSurfel/src/Surfel_IO.cpp:84-87 | a surfel's neighbour ids read back in order |
| SurfelIo.SurfelRoundTrip | src/libSurfel/src/Surfel_IO.cpp:53-94 | a writable surfel record reads back as it loads: id, frames (the default frame when it had none), neighbours, tangent, lattice offset and smoothness |
| SurfelIo.ReadSurfels | src/libSurfel/src/Surfel_IO.cpp:166-225 | a successful surfel section read holds as many surfels as the count announced |
| SurfelIo.SurfelsRoundTrip | src/libSurfel/src/Surfel_IO.cpp:52-94 | the surfel section reads back every surfel, in order, as loaded, a frameless one with the default frame |
| SurfelIo.TsRoundTrip | src/libSurfel/src/Surfel_IO.cpp:109-113 | an edge's displacement pairs read back in order, t_ij before t_ji |
| SurfelIo.ReadKs | src/libSurfel/src/Surfel_IO.cpp:250-257 | the rotation-index block is read count times, consuming 4 bytes a pair and failing exactly when fewer remain; the edge keeps a pair exactly when the count is positive, and it is the last pair of the block, each later `set_k_ij`/`set_k_ji` overwriting the one before |
| SurfelIo.KsRoundTrip | src/libSurfel/src/Surfel_IO.cpp:250-257 | a legacy block of several pairs reads back as its last pair, and an empty block as no pair, leaving what followed |
| SurfelIo.Loaded | src/libSurfel/src/Surfel_IO.cpp:247-262 | a saved edge loads with its weight, its one pair of rotation indices and its displacements |
| SurfelIo.EdgeDataRoundTrip | src/libSurfel/src/Surfel_IO.cpp:102-113 | an edge's data reads back as it loads |
| SurfelLoad.Index | src/libSurfel/src/Surfel_IO.cpp:223-224 | emplace keeps the first value offered for each id: every id read maps to the value at its first occurrence |
| SurfelLoad.NodeTable | src/libSurfel/src/Surfel_IO.cpp:222-224 | the node table maps every id read to the node of the first surfel with that id |
| SurfelLoad.NeighbourTable | src/libSurfel/src/Surfel_IO.cpp:200-223 | the neighbour table maps every id read to the neighbour list of the first surfel with that id |
| SurfelLoad.NodeTableDistinct | src/libSurfel/src/Surfel_IO.cpp:222-224 | with no id repeated, each id's entry is its own surfel's node and neighbour list |
| SurfelLoad.AddSurfels | src/libSurfel/src/Surfel_IO.cpp:222 | adding the surfels adds one node each, and no edge |
| SurfelLoad.AddSurfelsNodes | src/libSurfel/src/Surfel_IO.cpp:222 | the i-th surfel read is stored under the i-th new handle |
| SurfelLoad.InsertEdges | src/libSurfel/src/Surfel_IO.cpp:239-263 | every offered link ends up present, a link already present is skipped, and only offered edges are added, after the existing ones |
| SurfelLoad.InsertNewEdges | src/libSurfel/src/Surfel_IO.cpp:239-263 | links that are all new and pairwise distinct are all added in order |
| SurfelLoad.ReadEdgeRecord | src/libSurfel/src/Surfel_IO.cpp:233-237 | an edge read names only nodes of known ids; an unknown id fails the load |
| SurfelLoad.Resolved | src/libSurfel/src/Surfel_IO.cpp:233-263 | a saved edge between known ids loads between their nodes, with its data as loaded |
| SurfelLoad.EdgeRecordRoundTrip | src/libSurfel/src/Surfel_IO.cpp:232-263 | an edge record reads back between the nodes of its saved ids |
| SurfelLoad.ReadEdges | src/libSurfel/src/Surfel_IO.cpp:228-265 | the corrected edge reader keeps the nodes and yields a valid undirected graph |
| SurfelLoad.ReadEdgesAsWritten | src/libSurfel/src/Surfel_IO.cpp:228-265 | the edge reader as written keeps the nodes and yields a valid undirected graph |
| SurfelLoad.DuplicateEdgeDesync | src/libSurfel/src/Surfel_IO.cpp:239-245 | as written, a record whose link is already present leaves its weight, indices and displacements to be read as the next record |
| SurfelLoad.DuplicateEdgeSkipped | src/libSurfel/src/Surfel_IO.cpp:239-245 | corrected, a duplicate record is read in full and adds nothing |
| SurfelLoad.EdgesRoundTrip | src/libSurfel/src/Surfel_IO.cpp:232-265 | saved edges with new, distinct links are all added, in order, by the corrected reader |
| SurfelLoad.DistinctLinksFresh | src/libSurfel/src/Surfel_IO.cpp:239 | links that repeat neither each other nor those present are each new when their turn comes |
| SurfelLoad.AsWrittenAgrees | src/libSurfel/src/Surfel_IO.cpp:232-265 | without duplicate links the reader as written reads the same graph as the corrected one |
| SurfelLoad.AsWrittenReadsFresh | src/libSurfel/src/Surfel_IO.cpp:232-265 | records whose links are new in turn are read in full by the reader as written |
| SurfelLoad.AddEdgeAppends | src/libSurfel/src/Surfel_IO.cpp:263 | a new link is stored after the existing edges |
| SurfelLoad.Proposals | src/libSurfel/src/Surfel_IO.cpp:271-273 | the edges proposed from a node go to each listed neighbour in order, and an unknown neighbour id fails the load |
| SurfelLoad.Candidates | src/libSurfel/src/Surfel_IO.cpp:270-291 | the proposals succeed exactly when every neighbour list resolves, and then hold an edge from every node to each listed neighbour and nothing else |
| SurfelLoad.GenerateEdges | src/libSurfel/src/Surfel_IO.cpp:266-292 | generating edges succeeds exactly when every neighbour resolves; then every node is linked to each listed neighbour, and every edge added was proposed |
| SurfelLoad.Nodes | src/libSurfel/src/Surfel_IO.cpp:166-225 | the loaded graph has one node per surfel record, with handles 0 .. n-1, and no edges |
| SurfelLoad.NodesHold | src/libSurfel/src/Surfel_IO.cpp:222 | the node with handle i holds the i-th record |
| SurfelLoad.ReadEdgeSection | src/libSurfel/src/Surfel_IO.cpp:228-231 | the edge section keeps the nodes and yields a valid undirected graph |
| SurfelLoad.LinkSurfels | src/libSurfel/src/Surfel_IO.cpp:228-292 | the edges come from the edge section when flagged, otherwise from the neighbour lists; the nodes are the surfels read |
| SurfelLoad.Load | src/libSurfel/src/Surfel_IO.cpp:134-297 | a successful load yields a valid undirected surfel graph |
| SurfelLoad.EdgeSection | src/libSurfel/src/Surfel_IO.cpp:96-117 | without the edges flag nothing is written after the surfels |
| SurfelLoad.Save | src/libSurfel/src/Surfel_IO.cpp:27-120 | the corrected save always starts with the header carrying the flags |
| SurfelLoad.SaveAsWritten | src/libSurfel/src/Surfel_IO.cpp:27-120 | as written, a save with smoothness or edges is the corrected save, and one with neither is the corrected save without its header |
| SurfelLoad.LoadedSurfels | src/libSurfel/src/Surfel_IO.cpp:166-225 | the surfels read back are the saved ones as loaded, each record without frames given the builder's default frame |
| SurfelLoad.LoadStages | src/libSurfel/src/Surfel_IO.cpp:134-297 | loading a save reads back the saved flags and surfels, then links them from the edge section written; frameless surfels come back in the default frame |
| SurfelLoad.LoadedIds | src/libSurfel/src/Surfel_IO.cpp:222-224 | every saved id is in the loaded node table |
| SurfelLoad.ResolvedDistinct | src/libSurfel/src/Surfel_IO.cpp:232-263 | edges between distinct pairs of ids resolve to distinct links |
| SurfelLoad.SectionRoundTrip | src/libSurfel/src/Surfel_IO.cpp:96-117 | an edge section read back into a graph without edges adds every saved edge in order |
| SurfelLoad.EdgeSectionRoundTrip | src/libSurfel/src/Surfel_IO.cpp:96-117 | the edge section of a save, read back over the loaded nodes, adds every saved edge in order |
| SurfelLoad.SaveLoadEdges | src/libSurfel/src/Surfel_IO.cpp:27-297 | a save with edges loads back with its flags and one edge per saved edge, in order, between the surfels of the saved ids, for either edge reader |
| SurfelLoad.NeighboursResolvable | src/libSurfel/src/Surfel_IO.cpp:266-292 | when every neighbour id is a saved surfel, each loaded node's neighbour list resolves |
| SurfelLoad.GeneratedData | src/libSurfel/src/Surfel_IO.cpp:289 | generated edges all have weight 1 and no labels |
| SurfelLoad.GeneratedLinks | src/libSurfel/src/Surfel_IO.cpp:266-292 | generating edges over surfels whose neighbours were all saved succeeds, and with distinct ids links every surfel to each of its neighbours |
| SurfelLoad.SaveLoadNeighbours | src/libSurfel/src/Surfel_IO.cpp:27-297 | a save without edges loads back with its flags and weight-1 edges generated from the neighbour lists, linking each surfel to its neighbours when ids are distinct |
| SurfelLoad.LoadedNodes | src/libSurfel/src/Surfel_IO.cpp:134-225 | a successful load of a save has the saved flags and the nodes built over the surfels as loaded, a frameless record holding the default frame |
| SurfelLoad.SaveLoadNodes | src/libSurfel/src/Surfel_IO.cpp:27-225 | a successful load of a save has the saved flags and one node per saved surfel, in order, holding it as loaded: its frames, or the default frame when it had none |
| SurfelLoad.LowShort | src/libSurfel/src/Surfel_IO.cpp:149 | the first two bytes of an unsigned int read as its low 16 bits |
| SurfelLoad.AsWrittenUnflaggedLoads | src/libSurfel/src/Surfel_IO.cpp:45-52 | the headerless save as written loads like the corrected save unless the low 16 bits of the surfel count equal the marker |
| SurfelLoad.HeaderlessHeader | src/libSurfel/src/Surfel_IO.cpp:149-158 | without flags both saves read as flags 0 followed by the same body |
| PlyFile.FirstContent | src/libGeomFileUtils/src/PlyFileParser.cpp:23-34 | the lines before the first content line are all empty or comments, and that line is neither |
| PlyFile.NextLine | src/libGeomFileUtils/src/PlyFileParser.cpp:23-34 | the line read is never empty or a comment, unless the input ran out, and it consumes at least that line |
| PlyFile.NextLineSkips | src/libGeomFileUtils/src/PlyFileParser.cpp:23-34 | empty and comment lines are passed over and the next line is returned with what follows it |
| PlyFile.ParseFormat | src/libGeomFileUtils/src/PlyFileParser.cpp:36-70 | a format line is accepted exactly when it has three tokens, the last "1.0" and the middle one of the three encodings; the version becomes 1, ascii sets only the ascii flag, and the binary encodings set both flags |
| PlyFile.ParseProperty | src/libGeomFileUtils/src/PlyFileParser.cpp:82-107 | corrected: a property line is accepted with a valid scalar type, or as a list with an integer count type and five tokens; its name, type and list type are the tokens at their places |
| PlyFile.ParsePropertyAsWritten | src/libGeomFileUtils/src/PlyFileParser.cpp:82-107 | as written: reading past the tokens happens exactly for a three-token list line with a valid count type |
| PlyFile.PropertyAsWrittenAgrees | src/libGeomFileUtils/src/PlyFileParser.cpp:82-107 | wherever the as-written parse stays within the tokens, it agrees with the corrected one |
| PlyFile.ShortListLineReadsPastEnd | src/libGeomFileUtils/src/PlyFileParser.cpp:83-106 | "property list uchar" passes the token-count check and is read past its end; the corrected parse rejects it |
| PlyFile.ParseProperties | src/libGeomFileUtils/src/PlyFileParser.cpp:72-109 | properties are appended after those already recorded, and reading stops at, and puts back, the first line that is no property line |
| PlyFile.ParseCount | src/libGeomFileUtils/src/PlyFileParser.cpp:134 | an element count parses exactly when stoi accepts it, to stoi's value |
| PlyFile.ParseElement | src/libGeomFileUtils/src/PlyFileParser.cpp:120-145 | an element line is accepted only with three tokens, a vertex or face name and a count stoi accepts; the element's properties are recorded and its count replaces the recorded one, nothing else changing |
| PlyFile.ParseElements | src/libGeomFileUtils/src/PlyFileParser.cpp:160-172 | the element loop consumes up to and including "end_header" and changes only the counts and properties |
| PlyFile.ParseHeader | src/libGeomFileUtils/src/PlyFileParser.cpp:147-175 | a header is accepted only if its first content line is "ply"; its version is 1 and it is never both ascii and big-endian |
| PlyFile.TypeNamesAreTokens | src/libGeomFileUtils/src/PlyFileParser.cpp:10-17 | every list count type is also a valid scalar type, and none of them is "list" |
| PlyFile.PropertyRoundTrip | src/libGeomFileUtils/src/PlyFileParser.cpp:72-109 | a property written as a header line reads back as itself |
| PlyFile.PropertiesRoundTrip | src/libGeomFileUtils/src/PlyFileParser.cpp:72-109 | the property lines of a list of properties read back as that list, appended to those already recorded |
| PlyFile.ElementRoundTrip | src/libGeomFileUtils/src/PlyFileParser.cpp:120-145 | an element line followed by its property lines reads back as the element: properties appended, count recorded |
| PlyFile.ElementsEnd | src/libGeomFileUtils/src/PlyFileParser.cpp:163-165 | the element loop stops at "end_header" and leaves what follows |
| PlyFile.ElementsRoundTrip | src/libGeomFileUtils/src/PlyFileParser.cpp:160-172 | the vertex element and then the face element read back, leaving the body lines |
| PlyFile.FormatRoundTrip | src/libGeomFileUtils/src/PlyFileParser.cpp:36-70 | the format line of a header reads back as its encoding and version |
| PlyFile.HeaderRoundTrip | src/libGeomFileUtils/src/PlyFileParser.cpp:147-175 | a written header reads back exactly, leaving the body lines after it |
| PlyFile.BytesForType | src/libGeomFileUtils/src/PlyFileParser.cpp:245-259 | only the integer types have a width, which is 1, 2 or 4; any other type fails |
| PlyFile.BytesForTypeWidths | src/libGeomFileUtils/src/PlyFileParser.cpp:245-259 | signed and unsigned variants have the same width, 1, 2 and 4 bytes for char, short and int, and float and double have none |
| ObjFile.ToSize | src/libGeomFileUtils/src/ObjFileParser.cpp:61-69 | a 0-based index stored in a `size_t` is the index itself when non-negative and wraps by 2^64 when negative |
| ObjFile.ParseIndex | src/libGeomFileUtils/src/ObjFileParser.cpp:61 | an index term is read exactly when `stoi` reads it, with its error otherwise, and the value is one less than the number written |
| ObjFile.CornerAsWritten | src/libGeomFileUtils/src/ObjFileParser.cpp:60-67 | as written: a token fails as out of range exactly when it has no first term or has two terms, since the normal is then read from a third term that is not there |
| ObjFile.CornerOf | src/libGeomFileUtils/src/ObjFileParser.cpp:60-67 | corrected: a token is a corner exactly when its vertex term reads and, with three terms, its normal term reads; the vertex index is the first term less one and the normal index the third term less one, or the vertex index when there is no third term |
| ObjFile.CornerAsWrittenAgrees | src/libGeomFileUtils/src/ObjFileParser.cpp:60-67 | the as-written and corrected readings agree on every token not made of exactly two terms |
| ObjFile.Corners | src/libGeomFileUtils/src/ObjFileParser.cpp:57-72 | a successful read gives one corner per token |
| ObjFile.CornersPointwise | src/libGeomFileUtils/src/ObjFileParser.cpp:57-72 | the tokens read exactly when each reads on its own, and corner i is then the corner of token i |
| ObjFile.CornersFirstError | src/libGeomFileUtils/src/ObjFileParser.cpp:57-72 | a failed read reports the error of a token all of whose predecessors read |
| ObjFile.ParseFace | src/libGeomFileUtils/src/ObjFileParser.cpp:55-73 | a face line reads exactly when every token after the first reads as a corner; it then has one corner per such token, corner i being the reading of token i + 1 |
| ObjFile.CornersAfterFirst | src/libGeomFileUtils/src/ObjFileParser.cpp:57-72 | reading the tokens after the first succeeds exactly when each of them reads, and corner i is then the reading of token i + 1 |
| ObjFile.CornerTerms | src/libGeomFileUtils/src/ObjFileParser.cpp:43-45 | a corner written as "v//vn" splits into its vertex number, an empty term and its normal number, and holds no space |
| ObjFile.CornerRoundTrip | src/libGeomFileUtils/src/ObjFileParser.cpp:57-72 | a corner written as "v//vn", 1-based, reads back as itself in either reading |
| ObjFile.FaceRoundTrip | src/libGeomFileUtils/src/ObjFileParser.cpp:47-74 | a face written as an "f" line of "v//vn" tokens reads back as the same face in either reading |
| ObjFile.VertexTextureReadsPastEnd | src/libGeomFileUtils/src/ObjFileParser.cpp:63-64 | for every "v/vt" token the as-written reading reads past the terms and the corrected reading takes the vertex index as the normal |
| ObjFile.KindAsWritten | src/libGeomFileUtils/src/ObjFileParser.cpp:88-99 | as written: a line is a normal exactly when it starts "vn", a vertex exactly when it starts with 'v' not followed by 'n' (so "vt" and "vp" lines are vertices), and a face exactly when it starts with 'f' |
| ObjFile.KindOf | src/libGeomFileUtils/src/ObjFileParser.cpp:88-99 | corrected: a line is a vertex exactly when the as-written dispatch says so and its second character is not 't' or 'p'; otherwise the kind is the as-written one or no kind at all |
| ObjFile.TextureLineCountedAsVertex | src/libGeomFileUtils/src/ObjFileParser.cpp:88-96 | every "vt" line is a vertex as written and ignored once corrected |
| ObjFile.IndicesSnoc | src/libGeomFileUtils/src/ObjFileParser.cpp:68-69 | handling a face appends its vertex and normal indices after those of the faces before it |
| ObjFile.HandleLine | src/libGeomFileUtils/src/ObjFileParser.cpp:87-99 | handling a line fails exactly when it is a face line whose corners do not read |
| ObjFile.ReadData | src/libGeomFileUtils/src/ObjFileParser.cpp:87-100 | after a successful read the face vertex and normal index lists are the corners' indices of the faces, face after face |
| ObjFile.FacesParseSnoc | src/libGeomFileUtils/src/ObjFileParser.cpp:87-100 | the face lines of a file are well formed exactly when those before the last line are and the last line, if a face, is too |
| ObjFile.ReadDataSucceeds | src/libGeomFileUtils/src/ObjFileParser.cpp:87-100 | the read succeeds exactly when every face line of the file is well formed |
| ObjFile.ReadDataLines | src/libGeomFileUtils/src/ObjFileParser.cpp:87-96 | a successful read holds exactly the vertex lines and exactly the normal lines of the file, in file order |
| ObjFile.ReadDataFaces | src/libGeomFileUtils/src/ObjFileParser.cpp:97-98 | a successful read holds one face per face line, each the parse of its line, in file order |
| ObjFile.AdjacencyChoice | src/libGeomFileUtils/src/ObjFileParser.cpp:281-301 | no adjacency is computed exactly when it is not asked for |
| ObjFile.FaceWiseNeedsNormals | src/libGeomFileUtils/src/ObjFileParser.cpp:281-301 | face-wise points and face adjacency are chosen exactly when adjacency is asked for and the file gives some normals but not one per vertex; the points are the faces or the vertices; a file without normals ignores `face_wise` |
| ObjFile.CyclePairsFollow | src/libGeomFileUtils/src/ObjFileParser.cpp:187-194 | a pair comes from a face exactly when its second vertex follows its first around the face, the last corner followed by the first |
| ObjFile.VertexAdjacencyCount | src/libGeomFileUtils/src/ObjFileParser.cpp:181-196 | vertex adjacency has one entry per face corner |
| ObjFile.VertexAdjacencyPairs | src/libGeomFileUtils/src/ObjFileParser.cpp:181-196 | a pair is in the vertex adjacency exactly when its second vertex follows its first around some face |
| ObjFile.FacePairsClose | src/libGeomFileUtils/src/ObjFileParser.cpp:189-193 | around one face each pair ends where the next begins, so the pairs form a closed walk |
| ObjFile.KeyOf | src/libGeomFileUtils/src/ObjFileParser.cpp:244 | the edge key holds the two vertices, smaller first |
| ObjFile.Occurrences | src/libGeomFileUtils/src/ObjFileParser.cpp:240-247 | every recorded occurrence names a face of the list |
| ObjFile.EdgeToFacesLists | src/libGeomFileUtils/src/ObjFileParser.cpp:239-247 | the edge map has an entry for an edge exactly when some face was recorded against it, and that entry lists exactly those faces in recording order |
| ObjFile.FacesOnMember | src/libGeomFileUtils/src/ObjFileParser.cpp:240-247 | a face is recorded against an edge exactly when it is a face of the list with that edge |
| ObjFile.FacesOnAscending | src/libGeomFileUtils/src/ObjFileParser.cpp:240-247 | the faces recorded against an edge come in face order |
| ObjFile.FacesOnAppend | src/libGeomFileUtils/src/ObjFileParser.cpp:245 | recording two runs of occurrences records against each edge the faces of the first run, then those of the second |
| ObjFile.FacesOnOneFace | src/libGeomFileUtils/src/ObjFileParser.cpp:241-246 | one face's corners record that face against an edge, and only it, exactly when the face has that edge |
| ObjFile.FaceAdjacency | src/libGeomFileUtils/src/ObjFileParser.cpp:250-258 | every adjacent pair of faces lists the smaller face first, and the two faces share an edge that was recorded against both |
| ObjFile.SharedRecorded | src/libGeomFileUtils/src/ObjFileParser.cpp:251-257 | two faces sharing an edge recorded at most twice are the two faces recorded against it, smaller first |
| ObjFile.ShareAdjacent | src/libGeomFileUtils/src/ObjFileParser.cpp:251-257 | two faces sharing an edge recorded at most twice are adjacent, smaller face first |
| ObjFile.FaceAdjacencyShared | src/libGeomFileUtils/src/ObjFileParser.cpp:234-260 | when no edge is recorded more than twice, as the assertion demands, two different faces are adjacent exactly when they share an edge, smaller face first |
| CorrPaths.LessStrictTotal | src/tools/compute_corr_pcl/main.cpp:86-91 | the point ordering is irreflexive and transitive, and two points neither orders are equal, so it is a strict total order fit for a map key |
| CorrPaths.LessAsRank | src/tools/compute_corr_pcl/main.cpp:86-91 | with fewer than `width` points per frame, one point precedes another exactly when its frame-major rank is smaller |
| CorrPaths.Emplace | src/tools/compute_corr_pcl/main.cpp:110 | emplacing adds the key with the given value only when it is absent, keeps every other entry, and adds no other key |
| CorrPaths.Initial | src/tools/compute_corr_pcl/main.cpp:104-111 | there is one path per point of the first frame, path i holding only point i, and exactly those points are recorded, point i against path i |
| CorrPaths.LinkOne | src/tools/compute_corr_pcl/main.cpp:149-161 | a correspondence to a taken point changes nothing; otherwise it fails exactly when the source point has no recorded path or that path is past the end, and on success it marks the target taken and no other point; a link only grows one path at its end |
| CorrPaths.Link | src/tools/compute_corr_pcl/main.cpp:136-162 | linking the correspondences keeps one taken-mark per point of the later frame, only grows paths at their ends, and fails only on a missing tail or path |
| CorrPaths.NewPaths | src/tools/compute_corr_pcl/main.cpp:164-175 | starting new paths keeps every earlier path unchanged and in place |
| CorrPaths.StepFrame | src/tools/compute_corr_pcl/main.cpp:114-176 | one frame step only grows paths at their ends, and fails only on a source point with no tail entry or a tail entry naming no path |
| CorrPaths.Frames | src/tools/compute_corr_pcl/main.cpp:114-176 | all frame steps together only grow paths at their ends, and fail only on a missing tail or path |
| CorrPaths.Build | src/tools/compute_corr_pcl/main.cpp:104-176 | with no clouds there is no first frame and the build fails; otherwise point i of the first frame starts path i, and a failure is a missing tail or path |
| CorrPaths.WellFormedTargets | src/tools/compute_corr_pcl/main.cpp:128-138 | correspondences whose sources ascend and whose targets lie in the later frame have every target in range |
| CorrPaths.GrowsTrans | src/tools/compute_corr_pcl/main.cpp:159 | paths that only grow at their ends, twice over, still only grow at their ends |
| CorrPaths.InitialInv | src/tools/compute_corr_pcl/main.cpp:104-111 | the paths of the first frame meet the invariant: each steps frame by frame, each point is recorded against the path it is on, and the first frame's points are the tails |
| CorrPaths.TailKept | src/tools/compute_corr_pcl/main.cpp:159-160 | appending a new point to one path leaves every other path's tail recorded in place |
| CorrPaths.ExtendShaped | src/tools/compute_corr_pcl/main.cpp:155-159 | appending a next-frame point to a path ending in this frame keeps every path stepping one frame at a time |
| CorrPaths.ExtendIndexed | src/tools/compute_corr_pcl/main.cpp:159-160 | appending a new point keeps every point recorded against its own path |
| CorrPaths.ExtendLocated | src/tools/compute_corr_pcl/main.cpp:159-160 | appending a new point keeps every recorded point on the path it is recorded against |
| CorrPaths.ExtendKeyed | src/tools/compute_corr_pcl/main.cpp:158-161 | taking a target point records that point and nothing else |
| CorrPaths.LinkOneKeeps | src/tools/compute_corr_pcl/main.cpp:149-161 | a correspondence from a point still at the tail of its path never fails, keeps the step invariant, and only grows paths at their ends |
| CorrPaths.LinkKeeps | src/tools/compute_corr_pcl/main.cpp:136-162 | correspondences with ascending sources, as a map gives them, link without error, keep the step invariant, and only grow paths at their ends |
| CorrPaths.ExtendsSourceTail | src/tools/compute_corr_pcl/main.cpp:154-159 | a correspondence to an untaken point appends the target to the path whose tail is the source point, and to no other path |
| CorrPaths.AddPathShape | src/tools/compute_corr_pcl/main.cpp:170-174 | starting a path of one new point keeps the paths stepping frame by frame and every point recorded against its path |
| CorrPaths.AddPathTail | src/tools/compute_corr_pcl/main.cpp:170-174 | starting a path leaves every tail in place |
| CorrPaths.NewPathKeeps | src/tools/compute_corr_pcl/main.cpp:165-175 | starting a path at an untaken point keeps the step invariant with that point now placed |
| CorrPaths.StepDone | src/tools/compute_corr_pcl/main.cpp:114-176 | once every later point is placed the invariant holds for the later frame |
| CorrPaths.NewPathsKeeps | src/tools/compute_corr_pcl/main.cpp:164-175 | placing the untaken points completes the step: the invariant holds for the later frame |
| CorrPaths.NewPathsStart | src/tools/compute_corr_pcl/main.cpp:164-175 | the paths a step adds are single untaken points of the later frame, and every untaken point starts one |
| CorrPaths.StepKeeps | src/tools/compute_corr_pcl/main.cpp:114-176 | one frame step on well-formed correspondences never fails, keeps the invariant, and only grows paths at their ends |
| CorrPaths.FramesUnfold | src/tools/compute_corr_pcl/main.cpp:114-176 | the steps into the later frames are the next step followed by the rest |
| CorrPaths.FramesKeep | src/tools/compute_corr_pcl/main.cpp:114-176 | all frame steps on well-formed correspondences succeed, end with the invariant for the last frame, and only grow paths |
| CorrPaths.BuildSucceeds | src/tools/compute_corr_pcl/main.cpp:104-176 | with at least one cloud and well-formed correspondences the build never throws, ends with the invariant for the last frame, and keeps the first frame's paths as prefixes |
| CorrPaths.FirstFrameStarts | src/tools/compute_corr_pcl/main.cpp:104-111 | point i of the first frame starts path i |
| CorrPaths.PathsConsecutive | src/tools/compute_corr_pcl/main.cpp:114-176 | every built path is non-empty and steps one frame at a time through points of the clouds |
| CorrPaths.EveryPointPlaced | src/tools/compute_corr_pcl/main.cpp:114-176 | every point of every cloud lies on some path |
| CorrPaths.PointsUnique | src/tools/compute_corr_pcl/main.cpp:149-175 | no point lies on two paths, nor twice on one |
| CorrPaths.Written | src/tools/compute_corr_pcl/main.cpp:180-183 | a path is written exactly when it is one of the paths and does not have exactly one point |
| CorrPaths.ItemText | src/tools/compute_corr_pcl/main.cpp:185 | a point is written as non-empty text holding no comma |
| CorrPaths.Output | src/tools/compute_corr_pcl/main.cpp:180-191 | there is one output line per written path |
| CorrPaths.PathLine | src/tools/compute_corr_pcl/main.cpp:184-189 | a written path line splits at its commas back into the text of its points, in order |
| Quad.EdgeTypeValue | src/libQuad/include/Quad/Quad.h:10-13 | red is numbered 1 and blue 2, and no other type has either number |
| Quad.Classify | src/libQuad/src/Quad.cpp:91-117 | a link is blue exactly when its two shifts agree, red exactly when they differ by one along exactly one axis, and dropped exactly when they differ by more than one along an axis or by one along both |
| Quad.ClassifySymmetric | src/libQuad/src/Quad.cpp:91-117 | a link's type is the same seen from either end |
| Quad.AddVertex | src/libQuad/src/Quad.cpp:52-69 | a surfel whose id already has a vertex changes nothing; otherwise a new vertex carrying the id and its place is added and recorded for the id, every other id keeps its vertex, and no edge is added |
| Quad.CollectOne | src/libQuad/src/Quad.cpp:31-70 | handling one link of the surfel graph keeps the output graph valid, undirected as before, and adds no edges |
| Quad.Start | src/libQuad/src/Quad.cpp:23-30 | the output graph starts valid and undirected |
| Quad.Collect | src/libQuad/src/Quad.cpp:31-70 | the first loop keeps the output graph valid and adds no edges to it |
| Quad.EndOfKeptGrows | src/libQuad/src/Quad.cpp:47-48 | after keeping a link, an id is at an end of a kept link exactly when it was before or is one of the new link's ends |
| Quad.AddVerticesKeepIds | src/libQuad/src/Quad.cpp:50-69 | adding the vertices of a newly kept link keeps exactly one vertex per id at an end of a kept link |
| Quad.KeepDistinct | src/libQuad/src/Quad.cpp:41-48 | keeping a link whose pair was counted in neither order keeps the kept pairs distinct as unordered pairs |
| Quad.KeepCounted | src/libQuad/src/Quad.cpp:47-48 | counting a link's pair as it is kept keeps the counted set equal to the kept links' pairs |
| Quad.KeepFrom | src/libQuad/src/Quad.cpp:35-40 | keeping an in-frame link of the graph keeps every kept link an in-frame link of the graph |
| Quad.CollectOneKeeps | src/libQuad/src/Quad.cpp:31-70 | one link keeps the first loop's invariant, only appends to the kept links, and, when in the frame, leaves its pair among the kept ones |
| Quad.CollectKeeps | src/libQuad/src/Quad.cpp:31-70 | the first loop keeps its invariant and leaves every in-frame link's pair, in some order, among the kept links |
| Quad.StartInv | src/libQuad/src/Quad.cpp:23-30 | the empty start meets the first loop's invariant with no link visited |
| Quad.CollectAll | src/libQuad/src/Quad.cpp:31-70 | the whole first loop ends with its invariant and every in-frame link's pair kept |
| Quad.CollectedEnds | src/libQuad/src/Quad.cpp:31-48 | every kept link joins two nodes of the surfel graph |
| Quad.AddLinkStep | src/libQuad/src/Quad.cpp:104-116 | adding the edge of a kept link whose ids no earlier edge joins is never rejected, and leaves the graph valid and the edge fresh for the later links |
| Quad.AddLinks | src/libQuad/src/Quad.cpp:73-118 | the second loop adds no vertex, keeps the edges already present in front, and adds at most one edge per kept link |
| Quad.LinksTail | src/libQuad/src/Quad.cpp:73 | dropping the first kept link keeps the later links mapped, distinct and fresh |
| Quad.AddLinksBuilds | src/libQuad/src/Quad.cpp:73-118 | the second loop never fails on the first loop's links, keeps the vertices, and appends exactly the edges the links become, in order |
| Quad.CollectedReady | src/libQuad/src/Quad.cpp:28-70 | after the first loop the graph is valid, undirected and edgeless, each vertex carries the id it is recorded for, every kept id has a vertex and the kept pairs are distinct |
| Quad.BuildEdgeGraph | src/libQuad/src/Quad.cpp:13-120 | a built quad graph is undirected, has exactly the vertices the first loop made, and at most one edge per kept link |
| Quad.BuildEdges | src/libQuad/src/Quad.cpp:13-120 | building the quad graph never fails; it is undirected, holds the first loop's vertices and exactly the edges the kept links become |
| Quad.PairsKeptOnce | src/libQuad/src/Quad.cpp:31-48 | every in-frame link has its unordered pair of ids kept, every kept link is an in-frame link of the graph, and no two kept links name the same unordered pair |
| Quad.OneVertexPerSurfel | src/libQuad/src/Quad.cpp:50-69 | the built graph has at most one vertex per surfel id, and only for ids at an end of a kept link |
| Quad.EveryKeptIdHasVertex | src/libQuad/src/Quad.cpp:50-69 | every id at an end of a kept link has a vertex in the built graph |
| Quad.CollapseEdges | src/libQuad/src/Quad.cpp:129-133 | `collapse` merges along an edge exactly when it is one of the graph's blue edges, and along no other |
| Quad.LinkEdgesMember | src/libQuad/src/Quad.cpp:73-118 | an edge is among those the kept links become exactly when some kept link becomes it |
| Quad.CollapseAlongAgreeing | src/libQuad/src/Quad.cpp:91-153 | `collapse` merges along an edge of the built graph exactly when some kept link joins that edge's two vertices with agreeing shifts |
| Quad.MergeVertices | src/libQuad/src/Quad.cpp:144 | a merged vertex carries the first id followed by the second, and lies midway between the two locations |
| ViewerConstants.Repeat | java/animesh-tools/animeshtools/src/main/java/org/ddurbin/animesh/viewer/Constants.java:4-6 | a part repeated n times is n vertices, all of that part |
| ViewerConstants.CountOfAppend | java/animesh-tools/animeshtools/src/main/java/org/ddurbin/animesh/viewer/Constants.java:7 | counting a part over two runs of vertices adds their counts |
| ViewerConstants.CountOfRepeat | java/animesh-tools/animeshtools/src/main/java/org/ddurbin/animesh/viewer/Constants.java:4-7 | n vertices of one part hold n of that part and none of any other |
| ViewerConstants.LayoutConsistent | java/animesh-tools/animeshtools/src/main/java/org/ddurbin/animesh/viewer/Constants.java:4-12 | the full-surfel vertex count is the length of the glyph, the normal and tangent counts are its normal and tangent vertices, and the float counts are three per vertex |

## Left out

- Floating point numerics are not modelled: the RoSy and PoSy smoothing, `compute_smoothness`, convergence tests, merge scores, surfel geometry and OBJ/PLY coordinates. They are opaque values or parameters, because the model concerns the discrete bookkeeping around them.
- Randomness is a parameter: the draws of `std::shuffle`, random ids, tangents and offsets, and the random engine itself.
- I/O is not modelled: files, streams and logging (`spdlog`). Readers take the bytes or lines of the file, and writers return them.
- `Graph::remove_edge` (src/libGraph/include/Graph/Graph.h:183-236) is not modelled. It erases from the wrong multimap, and no modelled operation calls it.
- `Graph::add_new_edges`, `collapse_directed_edge`, `collapse_undirected_edge` and `collapse_edge` (Graph.h:238-455) are not modelled. `Quad` models `collapse` only as far as the choice of blue edges to merge along, and the merged vertex.
- `Graph::cycles` and the queue-driven `CycleExtractor::extract_cycles` loop are not modelled. Their helpers are: `cycle_exists`, eligible next nodes, `can_close_cycle`, `mark_edges_used` and `canonicalise_path`.
- SurfelIo.ReadKs: src/libSurfel/src/Surfel_IO.cpp:106-107 calls `k_ij()` and `k_ji()` without a frame index, and :255-256 calls `set_k_ij(x)` and `set_k_ji(x)` with the value alone, while src/libSurfel/include/Surfel/SurfelGraph.h:22,30,48,55 declares only the overloads that take a frame index. The model reads these calls as one pair of rotation indices per edge (`EdgeInfo.k`, written from `SavedEdge.kIj` and `kJi`), which each later call overwrites, so the pair kept is the last one read. It does not tie that pair to `SurfelGraphEdge`'s per-frame stores.
- `CycleExtractor` calls `neighbours(node, true)`, a two-argument overload that src/libGraph/include/Graph/Graph.h does not declare. The one-argument `neighbours` is used in its place.
- The `std::hash<Path>` specialisation (src/libGraph/src/Path.cpp:6) is not modelled. Hash values are an implementation detail of the cycle set.
- `Path`'s vector constructor leaves `m_is_directed` uninitialised. The model's `Path` carries the flag explicitly.
- `GraphNodeSimplifier::simplify`, `select_random_node` and `select_furthest_node` are not modelled. `simplify` has no return statement, and the selections are random or distance based.
- `std::sort` in `generate_new_level_additive` has no defined order among ties. The order in which candidate edges are visited is a parameter.
- Node iteration follows the `std::set` of node pointers, so it is in pointer order. The model walks nodes in ascending handle order.
- Quad.Collect: the source walks `edges()`, which is in pointer-pair (address) order, a property the program does not control. The model walks the edges in the order they were added, so the vertices of the edge graph may be added in a different order.
- Quad.CollapseEdges: the blue edges are chosen in the order the edges were added, not in the pointer-pair order of `edges()`. The set of edges chosen is the same.
- FieldOptimiser.LabelEdges: the edges are labelled in the order they were added, not in the pointer-pair order of `edges()`. The first failure reported may therefore differ when several edges fail.
- SurfelLoad.Save: the edge records are a parameter and are written in the order given. The source writes them in the pointer-pair (address) order of `edges()`, which the program does not control, so the model does not promise that order.
- ViewerConstants.SurfelVertices: Constants.java fixes only how many vertices each part of the glyph has. The order of the parts in the model is a choice, and no lemma depends on it.
- `NodeOptimiser::setup_ssa` handles an `SSA_SELECT_WORST_PERCENTAGE` case, but the enum in SurfelSelectionAlgorithm.h declares only two algorithms. `NodeOptimiser.WithName` maps only those two names. The percentage selection is modelled as a function of its own.
- `FieldOptimiser.NewField` takes the solve mode as a parameter, because the constructor never initialises `m_mode`.
- SurfelGraph.NumFrames: frame indices of 2^32 or more give (largest + 1) mod 2^32. The source stores each larger index truncated in `max_frame_id` and compares later indices with the truncated value, so its result then depends on the node order. src/libSurfel/include/Surfel/PixelInFrame.h, which declares the index's type, is not part of this model.
- MultiResolution.Coarsen: a new level keeps its dual areas per node. The source keys them by surfel id, so nodes that share an id also share one area value, which only weighs the floating point merge. The lookups that then throw are modelled.
- The iteration counters of the optimisers are unbounded integers. When the target is never met, the source's `int` would overflow after 2^31 passes.
- `FieldOptimiser::compute_k_for_edge`, `compute_t_for_edge`, `get_weights` and the per-node passes are floating point and are not modelled. Which frame an edge is labelled in is modelled.
- `MultiResolutionSurfelGraph::propagate`, `compute_mean_normal` and `compute_scores` are floating point and are not modelled.
- `HierarchicalRoSyOptimiser` is modelled for parent mapping and orphan pruning only. Its correspondence loading, tangent propagation, per-level surfel generation and file dumps are I/O or numeric.
- From `Surfel_Compute.cpp` only the two `are_neighbours` overloads are modelled. `graph_from_surfels`, `generate_surfels` and their helpers build surfels from depth maps and cameras.
- `Surfel::get_vertex_tangent_normal_for_frame`, `get_all_data_for_surfel_in_frame` and `transform_surfel_via_frame` are not modelled. They are geometry.
- The values of `FLAG_SMOOTHNESS` and `FLAG_EDGES` are not defined in src/libSurfel/include/Surfel/Surfel_IO.h or any other file of this model. `SurfelIo` takes them to be the distinct bits 1 and 2.
- Byte order is little-endian throughout, and `size_t` is 64 bits wide. These are fixed choices of the host machine.
- A read that runs out of input is an error value. The source instead leaves the stream failed and returns whatever the variable held.
- In `set_t_ij(tvi, read_int(file), read_int(file))` C++ leaves the order of the two reads unspecified. The model reads x before y, as the writer writes them.
- The save of a surfel graph takes the graph as its surfel and edge records in node order. Walking the `std::set` of nodes is not modelled.
- The copy of `get_common_frames` in FieldOptimiser.cpp:357-372 is modelled through `FieldOptimiser.EdgeFrames`. The `AbstractOptimiser` copy is modelled on its own.
- PLY bodies are not modelled: `parse_ascii_*`, `parse_binary_*`, `read_int`, `read_float`, `parse_stream` and `parse_file`. Only the header is.
- OBJ vertex and normal lines are kept as their text. `handle_vertex_line` and `handle_normal_line` parse floats.
- OBJ normal generation (ObjFileParser.cpp:104-121) is not modelled beyond the count of generated normals. Neither are `compute_vertex_normals`, `compute_point_normals_from_vertices`, `compute_point_normals_from_faces`, `parse_file_raw` and `parse_file_raw_with_normals`; they are floating point, or plumbing around the modelled reader.
- The face-adjacency `std::multimap` is modelled as the set of its entries. The vertex adjacency is modelled as the sequence of pairs in insertion order.
- ObjFile.ParseIndex: for the term "-2147483648", `stoi(term) - 1` overflows `int`, which is undefined behaviour in C++. The model subtracts without wrapping.
- In `compute_corr_pcl` the PCL correspondence search is a parameter, and so are the clouds, reduced to their point counts. `unsigned int` indices are unbounded naturals. The `std::map` of correspondences is a list with ascending source points.
- In `Quad` the lattice point of a surfel and the best shift pair of a link are parameters, since they are floating point. Shift differences are unbounded integers.
- `Quad`'s `collapse` mutates the graph while iterating its edges. The model states which edges it merges along, not the mutated graph.
- Quad.h declares `build_edge_graph` with a different return type from its definition in Quad.cpp; the model follows the definition. A negative `frame_index` is not modelled, since frames are naturals.

## Findings

| source | as written | input that shows it | evidently intended | confidence | as-written member | corrected member |
|---|---|---|---|---|---|---|
| src/libSurfel/src/MultiResolutionSurfelGraph.cpp:97-104 | when fewer than `num_levels` levels exist, the loop adds `num_levels - 1` new levels whatever the stack already holds | a stack of two levels and `generate_levels(3)` ends with four levels | top the stack up to `num_levels` levels | not executed | MultiResolution.GenerateLevelsAsWritten, MultiResolution.GenerateLevelsOvershoots | MultiResolution.GenerateLevels |
| src/tools/libTool/src/FieldOptimiser.cpp:426-438 | both guards test `size() > 1`, so several common frames throw "No common frames", and no common frame reads `frames_for_edge[0]` of an empty vector | an edge whose surfels share frames 0 and 1, and one whose surfels share none | no common frame throws "No common frames", and several throw "multi-frame labeling not supported" | not executed | FieldOptimiser.EdgeFrameAsWritten, FieldOptimiser.EdgeFrameAsWrittenMisreports | FieldOptimiser.EdgeFrame |
| src/libSurfel/src/Surfel_IO.cpp:45-51,149-158 | the marker and flags are written only when a flag is set, so a file without flags starts with the surfel count, which the loader tests against the marker | a graph of 43505 (0xa9f1) surfels saved with neither smoothness nor edges | the header is always written, so the marker test cannot mistake the count for it | not executed | SurfelIo.HeaderAsWritten, SurfelIo.MarkerAmbiguity, SurfelLoad.SaveAsWritten | SurfelIo.Header, SurfelLoad.Save |
| src/libSurfel/src/Surfel_IO.cpp:239-245 | an edge record already present is skipped with `continue` before its weight, k and t values are read, so those bytes are read as the next record | an edge section holding the same link twice | read the whole record and then drop it | not executed | SurfelLoad.ReadEdgesAsWritten, SurfelLoad.DuplicateEdgeDesync | SurfelLoad.ReadEdges, SurfelLoad.DuplicateEdgeSkipped |
| src/libGeomFileUtils/src/PlyFileParser.cpp:83-106 | a three-token line whose second token is "list" passes the token-count check and is then read at tokens 3 and 4 | the line "property list uchar" | a list property needs five tokens and a shorter one is rejected | not executed | PlyFile.ParsePropertyAsWritten, PlyFile.ShortListLineReadsPastEnd | PlyFile.ParseProperty |
| src/libGeomFileUtils/src/ObjFileParser.cpp:63-64 | any token with more than one term reads the normal index from `terms[2]` | the face token "1/2", which has two terms | read the normal from the third term only when there is one, and otherwise reuse the vertex index | not executed | ObjFile.CornerAsWritten, ObjFile.VertexTextureReadsPastEnd | ObjFile.CornerOf |
| src/libGeomFileUtils/src/ObjFileParser.cpp:88-96 | every line starting with 'v' that is not "vn" is taken as a vertex | the texture line "vt 0.5 0.5" | only "v" lines are vertices, and "vt" and "vp" lines are ignored | not executed | ObjFile.KindAsWritten, ObjFile.TextureLineCountedAsVertex | ObjFile.KindOf |
| src/libGraph/include/Graph/Graph.h:123-161 | both loops bind the iterator by reference to `range.first`, so after each loop the range is empty and the node's own adjacency entries are never erased | an undirected graph with the edge 0-1: remove node 0, add the same node back, and `neighbours` of it lists 1 | also erase the node's own ranges in both multimaps, so a removed node has no neighbours | not executed | GraphAdjacency.RemoveNodeAsWritten, GraphAdjacency.StaleNeighbours | GraphAdjacency.RemoveNode, GraphAdjacency.RemoveNodeForgetsOnlyNode, GraphAdjacency.ReaddedNodeHasNoNeighbours, GraphAdjacency.RemoveNodeTidiesOthers |
