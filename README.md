# Degree-sequence realizer and edge-list tools, modelled in Dafny

This project models the graph code of the HSE Applied Graph Theory homework (TypeScript,
`src/graph/`). It covers five things:

- the heuristic `generateSimpleGraphWithDegrees`, which tries to build a simple graph with a
  given degree sequence. It has a greedy phase followed by a repair loop of two-edge
  transfers and one-for-one swaps;
- the degree list and the degree distribution of an adjacency object;
- the edge-list reader `readEdgeList` and the adjacency builders `edgeListToAdjacencyList`
  and `graphToAdjacencyList`;
- the `Graph` class, a map from node id to an insertion-ordered edge set;
- the writer `saveGraphToFile`, which turns an adjacency object into deduplicated
  `u<TAB>v` lines.

Modules, one file each:

- `Collections` (`collections.dfy`): `filter(e => e != x)`, numeric sort, the ascending key
  order of integer-keyed objects, and sums over maps.
- `Text` (`text.dfy`): `trim`, `split`, `join` and decimal notation, with JavaScript's
  semantics.
- `Graphs` (`graph.dfy`): the `Graph` class.
- `Generate` (`generate.dfy`): `generate.ts`.
- `Analysis` (`analysis.dfy`): the degree list and the distribution.
- `Realizer` (`realizer.dfy`): `generateSimpleGraphWithDegrees`.
- `SaveGraph` (`save_graph.dfy`): the collection and join part of `saveGraphToFile`.

How the model represents the source:

- An adjacency object is a `map<nat, seq<int>>`. `for ... in`, `Object.keys` and
  `Object.values` visit integer keys in ascending order.
- Inside the realizer, the object being built always has the keys `0 .. n-1`. It is therefore
  a sequence of lists (`Lists`) that each step reassigns.
- The working copy of the degrees and the list of unsatisfied vertices are sequences.

Behaviour of the code that the model keeps as written:

- Renumbering. The result's vertex `v` gets the `v`-th smallest degree, because the sorted
  copy is used throughout. It does not get the degree of input vertex `v`.
- No shared cursor. `degreesGreaterThanZeroStartingPoint` stays 0, so every turn of the
  greedy phase scans all candidates `n-1, ..., 0`.
- Working-copy limit. A turn stops at the degree it reads from the working copy when the
  turn starts: the target minus the edges the vertex already received from earlier turns.
  The loop compares that number with the full length of the vertex's list.
- No return on realizable degrees. The function never returns for `[2, 2, 2]`, which the
  triangle realizes, or for `[3, 3, 3, 3]`, which the complete graph on four vertices
  realizes. Because of the working-copy limit, the greedy phase leaves vertices 1 and 2
  one short. No round of the repair loop then changes anything, so the loop goes on
  forever. `Realizer.TriangleNeverRealized` and `Realizer.K4NeverRealized` prove this
  for every bound on the rounds.
- Donors not checked. The one-for-one swap does not check that the donors differ from the
  recipients. `Realizer.SwapCanLoop` gives a simple graph on which the swap creates a
  self-loop.
- Swap edge count. A one-for-one swap makes two pushes per recipient and removes one
  edge, so it adds one edge to the total and raises the degree sum by two.
- Scan goes on. After a swap the scan of the donor's list goes on over the updated list.
  A second swap in the same scan is never a safe one, because the first swap made the
  donor a neighbour of `a`.
- Pair choice. The pair chosen is the first listed vertex one short that has a later such
  vertex, together with the last such later vertex.
- Skip after removal. The transfer pass advances its position also after removing the
  visited vertex from the list, so the vertex after it is not visited in that pass.
- No input validation. Nothing rejects negative degrees or an odd degree sum.

## Model

| member | source | states |
|---|---|---|
| Collections.Remove | src/graph/analysis.ts:154 | `filter(e => e != x)` keeps exactly the entries other than `x` and never lengthens the list |
| Collections.RemoveCount | src/graph/analysis.ts:154-155 | the filter drops every occurrence of `x` and nothing else (as multisets), so the length falls by the number of occurrences |
| Collections.RemoveNoDup | src/graph/analysis.ts:154-155 | filtering a list without repeats leaves a list without repeats |
| Collections.RemoveIncreasing | src/graph/analysis.ts:157 | filtering keeps the relative order, so the ascending list of unsatisfied vertices stays strictly increasing |
| Collections.SortAscending | src/graph/analysis.ts:74-75 | the numeric sort returns an ascending permutation of its input (same multiset, same length) |
| Collections.SortAscendingSorted | src/graph/analysis.ts:74-75 | a sequence already in ascending order sorts to itself |
| Collections.AscendingKeys | src/graph/analysis.ts:64 | the enumeration order of an integer-keyed object lists every key exactly once, strictly ascending |
| Collections.IncreasingUnique | src/graph/analysis.ts:26 | two strictly increasing listings of the same keys are equal, so the enumeration order is determined by the key set |
| Collections.KeysInOrder | src/graph/question6.ts:8 | the keys a `for ... in` loop visits: each key of the object once, strictly ascending |
| Collections.AscendingKeysOfRange | src/graph/analysis.ts:117 | an object keyed `0 .. n-1` enumerates its keys as `0, 1, ..., n-1` |
| Text.SpaceEnd | src/graph/generate.ts:21 | the scan for the end of leading white space stops at the first character that is not white space, having passed only white space |
| Text.SpaceStart | src/graph/generate.ts:21 | the scan back for the start of trailing white space stops after the last character that is not white space, having passed only white space |
| Text.Trim | src/graph/generate.ts:21 | `trim()` returns the infix left after dropping all leading and all trailing white space; everything dropped is white space and the result neither starts nor ends with it |
| Text.TrimNoEdgeSpace | src/graph/generate.ts:21 | trimming text that has no white space at either end changes nothing |
| Text.Split | src/graph/generate.ts:24 | `split(sep)` gives at least one piece, no piece holds the separator, and joining the pieces with it gives the text back |
| Text.SplitNoSeparator | src/graph/generate.ts:24 | text without the separator splits into itself alone |
| Text.SplitAtSeparator | src/graph/generate.ts:24 | text made of a separator-free piece, the separator and a rest splits into that piece followed by the pieces of the rest |
| Text.JoinSeparators | src/graph/question6.ts:15 | `join(sep)` of separator-free parts puts exactly one separator between each two parts |
| Text.SplitJoin | src/graph/question6.ts:15 | splitting text joined from separator-free pieces gives the pieces back |
| Text.Decimal | src/graph/question6.ts:11 | the `${n}` of a non-negative integer is a run of digits without leading zero (`"0"` for zero) that `Number` reads back as `n` |
| Graphs.SetAdd | src/graph/graph.ts:27-28 | `Set.add` adds exactly `x` and keeps the set free of repeats, leaves a set that has `x` unchanged, and keeps insertion order |
| Graphs.Linked | src/graph/graph.ts:27-28 | the two `add` calls of `addEdge` keep the node ids |
| Graphs.Graph.constructor | src/graph/graph.ts:11-16 | a new graph (count 0 by default) has nodes `0 .. nodeCount-1` in that order, none for a negative count, all with empty edge sets, and satisfies the store invariant |
| Graphs.Graph.AddNode | src/graph/graph.ts:17-21 | a new id becomes a node with an empty edge set, appended to the key order; an existing id changes nothing |
| Graphs.Graph.AddEdge | src/graph/graph.ts:23-30 | with both nodes present, each is added to the other's edge set; otherwise nothing changes; re-adding an edge changes nothing; the store invariant is kept |
| Graphs.LinkedCoherent | src/graph/graph.ts:23-30 | linking two nodes keeps the edge sets symmetric, duplicate-free and within the nodes, and adds exactly the new pair or self-loop to the count |
| Graphs.LinkedSizeSum | src/graph/graph.ts:27-28 | linking adds two to the sum of edge-set sizes for a new edge, one for a new self-loop, nothing for an existing edge |
| Graphs.LinkedPairs | src/graph/graph.ts:27-28 | a new link between distinct nodes adds exactly its pair, smaller id first |
| Graphs.LinkedLoops | src/graph/graph.ts:27-28 | linking a node to itself makes it a self-loop; linking distinct nodes makes none |
| Graphs.LinkedPresent | src/graph/graph.ts:27-28 | linking nodes that are already adjacent leaves the edge sets as they were |
| Graphs.Graph.GetNeighbors | src/graph/graph.ts:36-42 | the neighbours are the node's edge set in insertion order, without repeats; an unknown id gives none |
| Graphs.Graph.KnownNodes | src/graph/graph.ts:39-41 | the `map(get)`/`filter` pipeline keeps exactly the ids that are nodes, in order, and changes nothing when all are nodes |
| Graphs.Graph.GetEdgeCount | src/graph/graph.ts:44-50 | the sum of edge-set sizes halved is the number of adjacent pairs plus half the number of self-loops, and exactly the number of edges without self-loops |
| Graphs.Graph.GetNodeCount | src/graph/graph.ts:51-53 | the count is the number of distinct node ids |
| Generate.ParseEdgeList | src/graph/generate.ts:20-28 | the reader gives one edge per line of the trimmed text |
| Generate.ReadEdgeList | src/graph/generate.ts:20-28 | the loop over the lines yields exactly the parsed edge list |
| Generate.ParseLines | src/graph/generate.ts:23-26 | each line gives one edge, its first two tab-separated fields read as numbers, in line order |
| Generate.NeighboursStep | src/graph/generate.ts:32-41 | one more edge appends exactly its contribution to every vertex's list (the other end for its first end, then the first end for its second end) and adds its ends to the keys |
| Generate.NeighboursOutside | src/graph/generate.ts:30-43 | a vertex that no edge touches gets an empty list |
| Generate.AppendEdge | src/graph/generate.ts:32-41 | the two appends for one more edge turn the lists of the first `i` edges into those of the first `i+1` |
| Generate.EdgeListToAdjacencyList | src/graph/generate.ts:30-43 | the keys are exactly the endpoints, and each list holds the vertex's neighbours in edge order, repeats and self-loops included |
| Generate.NeighbourMultiplicity | src/graph/generate.ts:30-43 | `y` occurs in the list of `x` once per edge `(x, y)` and once per edge `(y, x)`; a self-loop puts `x` into its own list twice |
| Generate.Handshake | src/graph/generate.ts:30-43 | the list lengths add up to twice the number of edges |
| Generate.GraphToAdjacencyList | src/graph/generate.ts:45-52 | the keys are `0 .. getNodeCount()-1`, and each key maps to the graph's neighbours of that id |
| Analysis.Degrees | src/graph/analysis.ts:63-65 | the degree list has one entry per vertex, and every vertex's list length is among its entries |
| Analysis.DegreesOfRange | src/graph/analysis.ts:63-65 | for an object keyed `0 .. n-1` the degree list has length `n` and entry `v` is the length of `v`'s list |
| Analysis.DegreeCount | src/graph/analysis.ts:63-65 | a degree `d` occurs in the degree list once per vertex of degree `d` |
| Analysis.CountWithDegree | src/graph/analysis.ts:63-65 | over any repeat-free key list, the count of `d` among the degrees is the number of those keys with degree `d` |
| Analysis.TallyStep | src/graph/analysis.ts:26-29 | one more `set(degree, (get(degree) or 0) + 1)` extends the tally of the first `i` degrees to the first `i+1` |
| Analysis.DegreeDistribution | src/graph/analysis.ts:22-31 | the distribution maps each degree to the number of vertices with that degree, holds no zero count, and its counts add up to the number of vertices |
| Analysis.TallyOfKeys | src/graph/analysis.ts:22-31 | a tally of the degrees in key order counts, for each degree, the vertices that have it |
| Realizer.ConnectSimple | src/graph/analysis.ts:98-99 | connecting two distinct non-adjacent vertices keeps the graph simple, appends each to the other's list, and touches no other list |
| Realizer.Transfer | src/graph/analysis.ts:149-155 | the six statements of a transfer keep one list per vertex and change no list but those of `id`, `i` and `k` |
| Realizer.TransferSimple | src/graph/analysis.ts:149-155 | on a simple graph, a transfer at a point the loop accepts keeps it simple: `id` gains `i` and `k`; `i` and `k` keep their degrees, each swapping the other for `id`; no other list changes |
| Realizer.TransferEntries | src/graph/analysis.ts:149-155 | the lists after the six statements of a transfer, written out |
| Realizer.Swap | src/graph/analysis.ts:195-200 | the six statements of a swap keep one list per vertex and change no list but those of `a`, `b`, `da` and `db` |
| Realizer.SwapSimple | src/graph/analysis.ts:195-200 | a safe swap keeps the graph simple: `a` gains `da` and `b` gains `db`; the donors keep their degrees; no other list changes |
| Realizer.SwapEntries | src/graph/analysis.ts:195-200 | the lists after the six statements of a swap between distinct vertices, written out |
| Realizer.SwapCanLoop | src/graph/analysis.ts:189-200 | on a simple four-vertex graph the swap passes every check of the loop and puts `0` into its own list (a self-loop) |
| Realizer.FillNext | src/graph/analysis.ts:92-101 | the visit of one candidate keeps every list within `0 .. n-1`, one list per vertex and one working degree per vertex |
| Realizer.FillFrom | src/graph/analysis.ts:87-103 | the rest of a greedy turn keeps every list within `0 .. n-1`, one list per vertex and one working degree per vertex |
| Realizer.GreedyUpTo | src/graph/analysis.ts:70-115 | the turns of the first `m` vertices, started from `n` empty lists and the sorted degrees, keep every list within `0 .. n-1` and the sizes |
| Realizer.FillConnect | src/graph/analysis.ts:94-101 | connecting an eligible candidate keeps the state of the greedy turn and appends it to the list of `i` |
| Realizer.Unpicked | src/graph/analysis.ts:93-97 | a candidate the turn did not connect keeps its list and its working degree |
| Realizer.FillPick | src/graph/analysis.ts:93-101 | connecting the eligible candidate at position `d` keeps the turn's state: picks descending and all from the visited positions, every passed-over candidate ineligible |
| Realizer.FillSkip | src/graph/analysis.ts:93-97 | passing over an ineligible candidate keeps the turn's state |
| Realizer.TurnLoop | src/graph/analysis.ts:87-103 | the turn's loop keeps its state from candidate to candidate (picks descending, passed-over candidates ineligible) until it runs out of candidates or fills `i`, and the turn function's result is unchanged along the way |
| Realizer.TurnEnds | src/graph/analysis.ts:87-103 | a whole turn ends in a simple graph with descending picks, passing over only ineligible candidates after its last pick, or at all when it ends short |
| Realizer.Turn | src/graph/analysis.ts:86-103 | a whole turn for `i` keeps the graph simple and each working degree plus list length constant; only `i` and vertices with positive working degree gain neighbours; `i`'s new neighbours are descending; every candidate above the last pick, or every candidate when the turn ends short, that was left out is `i`, a neighbour already, or without working degree |
| Realizer.FillVertex | src/graph/analysis.ts:86-103 | the loop of one turn ends with exactly the lists and working copy the turn function gives, its degree read from the working copy at the start of the turn |
| Realizer.GreedyTurn | src/graph/analysis.ts:85-115 | one more turn extends the greedy phase by vertex `i` and keeps the graph simple, within the targets, and the working copy equal to each target minus the degree reached |
| Realizer.Greedy | src/graph/analysis.ts:68-115 | the greedy phase runs the turns of `0, ..., n-1` in order from empty lists; the result is a simple graph with no vertex above its target, and the working copy is each target minus the degree reached |
| Realizer.Unsatisfied | src/graph/analysis.ts:117-119 | the list holds exactly the vertices below their target, strictly ascending |
| Realizer.ShortAmong | src/graph/analysis.ts:117-119 | among the first `m` vertices, the list holds exactly those below their target, strictly ascending |
| Realizer.MovesInRange | src/graph/analysis.ts:149-155 | transfers and swaps keep every list within `0 .. n-1` and the number of lists |
| Realizer.OutsideFrom | src/graph/analysis.ts:144-145 | the scan of a list from position `j` stops at the first entry that is not in the other list, or at the end |
| Realizer.FindMove | src/graph/analysis.ts:142-145 | the donor search returns the first vertex, ascending, that is not a neighbour of `x` and has a neighbour outside `y`'s list, with the first such neighbour; when it returns none, no vertex qualifies |
| Realizer.TryTransfer | src/graph/analysis.ts:141-160 | the search finds exactly the donor and neighbour the donor search names and makes the transfer; when there is none, the graph is unchanged |
| Realizer.TransferGood | src/graph/analysis.ts:149-157 | a transfer to a vertex two or more short keeps the graph simple and within the targets, and the list update keeps the unsatisfied list exact |
| Realizer.Settle | src/graph/analysis.ts:156-157 | after a move, a vertex leaves the list exactly when it has reached its target; no vertex is added |
| Realizer.TransferAt | src/graph/analysis.ts:137-160 | a visit of the transfer pass keeps the state well formed and never adds a vertex to the list |
| Realizer.TransferPassFrom | src/graph/analysis.ts:136-162 | the rest of the transfer pass keeps the state well formed and never adds a vertex to the list |
| Realizer.TransferPass | src/graph/analysis.ts:136-162 | the loop ends in exactly the state the pass function gives (visits in list order, a transfer only at a deficit of two or more, the entry after a removed one skipped); the list never gains a vertex; from a good state it stays good and no list shortens |
| Realizer.LastOneShort | src/graph/analysis.ts:175-180 | the last position from `j` on whose vertex is one short, or `last` when there is none |
| Realizer.PairFrom | src/graph/analysis.ts:170-183 | the pair is the first position one short that has a later one one short, with the last such later position; no pair only when no two positions qualify |
| Realizer.LastShortAfter | src/graph/analysis.ts:175-181 | the inner loop finds exactly the last later position one short, and reports none when there is none |
| Realizer.SelectPair | src/graph/analysis.ts:170-183 | the loops report exactly the pair the pair function gives, with its vertices; no pair only when no two listed vertices are one short |
| Realizer.SwapWellFormed | src/graph/analysis.ts:195-211 | a swap and the list updates after it keep the state well formed |
| Realizer.SwapGood | src/graph/analysis.ts:195-211 | a safe swap for two vertices one short keeps the state good and takes both off the unsatisfied list |
| Realizer.SwapScan | src/graph/analysis.ts:191-212 | a scan of the donor's list makes no swap and changes nothing, or makes its first swap at the first entry outside `b`'s list; without a cut it swaps whenever there is such an entry; the list never gains a vertex |
| Realizer.SwapFrom | src/graph/analysis.ts:189-214 | the donor loop's first swap moves the edge the donor search names; without a cut it swaps whenever there is such an edge; with no swap nothing changes |
| Realizer.ScanOnce | src/graph/analysis.ts:191-212 | when every swap of a scan from a simple graph is safe, it makes at most one and leaves exactly that swap's lists and list updates |
| Realizer.SwapFromOnce | src/graph/analysis.ts:189-214 | the same for the whole donor loop |
| Realizer.SwapFromGood | src/graph/analysis.ts:185-215 | from a good state with both recipients one short, a donor loop whose swaps are all safe and that swaps makes exactly one swap, keeps the state good and takes both recipients off the list |
| Realizer.ScanStep | src/graph/analysis.ts:191-211 | a visit of the scan with visits left goes on from the next position, after the swap when the entry is not a neighbour of `b` |
| Realizer.ScanVisit | src/graph/analysis.ts:192-211 | one visit swaps exactly when the entry is not a neighbour of `b`, logs that swap, and leaves the rest of the scan unchanged |
| Realizer.ScanDonor | src/graph/analysis.ts:191-212 | the scan loop ends in exactly the state, swaps and cut-off the scan function gives, and reports a swap exactly when it made one |
| Realizer.SwapPass | src/graph/analysis.ts:185-215 | the loop ends in exactly the state the donor-loop function gives; its first swap is the first-fit donor pair; without a cut it swaps when some donor pair passes the checks; with no swap nothing changes; when every swap is safe, from a good state with both recipients one short, there is exactly one swap, both leave the list and the state stays good |
| Realizer.Round | src/graph/analysis.ts:123-215 | a round of the repair loop keeps the state well formed and never adds a vertex to the list |
| Realizer.Repair | src/graph/analysis.ts:122-216 | the repair loop keeps the state well formed, never adds a vertex to the list, and logs the swaps of every round after the earlier ones |
| Realizer.Resume | src/graph/analysis.ts:122-216 | the repair loop after a round keeps the state well formed, never adds a vertex to the list, and logs the swaps after those of the round |
| Realizer.RepairStep | src/graph/analysis.ts:122-216 | a repair loop with vertices short and rounds left begins with a round and goes on from its end unless a scan was cut short |
| Realizer.RepairDone | src/graph/analysis.ts:122 | a repair loop with nobody short or no rounds left makes no more swaps |
| Realizer.RepairStuck | src/graph/analysis.ts:122-216 | when a round makes no swap, is not cut short and leaves the lists and the list of short vertices as they were, the repair loop returns that same state after any number of rounds: the loop never ends |
| Realizer.FillConnects | src/graph/analysis.ts:91-101 | a visit whose candidate is not `i`, not yet a neighbour of `i` and has working degree left pushes the edge both ways and lowers both working degrees by one |
| Realizer.OneVisitTurn | src/graph/analysis.ts:85-103 | a turn whose first visit connects a candidate and fills the vertex ends after that visit |
| Realizer.TriangleFirstTurn | src/graph/analysis.ts:85-103 | on `[2, 2, 2]` the turn of vertex 0 takes candidates 2 and 1 and leaves working degrees `[0, 1, 1]` |
| Realizer.TriangleLastTurns | src/graph/analysis.ts:85-103 | on `[2, 2, 2]` vertices 1 and 2 read a working degree of 1, already have one neighbour, and take nothing |
| Realizer.TriangleSorted | src/graph/analysis.ts:74-75 | `[2, 2, 2]` sorts to itself |
| Realizer.TriangleShort | src/graph/analysis.ts:117-119 | after the greedy phase on `[2, 2, 2]` the short vertices are 1 and 2 |
| Realizer.TriangleGreedy | src/graph/analysis.ts:67-119 | the greedy phase on `[2, 2, 2]` gives `[[2, 1], [0], [0]]` with 1 and 2 short |
| Realizer.TriangleRound | src/graph/analysis.ts:123-215 | a round on that result transfers nothing, picks the pair 1 and 2, finds no donor edge and changes nothing |
| Realizer.TriangleNeverRealized | src/graph/analysis.ts:67-216 | the triangle is simple and realizes `[2, 2, 2]`, yet for every bound the repair loop returns the greedy result unchanged, with 1 and 2 short, no swap and no cut |
| Realizer.K4TakesThree | src/graph/analysis.ts:91-101 | on `[3, 3, 3, 3]` the first visit of vertex 0's turn connects 3 |
| Realizer.K4TakesTwo | src/graph/analysis.ts:91-101 | the second visit connects 2 |
| Realizer.K4TakesOne | src/graph/analysis.ts:91-101 | the third visit connects 1 |
| Realizer.K4FirstTurn | src/graph/analysis.ts:85-103 | on `[3, 3, 3, 3]` the turn of vertex 0 takes 3, 2 and 1 and leaves working degrees `[0, 2, 2, 2]` |
| Realizer.K4SecondVisit | src/graph/analysis.ts:91-101 | vertex 1's turn connects 3 |
| Realizer.K4SecondTurn | src/graph/analysis.ts:85-103 | vertex 1 reads a working degree of 2, has 0, takes 3 and stops |
| Realizer.K4ThirdVisit | src/graph/analysis.ts:91-101 | vertex 2's turn connects 3 |
| Realizer.K4ThirdTurn | src/graph/analysis.ts:85-103 | vertex 2 reads a working degree of 2, has 0, takes 3 and stops |
| Realizer.K4Greedy | src/graph/analysis.ts:67-115 | vertex 3 reads a working degree of 0, so the greedy phase on `[3, 3, 3, 3]` gives `[[3, 2, 1], [0, 3], [0, 3], [0, 1, 2]]` |
| Realizer.K4Sorted | src/graph/analysis.ts:74-75 | `[3, 3, 3, 3]` sorts to itself |
| Realizer.K4Short | src/graph/analysis.ts:117-119 | after the greedy phase on `[3, 3, 3, 3]` the short vertices are 1 and 2 |
| Realizer.K4Pair | src/graph/analysis.ts:136-183 | on that result the transfer pass changes nothing and the pair is 1 and 2 |
| Realizer.K4Swaps | src/graph/analysis.ts:184-214 | the donor lists `[0, 3]` hold only neighbours of 2, so the swap pass is cut short with one visit per scan and otherwise swaps nothing |
| Realizer.K4Round | src/graph/analysis.ts:123-215 | a round on that result changes nothing and is cut short exactly when a scan may make only one visit |
| Realizer.K4Start | src/graph/analysis.ts:67-121 | on `[3, 3, 3, 3]` the repair loop starts from the greedy result with 1 and 2 short |
| Realizer.K4NeverRealized | src/graph/analysis.ts:67-216 | the complete graph on four vertices is simple and realizes `[3, 3, 3, 3]`, yet for every bound the repair loop returns the greedy result unchanged, with 1 and 2 short and no swap; it is cut short only when a scan may make one visit |
| Realizer.RepairRound | src/graph/analysis.ts:130-215 | one round ends in exactly the state the round function gives; when its swaps are all safe, a good state stays good |
| Realizer.NextRound | src/graph/analysis.ts:122-216 | one iteration runs a round, counts down the rounds, appends its swaps to the log and keeps to the repair function; with every swap safe, a good state stays good |
| Realizer.RepairLoop | src/graph/analysis.ts:122-216 | the loop ends in exactly the state, swaps and cut-off the repair function gives; with every swap safe, a good state stays good |
| Realizer.AsObject | src/graph/analysis.ts:68-72 | the returned object has exactly the keys `0 .. n-1` |
| Realizer.GoodRealizes | src/graph/analysis.ts:122 | when the repair loop ends with the list empty from a good state, every vertex has exactly its target degree |
| Realizer.GenerateSimpleGraphWithDegrees | src/graph/analysis.ts:67-226 | the result is the greedy phase on the sorted degrees followed by the repair loop; `done` holds exactly when the list emptied without a cut; the list only shrinks; if every logged swap was safe the result is simple, within the sorted targets and the list exact, and if it is also done each vertex `v` has the `v`-th smallest degree |
| Realizer.AllSafeAppend | src/graph/analysis.ts:185-215 | the swaps of two runs are all safe exactly when those of each are |
| Realizer.SortedNonNegative | src/graph/analysis.ts:74 | sorting non-negative degrees gives non-negative degrees |
| Realizer.DegreesOfRealization | src/graph/analysis.ts:63-65 | the degree list of a realization of a non-negative target is the target |
| Realizer.RealizedDegrees | src/graph/analysis.ts:63-65 | reading a realization back with `getDegreesOfAdjacencyList` gives the requested degrees in ascending order, as a permutation of the input |
| SaveGraph.LineRoundTrip | src/graph/question6.ts:11 | a line `${u}\t${v}` holds no line break and reads back as `(u, v)` |
| SaveGraph.Rendered | src/graph/question6.ts:11 | one line per collected pair |
| SaveGraph.RenderedMember | src/graph/question6.ts:11 | a line is among the collected lines exactly when its pair is among the collected pairs |
| SaveGraph.TextLines | src/graph/question6.ts:15 | trimming and splitting the joined lines gives the lines back |
| SaveGraph.TextRoundTrip | src/graph/question6.ts:15 | `readEdgeList` reads the written text back as the written pairs, in order |
| SaveGraph.ExtendOrdered | src/graph/question6.ts:8-14 | appending pairs of the next key keeps the pairs ordered by first vertex |
| SaveGraph.CollectedStep | src/graph/question6.ts:9-12 | one visit of the inner loop keeps what it has built: the earlier pairs, then the new pairs `(u, v)`, `v > u`, in the order of first occurrence in the list, each once |
| SaveGraph.MembersAdd | src/graph/question6.ts:10-11 | visiting an entry above `u` adds its pair to the collected pairs |
| SaveGraph.MembersSkip | src/graph/question6.ts:10-11 | visiting an entry whose pair is there, or that is not above `u`, adds nothing |
| SaveGraph.NewAdd | src/graph/question6.ts:11 | the pair of an entry first seen at the current position extends the new pairs in list order |
| SaveGraph.CollectVisit | src/graph/question6.ts:10-11 | one visit adds the line of `(u, v)` for `v > u` unless the `Set` has it, and keeps lines and pairs in step |
| SaveGraph.CollectFrom | src/graph/question6.ts:9-13 | the inner loop adds exactly the pairs `(u, v)` with `u < v` and `v` in `u`'s list, once each, after the earlier ones, in the order of first occurrence of `v` in the list, with their lines |
| SaveGraph.KeyMembersStep | src/graph/question6.ts:8-13 | the pairs of the next key extend the collected pairs to that key |
| SaveGraph.CollectedKeysStep | src/graph/question6.ts:8-13 | visiting the next key keeps what the outer loop has built |
| SaveGraph.ExtendListOrder | src/graph/question6.ts:8-13 | appending the next key's pairs in list order keeps pairs with the same first vertex in list order |
| SaveGraph.CollectAll | src/graph/question6.ts:8-14 | the two loops leave exactly the pairs `(u, v)` with `u < v` and `v` in the list of `u`, each once, ordered by `u` and then by first occurrence of `v` in `u`'s list, with their lines |
| SaveGraph.CollectedAllKeys | src/graph/question6.ts:8-14 | once every key is visited, the pairs are those of the whole object |
| SaveGraph.SavedText | src/graph/question6.ts:15 | the text is empty exactly when there are no pairs (and then no list holds a larger vertex), and otherwise reads back as the pairs |
| SaveGraph.SaveGraphText | src/graph/question6.ts:6-17 | the text is the joined lines of exactly the pairs `(u, v)` with `u < v` and `v` in the list of `u`, each once, ordered by `u` and, within one `u`, by first occurrence of `v` in its list; it reads back as those pairs and is empty when there are none |

## Left out

- `calcMeanDegree`, `calcStdDevDegree` and `linearRegression`: floating-point statistics outside the modelled core.
- `generateGraphErdosRenyi`: it draws random numbers.
- The `console.log` diagnostics of the realizer (lines 104-114, 123-129 and 217-223): output only. The push at line 113 is overwritten at line 117, so it has no effect on the result.
- File reading and writing, and the top-level script of `question6.ts` (lines 4 and 16-23).
- `Graph.getNode`: it hands out the stored node record itself, and that aliasing is not modelled. `Graphs.Graph.GetNeighbors` returns ids, which is all `graphToAdjacencyList` keeps (`map((node) => node.id)`).
- `Analysis.DegreeDistribution`: the result is a map without order; the insertion order of JavaScript's `Map` is not modelled.
- `Generate.ReadEdgeList`: it requires every trimmed line to start with two tab-separated runs of digits. `Number` accepts more than that: it trims white space around a field (so `"2\r"` reads as 2), reads the empty field as 0, and accepts forms such as `1e3`, `0x1f`, `+5` and `1.5`; anything else gives `NaN`. The model covers digit fields only. For the same reason `SaveGraph.SaveGraphText` claims the round trip only for a non-empty edge set: the empty text reads back as the single edge `[0, undefined]`.
- `Text.Decimal`: for numbers of `10^21` and above JavaScript writes exponent notation, and `Number` loses precision beyond `2^53`; neither limit is modelled.
- `Realizer.GenerateSimpleGraphWithDegrees`: the repair loop need not terminate, so `fuel` bounds its rounds and each donor scan, `done` is true exactly when the unsatisfied list emptied without a cut, and `cut` reports a scan stopped by the bound. It never ends for `[1]`, which no graph realizes. It also never ends for `[2, 2, 2]` or `[3, 3, 3, 3]`, which graphs do realize: `Realizer.TriangleNeverRealized` and `Realizer.K4NeverRealized` show that for these, every bound gives back the greedy result unchanged with vertices 1 and 2 still short. The swaps made are logged in the ghost `moves`. Simplicity and the degree bounds are claimed only when every logged swap is safe (`AllSafe(moves)`). An unsafe swap can create a self-loop or a repeated neighbour. Every swap after the first in one scan is unsafe, because the first one made the donor a neighbour of `a`.
- `Realizer.SwapPass`: after a swap the scan of the donor's list goes on, and nothing shows that it ends. `fuel` bounds it and `cut` reports the cut-off. The pass is stated exactly, through `SwapFrom`, but what it achieves is proved only for its first swap, since a second swap in one pass is never safe (the donor is by then a neighbour of `a`).
- Degrees are integers. Fractional entries, which `sort((a, b) => a - b)` would accept, are not modelled.
- The adjacency object the realizer updates in place is modelled as a sequence of lists that each step reassigns. The source's lists are distinct arrays, so no aliasing is lost.
- `Graphs.Graph.GetEdgeCount`: the result is a real number, because with self-loops `count / 2` can be a half.
- `Collections.AscendingKeys`: JavaScript enumerates integer keys in ascending order only below `2^32 - 1`; larger keys come after them in insertion order. The model takes every key as ascending.
- `Graphs.Graph.constructor`: `nodeCount` is an integer. A fractional count, for which the source's loop creates nodes `0 .. ceil(nodeCount) - 1`, is not modelled.
