# Reconfiguration redistricting: a Dafny model

This project models the core of a small redistricting study built on the
`n`-by-`n` grid graph. The study has three parts.

- **`build_graphs.py`** builds the 4-neighbour grid `G`. It then enumerates
  every subgraph of `G` whose components, with the untouched vertices as
  singletons, split the vertex set into `k` connected, induced parts. Finally
  it builds the *reconfiguration redistricting graph* (RRG). Two subgraphs are
  joined in the RRG when one plan arises from the other by moving one
  vertex. That vertex must have a neighbour in both of the districts it
  moves between.
- **`no_diagonals_redistricting_10_by_10_columns.py`** runs a *flip chain* on
  the 4-neighbour grid. It starts from the plan that makes every column a
  district. Each step draws edges until it finds a conflicted one, that is,
  an edge between two districts. One endpoint, chosen by a coin, takes the
  other's district. The proposal is kept when every connected piece of the
  districts has between `n - 1` and `n + 1` cells. Each kept plan is then
  scored by the number of districts that the yellow party carries.
- **`graves-original-altered.py`** runs a *swap chain* on the 8-neighbour
  (king's move) grid. It starts from ten fixed lists of cells. The two
  endpoints of a conflicted edge exchange districts. The proposal is kept
  when every piece has exactly `n` cells. Plans are scored in the same way.

## Modules

| file | module | contents |
|---|---|---|
| `graphs.dfy` | `Graphs` | Edges, graphs as node and edge lists, `connected_components` as a fold of merges, proved equal to the reachability classes |
| `grids.dfy` | `Grids` | The two grid builders, as loops that add edges in the source's order |
| `enumeration.dfy` | `Enumeration` | `create_all_subgraphs_from_graph`: the candidate lists as functions of the offered edges, the loops proved against them, and what the output contains |
| `reconfiguration.dfy` | `Reconfiguration` | `xor_lofl` and `intersect_lofl`, the pairing test, and `create_rrg_from_graph` |
| `districts.dfy` | `Districts` | What both chains share: the conflicted-edge search, deleting conflicted edges, the size test, the party assignment and the seat tally |
| `flip_chain.dfy` | `FlipChain` | The column plan, the flip, and the flip chain's main loop |
| `swap_chain.dfy` | `SwapChain` | The ten-list plan, the swap, and the swap chain's main loop |

How the model represents the source:

- An edge is `Edge(a, b)` with `a < b`. A graph keeps its nodes in
  insertion order, as networkx does, and its edges in the order they were
  added. networkx reports edges node by node instead, which the model does
  not follow (see "Left out").
- A plan, as `create_rrg_from_graph` compares them, is a set of parts.
- A plan of a chain is an `array<int>` of district labels, one per cell.
  The list of kept plans is a `seq<seq<int>>`.
- The random draws of the chains are parameters:
  - each proposal gets a sequence of edge draws for its search loop;
  - the flip chain also gets one coin per draw.

## Model

| member | source | states |
|---|---|---|
| Grids.CreateGridGraph | build_graphs.py:16-54 | The graph holds exactly the edges `(x, y)` with `x < y` between cells one row or one column apart, each once. Every node is an endpoint. For `n >= 2` the nodes are exactly the `n * n` cells. The flip-chain script's copy (lines 37-55) is the same builder. |
| Grids.CreateKingGraph | graves-original-altered.py:38-68 | The graph holds exactly the pairs of distinct cells at most one row and one column apart, each once. Every node is an endpoint. For `n >= 2` the nodes are exactly the cells. |
| Grids.ConnectRookNeighbours | build_graphs.py:46-53 | One pass of the loop body adds exactly the north, south, west and east edges that the row and column guards allow. |
| Grids.ConnectDiagonalNeighbours | graves-original-altered.py:60-67 | One pass adds exactly the four diagonal edges that the guards allow. |
| Grids.BelowIsAdjacent | graves-original-altered.py:39-67 | After the first `i` cells, the edge set is exactly the adjacent pairs whose smaller cell is below `i`. |
| Grids.RookIsKing | graves-original-altered.py:52-59 | Every edge of the 4-neighbour grid is also an edge of the king's graph. |
| Grids.RookEdgeByIndex | build_graphs.py:36-53 | An edge of the grid joins `x` to `x + 1` in the same row, or `x` to `x + n`, and both cells are in range. |
| Enumeration.CreateAllSubgraphs | build_graphs.py:56-118 | A disconnected graph gives no list (lines 82-83). Otherwise the result is exactly the list `Found` of recorded edge lists after every edge has been offered in node order. |
| Enumeration.ConnectedMeansAllReachable | build_graphs.py:82 | The graph is connected (one component) if and only if every vertex reaches every other. |
| Enumeration.ProcessVertices | build_graphs.py:88-117 | The `while` loop over the vertices produces `Found` for the edges offered in node order (`Order`). |
| Enumeration.OfferEdges | build_graphs.py:97-115 | Offering the incident edges of one vertex turns the candidate and recorded lists for the earlier edges into those for the longer edge list. |
| Enumeration.OfferEdge | build_graphs.py:98-113 | One offered edge appends its extensions (candidates that keep at least `k` components) and its records (extensions with exactly `k` components). |
| Enumeration.NextVertex | build_graphs.py:89-117 | Processing the first remaining vertex offers exactly its edges to the vertices already processed. It removes that vertex from the front of the remaining list. |
| Enumeration.RemoveFirstDeletesFirst | build_graphs.py:116 | `vert_left.remove(x)` deletes exactly the first occurrence of `x`. |
| Enumeration.AllEdgesOffered | build_graphs.py:97 | Once every vertex is processed, every edge of `G`, and nothing else, has been offered. |
| Enumeration.KeptSound | build_graphs.py:98-106 | Every candidate is a subsequence of the offered edges. It is either the initial empty list or has at least `k` components. |
| Enumeration.KeptComplete | build_graphs.py:98-106 | Every non-empty subsequence of the offered edges with at least `k` components is a candidate. |
| Enumeration.EnumerationExact | build_graphs.py:97-113 | An edge list is recorded if and only if it is the induced edge list of the components of some non-empty subsequence of the offered edges with exactly `k` components. |
| Enumeration.RecordedAreInducedKPartitions | build_graphs.py:109-113 | Every recorded edge list has exactly `k` components. It holds every edge of `G` inside one of its components and no other edge. |
| Enumeration.EveryKPartitionRecorded | build_graphs.py:56-118 | For every non-empty edge set of `G` with `k` components, the induced edge list of that partition is recorded. |
| Enumeration.NothingForAllSingletons | build_graphs.py:105-113 | When `k` is at least the number of vertices, nothing is recorded, because the empty edge list is never recorded. |
| Enumeration.ClosureSameComponents | build_graphs.py:110-112 | Replacing a subgraph by the edges that `G` induces on its components keeps the components. |
| Graphs.ComponentsAreReachabilityClasses | build_graphs.py:110 | `connected_components` partitions the vertices. Two vertices share a component if and only if one reaches the other. |
| Graphs.NxComponentsWithIsolates | build_graphs.py:145-152 | The components of an edge list plus the untouched vertices as singletons are the components over all of `G`'s vertices. |
| Reconfiguration.LoflAlgebra | build_graphs.py:205-216 | `xor_lofl` and `intersect_lofl` are symmetric. Intersecting each plan with the xor leaves the parts that only that plan has. The xor's size is the sum of those two counts. |
| Reconfiguration.Compare | build_graphs.py:166-184 | The tests at lines 166-184 accept two plans if and only if the second arises from the first by moving one vertex, which has a neighbour in both districts involved. |
| Reconfiguration.ListingDecides | build_graphs.py:169-184 | Whichever order the differing parts are listed in, the pairing test holds if and only if the plans differ by such a move. |
| Reconfiguration.PairingMoves | build_graphs.py:171-184 | A listing that the tests accept is a move of one vertex. |
| Reconfiguration.MoveSizes | build_graphs.py:169 | A move changes exactly two parts on each side, so the xor has four parts, two from each plan. |
| Reconfiguration.MovesSymmetric | build_graphs.py:166-184 | The reverse of a move is a move: the relation the tests decide is symmetric. |
| Reconfiguration.MoveBack | build_graphs.py:171-184 | Moving the vertex back restores the first plan. |
| Reconfiguration.PlanOf | build_graphs.py:145-152 | The plan of a subgraph partitions `G`'s vertices. It is the subgraph's components plus the untouched vertices as singletons. |
| Reconfiguration.ComparePair | build_graphs.py:158-184 | Comparing subgraph `s1` with `s2` answers whether the lists differ and the plan of `s2` is a move away from that of `s1`. |
| Reconfiguration.CompareRow | build_graphs.py:154-188 | The inner loop appends, in order of `vj`, exactly the positions linked to `vi`. |
| Reconfiguration.CreateRrg | build_graphs.py:141-190 | The emitted edge list is `Rrg(G, L)`, the linked position pairs in row order. |
| Reconfiguration.RrgFacts | build_graphs.py:141-190 | `(i, j)` is emitted if and only if subgraphs `i` and `j` differ and their plans are one move apart. The pairs come in ascending order, and each pair's reverse is also emitted. |
| Reconfiguration.RrgLinkedSymmetric | build_graphs.py:158-184 | The RRG relation is symmetric. |
| Reconfiguration.SecondPlanAsWrittenDropsEdge | build_graphs.py:160-165 | As written, comparing the 2x2-grid subgraphs `[(0,1),(2,3)]` and `[(0,1),(0,2)]` drops vertex 3 from the second plan. The xor then has three parts and no pair is emitted, although the plans are one move apart in both directions (see Findings). |
| FlipChain.CreateInitialDistricting | no_diagonals_redistricting_10_by_10_columns.py:73-77 | The new plan has `n * n` cells, and cell `i` is in district `i % n`: its column. |
| FlipChain.ColumnDistricts | no_diagonals_redistricting_10_by_10_columns.py:73-77 | Every label of the column plan lies in `[0, n)`, and every district has exactly `n` cells. |
| FlipChain.ProposeFlip | no_diagonals_redistricting_10_by_10_columns.py:115-131 | The proposal is a fresh copy of the plan in which the endpoint picked by the coin takes the other endpoint's label. |
| FlipChain.FlipChangesOneCell | no_diagonals_redistricting_10_by_10_columns.py:128-131 | A flip along a conflicted edge changes exactly the moved cell, which takes the other endpoint's label. The edge is then no longer conflicted. |
| FlipChain.CheckFlipPlan | no_diagonals_redistricting_10_by_10_columns.py:143-155 | The test answers true if and only if every piece of the districts has between `n - 1` and `n + 1` cells. |
| FlipChain.FlipProposal | no_diagonals_redistricting_10_by_10_columns.py:117-131 | There is no proposal if and only if no draw hits a conflicted edge. Otherwise the proposal has `n * n` cells and is one flip, along a conflicted edge of the listing, from the plan. |
| FlipChain.FlipStep | no_diagonals_redistricting_10_by_10_columns.py:115-163 | The step is stuck if and only if no draw hits a conflicted edge. Otherwise it accepts if and only if the proposal from the first conflicted draw is valid, and an accepted plan is that proposal. A rejected or stuck step keeps the plan. An accepted plan is valid and one flip from the current one. |
| FlipChain.FlipsFrom | no_diagonals_redistricting_10_by_10_columns.py:112-163 | The plans the main loop keeps from proposal `k` on: at most one per remaining proposal, each with `n * n` cells. |
| FlipChain.FlipsFromSound | no_diagonals_redistricting_10_by_10_columns.py:156-163 | Every plan `FlipsFrom` keeps is valid and one flip, along a conflicted edge, from the plan before it. |
| FlipChain.RunFlips | no_diagonals_redistricting_10_by_10_columns.py:112-163 | The loop keeps exactly the plans `FlipsFrom` lists from the start plan, in order, and is stuck exactly when `FlipsFrom` says so. |
| FlipChain.RunFlipChain | no_diagonals_redistricting_10_by_10_columns.py:108-163 | The list is the column plan followed by exactly the plans `FlipsFrom` keeps from it, so it gains at most one plan per proposal. Each later plan is valid and one flip from the plan before it. Every plan has `n * n` labels in `[0, n)`, as the tally needs. |
| FlipChain.FlipsKeepLabels | no_diagonals_redistricting_10_by_10_columns.py:128-131 | Successive flips from a plan with labels in `[0, n)` keep every label in `[0, n)`. |
| Districts.FindConflictedEdge | no_diagonals_redistricting_10_by_10_columns.py:119-127 | The search answers the first draw that hits a conflicted edge; no earlier draw does. If none is found, no draw hits one. The answer is `FirstConflicted` of the draws. The swap chain's search (graves-original-altered.py lines 148-155) is the same, without the coin. |
| Districts.FirstConflicted | no_diagonals_redistricting_10_by_10_columns.py:119-127 | The first draw that hits a conflicted edge, if any: no earlier draw hits one, and there is none exactly when no draw hits one. |
| Districts.DeleteConflictedEdges | no_diagonals_redistricting_10_by_10_columns.py:143-149 | `G2` has the nodes of `G` and exactly the edges of `G` whose endpoints share a district, in their order. |
| Districts.AllSizesWithin | no_diagonals_redistricting_10_by_10_columns.py:151-155 | The loop answers true if and only if every piece has between `lo` and `hi` cells. |
| Districts.PiecesWithinDistricts | no_diagonals_redistricting_10_by_10_columns.py:150 | The pieces partition the cells, and each piece lies inside one district. |
| Districts.CreatePartyAssignment | no_diagonals_redistricting_10_by_10_columns.py:94-98 | Cell `i` is 1 (yellow) if and only if it is in the yellow list, and 0 otherwise. The array has `n * n` cells. |
| Districts.YellowListInGrid | no_diagonals_redistricting_10_by_10_columns.py:95 | Every listed yellow cell lies in the 10-by-10 grid. |
| Districts.CountVotes | no_diagonals_redistricting_10_by_10_columns.py:176-179 | Row `k` of `party_counts` ends with the yellow count of each district of plan `k`. Other rows are unchanged. |
| Districts.YellowVotesCountsYellowCells | no_diagonals_redistricting_10_by_10_columns.py:176-179 | With 0/1 votes, a district's count is the number of its yellow cells. |
| Districts.CountSeats | no_diagonals_redistricting_10_by_10_columns.py:180-182 | `num_yellow_seats[k]` ends with the number of districts of plan `k` whose count exceeds `n / 2`. Other entries are unchanged. |
| Districts.WinsIsStrictMajority | no_diagonals_redistricting_10_by_10_columns.py:181 | `count > n / 2` means `2 * count > n`. For even `n` a tie is not a win. |
| Districts.TallySeats | no_diagonals_redistricting_10_by_10_columns.py:168-182 | Every entry of `party_counts` is the yellow count of its district. Every `num_yellow_seats[k]` is the number of districts plan `k` gives the yellow party. The swap-chain script's tally (lines 194-209) is the same code. |
| SwapChain.ListsAgreeWithPlan | graves-original-altered.py:86-107 | The ten lists each name ten cells, counted from 1. Each list's cells carry its label in the cell-by-cell plan, so no cell is named by two lists. |
| SwapChain.AssignList | graves-original-altered.py:87-106 | One `for` loop sets every cell of its list to the list's label and changes no other cell. |
| SwapChain.AssignLists | graves-original-altered.py:86-106 | After the ten loops, every listed cell carries its list's label. Every unlisted cell keeps its value. |
| SwapChain.CreateInitialDistricting | graves-original-altered.py:86-107 | The new plan has `n * n` cells and every listed cell carries its list's label. Every other cell is 0, and every label lies in `[0, 10)`. |
| SwapChain.ProposeSwap | graves-original-altered.py:144-157 | The proposal is a fresh copy of the plan in which the two endpoints exchange labels. |
| SwapChain.SwapKeepsDistrictSizes | graves-original-altered.py:156-157 | A swap along a conflicted edge changes exactly its two endpoints and keeps the edge conflicted. It keeps the multiset of labels, so every district keeps its size. |
| SwapChain.CheckSwapPlan | graves-original-altered.py:169-181 | The test answers true if and only if every piece of the districts has exactly `n` cells. |
| SwapChain.SwapProposal | graves-original-altered.py:148-157 | There is no proposal if and only if no draw hits a conflicted edge. Otherwise the proposal has `n * n` cells and is one swap, along a conflicted edge of the listing, from the plan. |
| SwapChain.SwapStep | graves-original-altered.py:144-189 | The step is stuck if and only if no draw hits a conflicted edge. Otherwise it accepts if and only if the proposal from the first conflicted draw is valid, and an accepted plan is that proposal. A rejected or stuck step keeps the plan. An accepted plan is valid and one swap from the current one. |
| SwapChain.SwapsFrom | graves-original-altered.py:144-189 | The plans the main loop keeps from proposal `k` on: at most one per remaining proposal, each with `n * n` cells. |
| SwapChain.SwapsFromSound | graves-original-altered.py:182-189 | Every plan `SwapsFrom` keeps is valid and one swap, along a conflicted edge, from the plan before it. |
| SwapChain.RunSwaps | graves-original-altered.py:144-189 | The loop keeps exactly the plans `SwapsFrom` lists from the start plan, in order, and is stuck exactly when `SwapsFrom` says so. |
| SwapChain.RunSwapChain | graves-original-altered.py:138-189 | The list is the ten-list plan followed by exactly the plans `SwapsFrom` keeps from it, so it gains at most one plan per proposal. Each later plan is valid and one swap from the plan before it. Every plan has the district sizes of the first, and labels in `[0, n)`. |
| SwapChain.SwapsKeepSizes | graves-original-altered.py:156-157 | Along plans each one swap from the one before, every plan has the same multiset of labels as the first. |
| SwapChain.SameLabelsLabelled | graves-original-altered.py:205 | A plan with the same multiset of labels as a plan labelled in `[0, n)` is itself labelled in `[0, n)`. |

## Code and description

The model follows the code. Where the code and a plain-language
description of the study differ, the model does what the code does:

- **No deduplication.** The enumerator does not remove duplicates.
  - Different edge subsets that span the same partition each append their
    induced edge list.
  - `EnumerationExact` characterises the recorded lists as a collection, not
    as a duplicate-free list.
- **The empty subgraph.** The empty edge list is never recorded, so
  `k = |V|` yields an empty list (`NothingForAllSingletons`).
- **Dead code.** Lines 114-115 of `build_graphs.py`, which seed an empty
  candidate list, cannot run: the list starts as `[[]]` and only grows.
  The model keeps the branch.
- **Ties.** The comment at line 181 of the flip-chain script (and line 208
  of the swap-chain script) says that ties go to the yellow party. The test
  `count > n / 2` gives ties to the green party (`WinsIsStrictMajority`).

## Left out

- Plotting, printing, the histogram and `spring_layout` have no counterpart.
- `elections_2016GA_final.py` is not part of this model.
- Random draws:
  - `random.randint` calls become parameters: one sequence of edge draws per
    proposal, and one coin per draw for the flip chain.
  - When a search's draws run out, the chains stop and report `stuck`; the
    source would keep drawing.
  - `num_proposals` is the number of draw sequences given.
- Edge order: `list(G.edges())` is the `allEdges` parameter. The model only
  requires its edges to be cells of the plan.
- Sets as tuples: `intersect_lofl` and `xor_lofl` convert parts to tuples
  in CPython set order. The model compares parts as sets, so a part listed
  in two orders counts once.
- numpy's negative-index wrap-around cannot arise: the tally requires every
  label to lie in `[0, n)`, and both chains prove it for their plans.
- `G2` is built by keeping the non-conflicted edges rather than by copying
  `G` and removing the others. The resulting graph has the same nodes and
  edges.
- `n / 2` is compared as Python 2 integer division.
  `WinsIsStrictMajority` shows that it means `2 * count > n`, which is also
  the result under true division.
- SwapChain.CreateInitialDistricting: does not prove that the ten lists
  cover every cell or that each initial district has ten cells. Its
  contract states each list's labels, that unlisted cells stay 0, and the
  label range.
- SwapChain.CreateInitialDistricting and SwapChain.RunSwapChain: require
  `n * n >= 100`. For a smaller grid the source fails with an index error,
  which is not modelled.
- Districts.CreatePartyAssignment: requires `n * n > 99`, the size at which
  the source's fixed yellow list fits.
- Enumeration.CreateAllSubgraphs: each recorded edge list holds the right
  edges, but in the order they were added to `G`, each as `(lo, hi)`. The
  source lists them component by component, in `nx.connected_components`
  order, with the order and orientation of networkx's adjacency. The
  relation `create_rrg_from_graph` builds compares edges as sets, so it
  does not depend on this.
- Enumeration.CreateAllSubgraphs: requires a graph with at least one node.
  On the graph with no nodes, which `create_base_graph_n_by_n(1)` returns,
  `nx.is_connected` raises an exception, which is not modelled.
- `create_party_assignment_n_10` in the swap-chain script is the same code
  as in the flip-chain script and is modelled once.
- `create_rrg_from_graph` is modelled with the isolated vertices of the
  second subgraph added when that subgraph has any (see Findings). The
  as-written test at line 161 is modelled by
  `Reconfiguration.SecondPlanAsWritten`.

## Findings

| source | as written | input that shows it | evidently intended | confidence | as-written member | corrected member |
|---|---|---|---|---|---|---|
| build_graphs.py:161 | The plan of the second subgraph gets its isolated vertices only when the FIRST subgraph has isolated vertices (`len(isolates_g1)`). | The 2x2 grid (`0 1` over `2 3`), `k = 2`, subgraphs `[(0,1),(2,3)]` and `[(0,1),(0,2)]`. Compared from the second, the pair is emitted. Compared from the first, vertex 3 is dropped, the xor has three parts, and the reverse pair is not emitted. Line 223 wraps the list in an undirected `nx.Graph`, so the script's final graph gets the edge either way; only the list `create_rrg_from_graph` returns is asymmetric. | Test `len(isolates_g2)`: both plans are complete, and the emitted relation is symmetric. | not executed | Reconfiguration.SecondPlanAsWrittenDropsEdge | Reconfiguration.RrgFacts |
