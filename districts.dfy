/**
 * What the two redistricting chains share. A districting plan is an array
 * that gives every cell of the n-by-n grid the label of its district; a step
 * of either chain searches for a conflicted edge (one whose endpoints lie in
 * different districts), changes the plan along it, and keeps the proposal
 * only when the grid, with its conflicted edges deleted, falls into pieces of
 * the right sizes. After the run, each plan is scored by the number of
 * districts the yellow party carries.
 */
module Districts {
  import opened Graphs

  /** Both endpoints of every edge of `es` are cells of a plan of length `len`. */
  predicate EdgesIndexed(es: seq<Edge>, len: int) {
    forall e :: e in es ==> 0 <= e.a < len && 0 <= e.b < len
  }

  /** Every node of `g` is a cell of a plan of length `len`. */
  predicate NodesIndexed(g: Graph, len: int) {
    forall v :: v in g.nodes ==> 0 <= v < len
  }

  /** The edge joins cells of different districts. */
  predicate Conflicted(d: seq<int>, e: Edge)
    requires 0 <= e.a < |d| && 0 <= e.b < |d|
  {
    d[e.a] != d[e.b]
  }

  /** The cells whose labels differ between two plans of the same length. */
  function ChangedCells(d1: seq<int>, d2: seq<int>): set<int>
    requires |d1| == |d2|
  {
    set i | 0 <= i < |d1| && d1[i] != d2[i]
  }

  // ---------------------------------------------------------------------
  // The search for a conflicted edge
  // ---------------------------------------------------------------------

  /** The draws of every proposal pick positions in a listing of `m` edges. */
  predicate DrawsInRange(m: nat, edgeDraws: seq<seq<int>>) {
    forall k, t :: 0 <= k < |edgeDraws| && 0 <= t < |edgeDraws[k]| ==> 0 <= edgeDraws[k][t] < m
  }

  /**
   * The try number of the first draw whose edge is conflicted under `d`, or
   * `None` when no draw hits a conflicted edge.
   */
  function FirstConflicted(d: seq<int>, allEdges: seq<Edge>, draws: seq<int>): (r: Option<nat>)
    requires EdgesIndexed(allEdges, |d|)
    requires forall k :: 0 <= k < |draws| ==> 0 <= draws[k] < |allEdges|
    ensures r.Some? ==> r.value < |draws| && Conflicted(d, allEdges[draws[r.value]])
    ensures r.Some? ==> forall k :: 0 <= k < r.value ==> !Conflicted(d, allEdges[draws[k]])
    ensures r.None? <==> forall k :: 0 <= k < |draws| ==> !Conflicted(d, allEdges[draws[k]])
    decreases |draws|
  {
    if |draws| == 0 then None
    else
      assert allEdges[draws[0]] in allEdges;
      if Conflicted(d, allEdges[draws[0]]) then Some(0)
      else
        match FirstConflicted(d, allEdges, draws[1..])
        case None => None
        case Some(t) => Some(t + 1)
  }

  /** The first conflicted draw is unique: any search result with its properties is `FirstConflicted`. */
  lemma FirstConflictedUnique(d: seq<int>, allEdges: seq<Edge>, draws: seq<int>, found: Option<nat>)
    requires EdgesIndexed(allEdges, |d|)
    requires forall k :: 0 <= k < |draws| ==> 0 <= draws[k] < |allEdges|
    requires found.Some? ==> found.value < |draws| && Conflicted(d, allEdges[draws[found.value]])
    requires found.Some? ==> forall k :: 0 <= k < found.value ==> !Conflicted(d, allEdges[draws[k]])
    requires found.None? ==> forall k :: 0 <= k < |draws| ==> !Conflicted(d, allEdges[draws[k]])
    ensures found == FirstConflicted(d, allEdges, draws)
  {
  }

  /**
   * The search loop of a proposal: the k-th try looks at the edge
   * `allEdges[draws[k]]`, and the search stops at the first conflicted one and
   * answers its try number. The draws stand for the calls of
   * `random.randint(0, m - 1)`; `None` means they ran out before a
   * conflicted edge came up.
   */
  method FindConflictedEdge(districting: array<int>, allEdges: seq<Edge>, draws: seq<int>)
    returns (found: Option<nat>)
    requires EdgesIndexed(allEdges, districting.Length)
    requires forall k :: 0 <= k < |draws| ==> 0 <= draws[k] < |allEdges|
    ensures found.Some? ==> found.value < |draws| && Conflicted(districting[..], allEdges[draws[found.value]])
    ensures found.Some? ==> forall k :: 0 <= k < found.value ==> !Conflicted(districting[..], allEdges[draws[k]])
    ensures found.None? ==> forall k :: 0 <= k < |draws| ==> !Conflicted(districting[..], allEdges[draws[k]])
    ensures found == FirstConflicted(districting[..], allEdges, draws)
  {
    found := None;
    var conflictedEdgeNotFound := true;
    var k := 0;
    while conflictedEdgeNotFound && k < |draws|
      invariant 0 <= k <= |draws|
      invariant conflictedEdgeNotFound <==> found.None?
      invariant found.None? ==> forall k' :: 0 <= k' < k ==> !Conflicted(districting[..], allEdges[draws[k']])
      invariant found.Some? ==> found.value == k - 1 && Conflicted(districting[..], allEdges[draws[k - 1]])
      invariant found.Some? ==> forall k' :: 0 <= k' < k - 1 ==> !Conflicted(districting[..], allEdges[draws[k']])
    {
      var edge := allEdges[draws[k]];
      assert edge in allEdges;
      var rA, rB := edge.a, edge.b;
      if districting[rA] != districting[rB] {
        conflictedEdgeNotFound := false;
        found := Some(k);
      }
      k := k + 1;
    }
    FirstConflictedUnique(districting[..], allEdges, draws, found);
  }

  // ---------------------------------------------------------------------
  // The validity test
  // ---------------------------------------------------------------------

  /** The edges of `es` that are not conflicted under `d`, in their order. */
  function Kept(d: seq<int>, es: seq<Edge>): (r: seq<Edge>)
    requires EdgesIndexed(es, |d|)
    ensures forall e :: e in r <==> e in es && d[e.a] == d[e.b]
  {
    if es == [] then []
    else
      var last := es[|es| - 1];
      assert last in es;
      Kept(d, es[..|es| - 1]) + (if d[last.a] == d[last.b] then [last] else [])
  }

  /**
   * The copy `G2` of the grid with every conflicted edge removed: the same
   * nodes, and the edges whose endpoints share a district.
   */
  method DeleteConflictedEdges(g: Graph, proposed: array<int>) returns (g2: Graph)
    requires EdgesIndexed(g.edges, proposed.Length)
    ensures g2.nodes == g.nodes
    ensures g2.edges == Kept(proposed[..], g.edges)
  {
    var kept: seq<Edge> := [];
    for t := 0 to |g.edges|
      invariant kept == Kept(proposed[..], g.edges[..t])
    {
      var edge := g.edges[t];
      assert g.edges[..t + 1][..t] == g.edges[..t];
      if proposed[edge.a] == proposed[edge.b] {
        kept := kept + [edge];
      }
    }
    assert g.edges[..|g.edges|] == g.edges;
    g2 := Graph(g.nodes, kept);
  }

  /** `nx.connected_components(G2)`: the pieces the districts fall into once conflicted edges are gone. */
  function Pieces(g: Graph, d: seq<int>): set<set<int>>
    requires EdgesIndexed(g.edges, |d|)
  {
    Components(NodeSet(g), Kept(d, g.edges))
  }

  /** The loop over the pieces: every one of them has between `lo` and `hi` cells. */
  method AllSizesWithin(districts: set<set<int>>, lo: int, hi: int) returns (valid: bool)
    ensures valid <==> forall A :: A in districts ==> lo <= |A| <= hi
  {
    valid := true;
    var rest := districts;
    while rest != {}
      invariant rest <= districts
      invariant valid <==> forall A :: A in districts - rest ==> lo <= |A| <= hi
      decreases |rest|
    {
      var district :| district in rest;
      if |district| < lo || |district| > hi {
        valid := false;
      }
      rest := rest - {district};
    }
  }

  /** Walking along non-conflicted edges never leaves a district. */
  lemma {:induction false} WalkKeepsDistrict(d: seq<int>, es: seq<Edge>, p: seq<int>)
    requires EdgesIndexed(es, |d|) && forall e :: e in es ==> d[e.a] == d[e.b]
    requires IsWalk(es, p) && 0 <= p[0] < |d|
    ensures 0 <= p[|p| - 1] < |d| && d[p[|p| - 1]] == d[p[0]]
    decreases |p|
  {
    if |p| > 1 {
      var q := p[..|p| - 1];
      assert IsWalk(es, q) by {
        forall i | 0 <= i < |q| - 1
          ensures Linked(es, q[i], q[i + 1])
        {
          assert q[i] == p[i] && q[i + 1] == p[i + 1];
        }
      }
      WalkKeepsDistrict(d, es, q);
      assert Linked(es, p[|p| - 2], p[|p| - 1]);
    }
  }

  /**
   * The pieces partition the cells of the grid, and every piece lies inside
   * one district: the validity test measures the connected pieces of the
   * districts.
   */
  lemma PiecesWithinDistricts(g: Graph, d: seq<int>)
    requires ValidGraph(g) && EdgesIndexed(g.edges, |d|) && NodesIndexed(g, |d|)
    ensures IsPartition(Pieces(g, d), NodeSet(g))
    ensures forall A, x, y :: A in Pieces(g, d) && x in A && y in A ==> d[x] == d[y]
  {
    var kept := Kept(d, g.edges);
    assert EdgesWithin(kept, NodeSet(g));
    ComponentsAreReachabilityClasses(NodeSet(g), kept);
    forall A, x, y | A in Pieces(g, d) && x in A && y in A
      ensures d[x] == d[y]
    {
      assert SamePart(Pieces(g, d), x, y);
      var p :| IsWalk(kept, p) && p[0] == x && p[|p| - 1] == y;
      WalkKeepsDistrict(d, kept, p);
    }
  }

  // ---------------------------------------------------------------------
  // The party assignment
  // ---------------------------------------------------------------------

  /** The cells that voted for the yellow party. */
  const YellowList: seq<int> := [2, 3, 4, 5, 6, 7, 19, 20, 22, 23, 24, 28, 29, 31, 32, 35, 36, 37, 40, 41,
                                 47, 49, 50, 54, 59, 60, 62, 63, 64, 66, 70, 72, 79, 80, 84, 85, 89, 93, 98, 99]

  /** Every listed cell lies in the 10-by-10 grid. */
  lemma YellowListInGrid()
    ensures forall k :: 0 <= k < |YellowList| ==> 0 <= YellowList[k] < 100
  {
  }

  /**
   * `create_party_assignment_n_10`: 1 (yellow) on the listed cells, 0 (green)
   * everywhere else. The array has `n * n` cells, so the largest listed cell
   * must fit.
   */
  method CreatePartyAssignment(n: nat) returns (partyAssignment: array<int>)
    requires n * n > 99
    ensures fresh(partyAssignment) && partyAssignment.Length == n * n
    ensures forall i :: 0 <= i < n * n ==> partyAssignment[i] == if i in YellowList then 1 else 0
  {
    partyAssignment := new int[n * n](_ => 0);
    YellowListInGrid();
    for i := 0 to |YellowList|
      invariant forall c :: 0 <= c < n * n ==> partyAssignment[c] == if c in YellowList[..i] then 1 else 0
    {
      assert YellowList[..i + 1] == YellowList[..i] + [YellowList[i]];
      partyAssignment[YellowList[i]] := 1;
    }
    assert YellowList[..|YellowList|] == YellowList;
  }

  // ---------------------------------------------------------------------
  // The seat tally
  // ---------------------------------------------------------------------

  /** Every one of the first `n * n` cells of `plan` carries a district label in `[0, n)`. */
  predicate Labelled(plan: seq<int>, n: nat) {
    |plan| >= n * n && forall i :: 0 <= i < n * n ==> 0 <= plan[i] < n
  }

  /** The sum of `party` over the first `i` cells that `plan` puts in district `j`. */
  function YellowVotes(party: seq<int>, plan: seq<int>, j: int, i: nat): int
    requires i <= |party| && i <= |plan|
  {
    if i == 0 then 0
    else YellowVotes(party, plan, j, i - 1) + (if plan[i - 1] == j then party[i - 1] else 0)
  }

  /** A district is won when its yellow count exceeds `n / 2` (integer division). */
  predicate Wins(n: nat, count: int) {
    count > n / 2
  }

  /** The number of districts among the first `j` that the yellow party wins. */
  function SeatsWon(n: nat, party: seq<int>, plan: seq<int>, j: nat): (seats: nat)
    requires n * n <= |party| && n * n <= |plan|
    ensures seats <= j
  {
    if j == 0 then 0
    else SeatsWon(n, party, plan, j - 1) + (if Wins(n, YellowVotes(party, plan, j - 1, n * n)) then 1 else 0)
  }

  /** With 0/1 votes, a district's count is the number of its yellow cells. */
  lemma {:induction false} YellowVotesCountsYellowCells(party: seq<int>, plan: seq<int>, j: int, i: nat)
    requires i <= |party| && i <= |plan|
    requires forall c :: 0 <= c < i ==> party[c] == 0 || party[c] == 1
    ensures YellowVotes(party, plan, j, i) == |set c | 0 <= c < i && plan[c] == j && party[c] == 1|
  {
    if i > 0 {
      YellowVotesCountsYellowCells(party, plan, j, i - 1);
      var before := set c | 0 <= c < i - 1 && plan[c] == j && party[c] == 1;
      var after := set c | 0 <= c < i && plan[c] == j && party[c] == 1;
      if plan[i - 1] == j && party[i - 1] == 1 {
        assert after == before + {i - 1};
      } else {
        assert after == before;
      }
    }
  }

  /** `count > n / 2` with integer division is a strict majority, `2 * count > n`: a tie is not a win. */
  lemma WinsIsStrictMajority(n: nat, count: int)
    ensures Wins(n, count) <==> 2 * count > n
    ensures n % 2 == 0 ==> !Wins(n, n / 2)
  {
  }

  /** Lines 177-179: adds up the yellow votes of each district of `plan` into row `k` of `partyCounts`. */
  method CountVotes(partyCounts: array2<int>, k: nat, n: nat, partyAssignment: array<int>, plan: seq<int>)
    requires k < partyCounts.Length0 && partyCounts.Length1 == n
    requires partyAssignment.Length >= n * n && Labelled(plan, n)
    requires forall j :: 0 <= j < n ==> partyCounts[k, j] == 0
    modifies partyCounts
    ensures forall j :: 0 <= j < n ==> partyCounts[k, j] == YellowVotes(partyAssignment[..], plan, j, n * n)
    ensures forall k', j :: 0 <= k' < partyCounts.Length0 && k' != k && 0 <= j < n ==>
              partyCounts[k', j] == old(partyCounts[k', j])
  {
    for i := 0 to n * n
      invariant forall j :: 0 <= j < n ==> partyCounts[k, j] == YellowVotes(partyAssignment[..], plan, j, i)
      invariant forall k', j :: 0 <= k' < partyCounts.Length0 && k' != k && 0 <= j < n ==>
                  partyCounts[k', j] == old(partyCounts[k', j])
    {
      var myParty := partyAssignment[i];
      var myDistrict := plan[i];
      partyCounts[k, myDistrict] := partyCounts[k, myDistrict] + myParty;
    }
  }

  /** Lines 180-182: counts the districts of row `k` that the yellow party wins. */
  method CountSeats(numYellowSeats: array<int>, k: nat, partyCounts: array2<int>, n: nat,
                    ghost party: seq<int>, ghost plan: seq<int>)
    requires k < numYellowSeats.Length && numYellowSeats[k] == 0
    requires k < partyCounts.Length0 && partyCounts.Length1 == n
    requires n * n <= |party| && n * n <= |plan|
    requires forall j :: 0 <= j < n ==> partyCounts[k, j] == YellowVotes(party, plan, j, n * n)
    modifies numYellowSeats
    ensures numYellowSeats[k] == SeatsWon(n, party, plan, n)
    ensures forall k' :: 0 <= k' < numYellowSeats.Length && k' != k ==> numYellowSeats[k'] == old(numYellowSeats[k'])
  {
    for j := 0 to n
      invariant numYellowSeats[k] == SeatsWon(n, party, plan, j)
      invariant forall k' :: 0 <= k' < numYellowSeats.Length && k' != k ==> numYellowSeats[k'] == old(numYellowSeats[k'])
    {
      if partyCounts[k, j] > n / 2 {
        numYellowSeats[k] := numYellowSeats[k] + 1;
      }
    }
  }

  /**
   * The tally after the run: `partyCounts[k, j]` is the yellow count of
   * district `j` in plan `k`, and `numYellowSeats[k]` the number of districts
   * plan `k` gives the yellow party.
   */
  method TallySeats(n: nat, partyAssignment: array<int>, districtings: seq<seq<int>>)
    returns (partyCounts: array2<int>, numYellowSeats: array<int>)
    requires partyAssignment.Length >= n * n
    requires forall k :: 0 <= k < |districtings| ==> |districtings[k]| >= n * n
    requires forall k :: 0 <= k < |districtings| ==> Labelled(districtings[k], n)
    ensures fresh(partyCounts) && fresh(numYellowSeats)
    ensures partyCounts.Length0 == |districtings| && partyCounts.Length1 == n
    ensures numYellowSeats.Length == |districtings|
    ensures forall k, j :: 0 <= k < |districtings| && 0 <= j < n ==>
              partyCounts[k, j] == YellowVotes(partyAssignment[..], districtings[k], j, n * n)
    ensures forall k :: 0 <= k < |districtings| ==>
              numYellowSeats[k] == SeatsWon(n, partyAssignment[..], districtings[k], n)
  {
    partyCounts := new int[|districtings|, n]((_, _) => 0);
    numYellowSeats := new int[|districtings|](_ => 0);
    for k := 0 to |districtings|
      invariant forall k', j :: 0 <= k' < k && 0 <= j < n ==>
                  partyCounts[k', j] == YellowVotes(partyAssignment[..], districtings[k'], j, n * n)
      invariant forall k', j :: k <= k' < |districtings| && 0 <= j < n ==> partyCounts[k', j] == 0
      invariant forall k' :: 0 <= k' < k ==> numYellowSeats[k'] == SeatsWon(n, partyAssignment[..], districtings[k'], n)
      invariant forall k' :: k <= k' < |districtings| ==> numYellowSeats[k'] == 0
    {
      CountVotes(partyCounts, k, n, partyAssignment, districtings[k]);
      CountSeats(numYellowSeats, k, partyCounts, n, partyAssignment[..], districtings[k]);
    }
  }
}
