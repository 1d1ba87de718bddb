/**
 * The swap chain on the 8-neighbour (king's move) grid: districts start as
 * ten fixed lists of cells; a proposal exchanges the districts of the two
 * endpoints of a conflicted edge; a proposal is kept when every connected
 * piece of the districts has exactly n cells.
 */
module SwapChain {
  import opened Graphs
  import opened Districts

  // ---------------------------------------------------------------------
  // The initial districting: ten fixed lists of cells
  // ---------------------------------------------------------------------

  /** The ten lists of `create_initial_districting`; list `t` names, counting cells from 1, the cells of district `t`. */
  const DistrictLists: seq<seq<int>> := [
    [1, 2, 3, 4, 5, 6, 7, 8, 11, 12],
    [9, 10, 20, 29, 30, 36, 37, 38, 39, 40],
    [13, 14, 15, 16, 17, 18, 19, 26, 27, 28],
    [21, 22, 23, 24, 25, 31, 32, 33, 34, 35],
    [41, 42, 51, 52, 61, 62, 71, 72, 81, 82],
    [43, 44, 45, 46, 47, 48, 49, 59, 53, 54],
    [50, 60, 69, 70, 79, 80, 89, 90, 99, 100],
    [55, 63, 64, 65, 73, 74, 75, 83, 84, 85],
    [56, 57, 58, 66, 67, 68, 77, 78, 88, 98],
    [76, 86, 87, 91, 92, 93, 94, 95, 96, 97]
  ]

  /** The same plan read cell by cell: the label of cells 0 to 99, row by row of the 10 by 10 grid. */
  const InitialPlan: seq<int> :=
    [0, 0, 0, 0, 0, 0, 0, 0, 1, 1] +
    [0, 0, 2, 2, 2, 2, 2, 2, 2, 1] +
    [3, 3, 3, 3, 3, 2, 2, 2, 1, 1] +
    [3, 3, 3, 3, 3, 1, 1, 1, 1, 1] +
    [4, 4, 5, 5, 5, 5, 5, 5, 5, 6] +
    [4, 4, 5, 5, 7, 8, 8, 8, 5, 6] +
    [4, 4, 7, 7, 7, 8, 8, 8, 6, 6] +
    [4, 4, 7, 7, 7, 9, 8, 8, 6, 6] +
    [4, 4, 7, 7, 7, 9, 9, 8, 6, 6] +
    [9, 9, 9, 9, 9, 9, 9, 8, 6, 6]

  /** `plan` gives every cell a list names the label of that list, so no two lists name the same cell. */
  predicate AgreesWith(lists: seq<seq<int>>, plan: seq<int>) {
    forall t, k :: 0 <= t < |lists| && 0 <= k < |lists[t]| ==> 1 <= lists[t][k] <= |plan| && plan[lists[t][k] - 1] == t
  }

  /** Every list holds ten cell numbers between 1 and 100, and the cell-by-cell plan gives each of them its list's label. */
  lemma ListsAgreeWithPlan()
    ensures |DistrictLists| == 10 && |InitialPlan| == 100
    ensures forall t :: 0 <= t < 10 ==> |DistrictLists[t]| == 10
    ensures AgreesWith(DistrictLists, InitialPlan)
  {
    forall t, k | 0 <= t < 10 && 0 <= k < 10
      ensures 1 <= DistrictLists[t][k] <= 100 && InitialPlan[DistrictLists[t][k] - 1] == t
    {
      assert t == 0 || t == 1 || t == 2 || t == 3 || t == 4 || t == 5 || t == 6 || t == 7 || t == 8 || t == 9;
      assert k == 0 || k == 1 || k == 2 || k == 3 || k == 4 || k == 5 || k == 6 || k == 7 || k == 8 || k == 9;
    }
  }

  /** The cell numbered `c` from 0 is named by one of the lists. */
  ghost predicate Listed(lists: seq<seq<int>>, c: int) {
    exists t, k :: 0 <= t < |lists| && 0 <= k < |lists[t]| && lists[t][k] == c + 1
  }

  /** Every cell the lists name (and the plan holds) carries the label of its list. */
  predicate ListsApplied(lists: seq<seq<int>>, d: seq<int>) {
    forall t, k :: 0 <= t < |lists| && 0 <= k < |lists[t]| && 1 <= lists[t][k] <= |d| ==> d[lists[t][k] - 1] == t
  }

  /**
   * One of the loops of lines 87-106: set every cell of list `t` (cells
   * numbered from 1) to `t`. Only cells of that list change.
   */
  method AssignList(districting: array<int>, lists: seq<seq<int>>, t: nat, ghost plan: seq<int>)
    requires AgreesWith(lists, plan) && |plan| <= districting.Length && t < |lists|
    modifies districting
    ensures forall k :: 0 <= k < |lists[t]| ==> districting[lists[t][k] - 1] == t
    ensures forall c :: 0 <= c < districting.Length ==>
      districting[c] == old(districting[c]) || (districting[c] == t && c + 1 in lists[t])
  {
    var cells := lists[t];
    for k := 0 to |cells|
      invariant forall k' :: 0 <= k' < k ==> districting[cells[k'] - 1] == t
      invariant forall c :: 0 <= c < districting.Length ==>
        districting[c] == old(districting[c]) || (districting[c] == t && c + 1 in cells)
    {
      var i := cells[k];
      districting[i - 1] := t;
    }
  }

  /**
   * Lines 87-106: list after list, set the cells of list `t` to `t`.
   * Because the lists agree with one plan, no later list overwrites a cell
   * with another label: every listed cell ends with its own list's label,
   * and every other cell keeps its value.
   */
  method AssignLists(districting: array<int>, lists: seq<seq<int>>, ghost plan: seq<int>)
    requires AgreesWith(lists, plan) && |plan| <= districting.Length
    modifies districting
    ensures ListsApplied(lists, districting[..])
    ensures forall c :: 0 <= c < districting.Length ==>
      if Listed(lists, c) then 0 <= districting[c] < |lists| else districting[c] == old(districting[c])
  {
    for t := 0 to |lists|
      invariant forall t', k :: 0 <= t' < t && 0 <= k < |lists[t']| ==> districting[lists[t'][k] - 1] == t'
      invariant forall c :: 0 <= c < districting.Length ==>
        districting[c] == old(districting[c]) || (Listed(lists, c) && 0 <= districting[c] < |lists|)
    {
      AssignList(districting, lists, t, plan);
      forall c | 0 <= c < districting.Length && c + 1 in lists[t]
        ensures Listed(lists, c)
      {
        var k :| 0 <= k < |lists[t]| && lists[t][k] == c + 1;
      }
    }
  }

  /**
   * The plan of the ten lists on `n * n` cells: every listed cell carries
   * its own list's label, every other cell label 0, and every label lies in
   * `0..9`.
   */
  ghost predicate ListsPlan(n: nat, d: seq<int>) {
    |d| == n * n && ListsApplied(DistrictLists, d) &&
    (forall c :: 0 <= c < n * n && !Listed(DistrictLists, c) ==> d[c] == 0) &&
    (forall c :: 0 <= c < n * n ==> 0 <= d[c] < 10)
  }

  /** Lines 86-107: a plan of `n * n` zeros in which the cells of the ten lists are set to their list's label. */
  method CreateInitialDistricting(n: nat) returns (districting: array<int>)
    requires n * n >= 100
    ensures fresh(districting) && ListsPlan(n, districting[..])
  {
    ListsAgreeWithPlan();
    districting := new int[n * n](_ => 0);
    AssignLists(districting, DistrictLists, InitialPlan);
  }

  // ---------------------------------------------------------------------
  // The proposal
  // ---------------------------------------------------------------------

  /** The plan after the swap along `e`: each endpoint takes the other's label. */
  function SwapOf(d: seq<int>, e: Edge): (d2: seq<int>)
    requires 0 <= e.a < |d| && 0 <= e.b < |d|
    ensures |d2| == |d|
  {
    d[e.a := d[e.b]][e.b := d[e.a]]
  }

  /**
   * A swap along a conflicted edge changes exactly its two endpoints, which
   * exchange labels (so the edge stays conflicted), and it keeps the multiset
   * of labels: every district keeps its number of cells.
   */
  lemma SwapKeepsDistrictSizes(d: seq<int>, e: Edge)
    requires 0 <= e.a < |d| && 0 <= e.b < |d| && Conflicted(d, e)
    ensures SwapOf(d, e)[e.a] == d[e.b] && SwapOf(d, e)[e.b] == d[e.a]
    ensures ChangedCells(d, SwapOf(d, e)) == {e.a, e.b}
    ensures Conflicted(SwapOf(d, e), e)
    ensures multiset(SwapOf(d, e)) == multiset(d)
  {
    var d1 := d[e.a := d[e.b]];
    assert multiset(d1) == multiset(d) - multiset{d[e.a]} + multiset{d[e.b]};
    assert multiset(d1[e.b := d[e.a]]) == multiset(d1) - multiset{d1[e.b]} + multiset{d[e.a]};
  }

  /**
   * Lines 144 and 156-157: a copy of the current plan in which the two
   * endpoints of `e` exchange districts.
   */
  method ProposeSwap(districting: array<int>, e: Edge) returns (proposed: array<int>)
    requires 0 <= e.a < districting.Length && 0 <= e.b < districting.Length
    ensures fresh(proposed)
    ensures proposed[..] == SwapOf(districting[..], e)
  {
    proposed := new int[districting.Length](i reads districting => if 0 <= i < districting.Length then districting[i] else 0);
    var rA, rB := e.a, e.b;
    proposed[rA] := districting[rB];
    proposed[rB] := districting[rA];
  }

  // ---------------------------------------------------------------------
  // The validity test and the chain
  // ---------------------------------------------------------------------

  /** Lines 177-181: every connected piece of the districts has exactly `n` cells. */
  predicate SwapValid(n: nat, g: Graph, d: seq<int>)
    requires EdgesIndexed(g.edges, |d|)
  {
    forall A :: A in Pieces(g, d) ==> |A| == n
  }

  /** Lines 169-181: delete the conflicted edges, take the components, check that each has `n` cells. */
  method CheckSwapPlan(n: nat, g: Graph, proposed: array<int>) returns (proposedPlanValid: bool)
    requires EdgesIndexed(g.edges, proposed.Length)
    ensures proposedPlanValid <==> SwapValid(n, g, proposed[..])
  {
    var g2 := DeleteConflictedEdges(g, proposed);
    var proposedDistricts := Components(NodeSet(g2), g2.edges);
    proposedPlanValid := AllSizesWithin(proposedDistricts, n, n);
  }

  /** `d2` is `d1` swapped along a conflicted edge of the listing. */
  ghost predicate SwapApart(d1: seq<int>, d2: seq<int>, allEdges: seq<Edge>)
    requires EdgesIndexed(allEdges, |d1|)
  {
    exists t :: 0 <= t < |allEdges| && IsSwap(d1, d2, allEdges[t])
  }

  predicate IsSwap(d1: seq<int>, d2: seq<int>, e: Edge)
    requires 0 <= e.a < |d1| && 0 <= e.b < |d1|
  {
    Conflicted(d1, e) && d2 == SwapOf(d1, e)
  }

  /** Plans one swap apart have the same district sizes. */
  lemma SwapApartKeepsSizes(d1: seq<int>, d2: seq<int>, allEdges: seq<Edge>)
    requires EdgesIndexed(allEdges, |d1|) && SwapApart(d1, d2, allEdges)
    ensures multiset(d2) == multiset(d1)
  {
    var t :| 0 <= t < |allEdges| && IsSwap(d1, d2, allEdges[t]);
    SwapKeepsDistrictSizes(d1, allEdges[t]);
  }

  /** Along a list of plans each one swap away from the one before, every plan has the district sizes of the first. */
  lemma {:induction false} SwapsKeepSizes(allEdges: seq<Edge>, h: seq<seq<int>>, k: nat)
    requires forall j :: 0 <= j < |h| ==> EdgesIndexed(allEdges, |h[j]|)
    requires forall j :: 1 <= j < |h| ==> SwapApart(h[j - 1], h[j], allEdges)
    requires k < |h|
    ensures multiset(h[k]) == multiset(h[0])
  {
    if k > 0 {
      SwapsKeepSizes(allEdges, h, k - 1);
      SwapApartKeepsSizes(h[k - 1], h[k], allEdges);
    }
  }

  /** Plans with the same multiset of labels have the same labels: a labelling into `[0, n)` stays one. */
  lemma SameLabelsLabelled(d1: seq<int>, d2: seq<int>, n: nat)
    requires multiset(d1) == multiset(d2) && |d2| == n * n && Labelled(d1, n)
    ensures Labelled(d2, n)
  {
    forall i | 0 <= i < n * n
      ensures 0 <= d2[i] < n
    {
      assert d2[i] in multiset(d1);
    }
  }

  /** A grid of at least 100 cells has a side of at least 10. */
  lemma SideAtLeastTen(n: nat)
    requires n * n >= 100
    ensures n >= 10
  {
    if n < 10 {
      assert false;
    }
  }

  /**
   * The proposal the draws `draws` make from plan `d`: the swap along the
   * first conflicted draw's edge, or `None` when no draw hits a conflicted
   * edge.
   */
  function SwapProposal(d: seq<int>, allEdges: seq<Edge>, draws: seq<int>): (r: Option<seq<int>>)
    requires EdgesIndexed(allEdges, |d|)
    requires forall t :: 0 <= t < |draws| ==> 0 <= draws[t] < |allEdges|
    ensures r.None? <==> forall t :: 0 <= t < |draws| ==> !Conflicted(d, allEdges[draws[t]])
    ensures r.Some? ==> |r.value| == |d| && SwapApart(d, r.value, allEdges)
  {
    match FirstConflicted(d, allEdges, draws)
    case None => None
    case Some(t) =>
      assert IsSwap(d, SwapOf(d, allEdges[draws[t]]), allEdges[draws[t]]);
      Some(SwapOf(d, allEdges[draws[t]]))
  }

  /**
   * The plans the main loop appends from proposal `k` on, starting from plan
   * `d`, when proposal `j` uses the draws `edgeDraws[j]`: a valid proposal is
   * appended and becomes the current plan, an invalid one is dropped. The
   * flag reports a search whose draws ran out, which ends the run.
   */
  function SwapsFrom(n: nat, g: Graph, allEdges: seq<Edge>, d: seq<int>, edgeDraws: seq<seq<int>>, k: nat)
    : (r: (seq<seq<int>>, bool))
    requires EdgesIndexed(g.edges, n * n) && EdgesIndexed(allEdges, n * n) && |d| == n * n
    requires DrawsInRange(|allEdges|, edgeDraws) && k <= |edgeDraws|
    ensures |r.0| <= |edgeDraws| - k && forall j :: 0 <= j < |r.0| ==> |r.0[j]| == n * n
    decreases |edgeDraws| - k
  {
    if k == |edgeDraws| then ([], false)
    else
      match SwapProposal(d, allEdges, edgeDraws[k])
      case None => ([], true)
      case Some(p) =>
        if SwapValid(n, g, p) then
          var r := SwapsFrom(n, g, allEdges, p, edgeDraws, k + 1);
          ([p] + r.0, r.1)
        else
          SwapsFrom(n, g, allEdges, d, edgeDraws, k + 1)
  }

  /** Every plan of `h` after the first is valid and one swap away from the plan before it. */
  ghost predicate SwapLinked(n: nat, g: Graph, allEdges: seq<Edge>, h: seq<seq<int>>)
    requires EdgesIndexed(g.edges, n * n) && EdgesIndexed(allEdges, n * n)
    requires forall k :: 0 <= k < |h| ==> |h[k]| == n * n
  {
    forall k :: 1 <= k < |h| ==> SwapValid(n, g, h[k]) && SwapApart(h[k - 1], h[k], allEdges)
  }

  /** A valid plan one swap from `d` in front of a linked list keeps it linked. */
  lemma SwapLinkedCons(n: nat, g: Graph, allEdges: seq<Edge>, d: seq<int>, h: seq<seq<int>>)
    requires EdgesIndexed(g.edges, n * n) && EdgesIndexed(allEdges, n * n) && |d| == n * n
    requires |h| >= 1 && forall k :: 0 <= k < |h| ==> |h[k]| == n * n
    requires SwapValid(n, g, h[0]) && SwapApart(d, h[0], allEdges) && SwapLinked(n, g, allEdges, h)
    ensures SwapLinked(n, g, allEdges, [d] + h)
  {
    var dh := [d] + h;
    forall k | 1 <= k < |dh|
      ensures SwapValid(n, g, dh[k]) && SwapApart(dh[k - 1], dh[k], allEdges)
    {
      assert dh[k] == h[k - 1];
      if k >= 2 {
        assert dh[k - 1] == h[k - 2];
      }
    }
  }

  /**
   * Every plan `SwapsFrom` appends is valid and one swap, along a conflicted
   * edge, from the plan before it.
   */
  lemma {:induction false} SwapsFromSound(n: nat, g: Graph, allEdges: seq<Edge>, d: seq<int>,
                                          edgeDraws: seq<seq<int>>, k: nat)
    requires EdgesIndexed(g.edges, n * n) && EdgesIndexed(allEdges, n * n) && |d| == n * n
    requires DrawsInRange(|allEdges|, edgeDraws) && k <= |edgeDraws|
    ensures SwapLinked(n, g, allEdges, [d] + SwapsFrom(n, g, allEdges, d, edgeDraws, k).0)
    decreases |edgeDraws| - k
  {
    if k < |edgeDraws| {
      var prop := SwapProposal(d, allEdges, edgeDraws[k]);
      if prop.Some? {
        var p := prop.value;
        if SwapValid(n, g, p) {
          SwapsFromSound(n, g, allEdges, p, edgeDraws, k + 1);
          SwapLinkedCons(n, g, allEdges, d, [p] + SwapsFrom(n, g, allEdges, p, edgeDraws, k + 1).0);
        } else {
          SwapsFromSound(n, g, allEdges, d, edgeDraws, k + 1);
        }
      }
    }
  }

  /**
   * One pass of the main loop on the current plan: search with the draws
   * `draws`, swap along the edge found, test the proposal. When it is valid
   * it becomes the next plan: it is valid and one swap away from the current
   * plan.
   */
  method SwapStep(n: nat, g: Graph, allEdges: seq<Edge>, districting: array<int>, draws: seq<int>)
    returns (next: array<int>, accepted: bool, stuck: bool)
    requires EdgesIndexed(g.edges, n * n) && EdgesIndexed(allEdges, n * n)
    requires forall t :: 0 <= t < |draws| ==> 0 <= draws[t] < |allEdges|
    requires districting.Length == n * n
    ensures next.Length == n * n
    ensures !accepted ==> next == districting
    ensures accepted ==> !stuck && SwapValid(n, g, next[..]) && SwapApart(districting[..], next[..], allEdges)
    ensures stuck <==> SwapProposal(districting[..], allEdges, draws).None?
    ensures !stuck ==> (accepted <==> SwapValid(n, g, SwapProposal(districting[..], allEdges, draws).value))
    ensures accepted ==> next[..] == SwapProposal(districting[..], allEdges, draws).value
  {
    next, accepted := districting, false;
    var found := FindConflictedEdge(districting, allEdges, draws);
    stuck := found.None?;
    if !stuck {
      var edge := allEdges[draws[found.value]];
      var proposed := ProposeSwap(districting, edge);
      var proposedPlanValid := CheckSwapPlan(n, g, proposed);
      if proposedPlanValid {
        assert IsSwap(districting[..], proposed[..], edge);
        next, accepted := proposed, true;
      }
    }
  }

  /**
   * The loop state of `RunSwaps` after `k` proposals: the plans kept so far,
   * followed by what `SwapsFrom` keeps from the current plan `d` on, are the
   * plans `total` lists, and the flag is `total`'s.
   */
  ghost predicate SwapsAhead(n: nat, g: Graph, allEdges: seq<Edge>, edgeDraws: seq<seq<int>>,
                             k: nat, d: seq<int>, appended: seq<seq<int>>, total: (seq<seq<int>>, bool))
  {
    EdgesIndexed(g.edges, n * n) && EdgesIndexed(allEdges, n * n) && |d| == n * n &&
    DrawsInRange(|allEdges|, edgeDraws) && k <= |edgeDraws| &&
    total.0 == appended + SwapsFrom(n, g, allEdges, d, edgeDraws, k).0 &&
    total.1 == SwapsFrom(n, g, allEdges, d, edgeDraws, k).1
  }

  /** One pass of the main loop moves `SwapsAhead` on by one proposal, or ends the run. */
  lemma SwapsAheadStep(n: nat, g: Graph, allEdges: seq<Edge>, edgeDraws: seq<seq<int>>,
                       k: nat, d: seq<int>, appended: seq<seq<int>>, total: (seq<seq<int>>, bool),
                       next: seq<int>, accepted: bool, stuck: bool)
    requires SwapsAhead(n, g, allEdges, edgeDraws, k, d, appended, total) && k < |edgeDraws|
    requires stuck <==> SwapProposal(d, allEdges, edgeDraws[k]).None?
    requires !stuck ==> (accepted <==> SwapValid(n, g, SwapProposal(d, allEdges, edgeDraws[k]).value))
    requires accepted ==> !stuck && next == SwapProposal(d, allEdges, edgeDraws[k]).value
    requires !accepted ==> next == d
    ensures stuck ==> total == (appended, true)
    ensures !stuck ==> SwapsAhead(n, g, allEdges, edgeDraws, k + 1, next,
                                  if accepted then appended + [next] else appended, total)
  {
    if stuck {
      assert appended + [] == appended;
    } else if accepted {
      var rest := SwapsFrom(n, g, allEdges, next, edgeDraws, k + 1).0;
      assert appended + ([next] + rest) == (appended + [next]) + rest;
    }
  }

  /**
   * The main loop from the plan `start`: proposal `k` searches the listing
   * `allEdges` with the draws `edgeDraws[k]`, swaps along the edge found, and
   * keeps the proposal when it is valid. `appended` lists the kept plans in
   * order; `stuck` reports a search whose draws ran out, which ends the run.
   */
  method RunSwaps(n: nat, g: Graph, allEdges: seq<Edge>, start: array<int>, edgeDraws: seq<seq<int>>)
    returns (appended: seq<seq<int>>, stuck: bool)
    requires EdgesIndexed(g.edges, n * n) && EdgesIndexed(allEdges, n * n) && start.Length == n * n
    requires DrawsInRange(|allEdges|, edgeDraws)
    ensures appended == SwapsFrom(n, g, allEdges, start[..], edgeDraws, 0).0
    ensures stuck == SwapsFrom(n, g, allEdges, start[..], edgeDraws, 0).1
  {
    var districting := start;
    appended, stuck := [], false;
    ghost var total := SwapsFrom(n, g, allEdges, start[..], edgeDraws, 0);
    assert appended + total.0 == total.0;
    for k := 0 to |edgeDraws|
      invariant districting.Length == n * n
      invariant !stuck && SwapsAhead(n, g, allEdges, edgeDraws, k, districting[..], appended, total)
    {
      var next, accepted;
      next, accepted, stuck := SwapStep(n, g, allEdges, districting, edgeDraws[k]);
      SwapsAheadStep(n, g, allEdges, edgeDraws, k, districting[..], appended, total, next[..], accepted, stuck);
      if stuck {
        break;
      }
      if accepted {
        districting := next;
        appended := appended + [districting[..]];
      }
    }
    assert appended + [] == appended;
  }

  /**
   * The whole run: the plan list starts with the plan of the ten lists and
   * then holds the plans `RunSwaps` keeps. Every later plan is valid and one
   * swap away from the plan before it, every plan has the district sizes of
   * the first, and every plan labels its cells with districts in `[0, n)`.
   */
  method RunSwapChain(n: nat, g: Graph, allEdges: seq<Edge>, edgeDraws: seq<seq<int>>)
    returns (districtings: seq<seq<int>>, stuck: bool)
    requires n * n >= 100
    requires EdgesIndexed(g.edges, n * n) && EdgesIndexed(allEdges, n * n)
    requires DrawsInRange(|allEdges|, edgeDraws)
    ensures |districtings| >= 1 && forall k :: 0 <= k < |districtings| ==> |districtings[k]| == n * n
    ensures ListsPlan(n, districtings[0])
    ensures (districtings[1..], stuck) == SwapsFrom(n, g, allEdges, districtings[0], edgeDraws, 0)
    ensures forall k :: 1 <= k < |districtings| ==>
      SwapValid(n, g, districtings[k]) && SwapApart(districtings[k - 1], districtings[k], allEdges)
    ensures forall k :: 0 <= k < |districtings| ==> multiset(districtings[k]) == multiset(districtings[0])
    ensures forall k :: 0 <= k < |districtings| ==> Labelled(districtings[k], n)
    ensures |districtings| <= |edgeDraws| + 1
  {
    var districting := CreateInitialDistricting(n);
    var appended;
    appended, stuck := RunSwaps(n, g, allEdges, districting, edgeDraws);
    districtings := [districting[..]] + appended;
    assert districtings[0] == districting[..] && districtings[1..] == appended;
    SwapsFromSound(n, g, allEdges, districtings[0], edgeDraws, 0);
    SideAtLeastTen(n);
    assert Labelled(districtings[0], n);
    forall k | 0 <= k < |districtings|
      ensures multiset(districtings[k]) == multiset(districtings[0]) && Labelled(districtings[k], n)
    {
      SwapsKeepSizes(allEdges, districtings, k);
      SameLabelsLabelled(districtings[0], districtings[k], n);
    }
  }
}
