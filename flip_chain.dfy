/**
 * The flip chain on the 4-neighbour grid: districts start as the n columns;
 * a proposal moves one endpoint of a conflicted edge into the other
 * endpoint's district; a proposal is kept when every connected piece of the
 * districts has between n - 1 and n + 1 cells.
 */
module FlipChain {
  import opened Graphs
  import opened Grids
  import opened Districts

  // ---------------------------------------------------------------------
  // The initial districting: one district per column
  // ---------------------------------------------------------------------

  /** `create_initial_districting`: cell `i` goes to the district of its column, `i % n`. */
  method CreateInitialDistricting(n: nat) returns (districting: array<int>)
    ensures fresh(districting) && districting.Length == n * n
    ensures forall i :: 0 <= i < n * n ==> districting[i] == i % n
  {
    districting := new int[n * n](_ => 0);
    for i := 0 to n * n
      invariant forall c :: 0 <= c < i ==> districting[c] == c % n
    {
      SidePositive(n, i);
      var myColumn := i % n;
      districting[i] := myColumn;
    }
  }

  /** The labels `0, 1, ..., m - 1` in order. */
  function Labels(m: nat): (r: seq<int>)
    ensures |r| == m && forall c :: 0 <= c < m ==> r[c] == c
  {
    if m == 0 then [] else Labels(m - 1) + [m - 1]
  }

  /** Each label below `m` occurs once in `Labels(m)`, and no other label occurs. */
  lemma {:induction false} LabelsOnce(m: nat, j: int)
    ensures multiset(Labels(m))[j] == if 0 <= j < m then 1 else 0
  {
    if m > 0 {
      LabelsOnce(m - 1, j);
      var pre := Labels(m - 1);
      assert Labels(m) == pre + [m - 1];
      assert multiset(pre + [m - 1])[j] == multiset(pre)[j] + multiset([m - 1])[j];
    }
  }

  /** Row `r` of the column plan reads `0, 1, ..., n - 1`. */
  lemma ColumnRow(n: nat, d: seq<int>, r: nat)
    requires |d| == n * n && forall i :: 0 <= i < n * n ==> d[i] == i % n
    requires r < n
    ensures n * r + n <= n * n && d[n * r..n * r + n] == Labels(n)
  {
    var base := n * r;
    CellAt(n, r, n - 1);
    var row := d[base..base + n];
    forall c | 0 <= c < n
      ensures row[c] == Labels(n)[c]
    {
      CellAt(n, r, c);
      assert row[c] == d[base + c];
    }
    assert row == Labels(n);
  }

  /** The first `r` rows of the column plan hold `r` cells of every district. */
  lemma {:induction false} ColumnRowsCount(n: nat, d: seq<int>, r: nat, j: int)
    requires |d| == n * n && forall i :: 0 <= i < n * n ==> d[i] == i % n
    requires r <= n && 0 <= j < n
    ensures n * r <= n * n && multiset(d[..n * r])[j] == r
  {
    if r > 0 {
      ColumnRowsCount(n, d, r - 1, j);
      ColumnRow(n, d, r - 1);
      var before := n * (r - 1);
      assert n * r == before + n;
      var done, row := d[..before], d[before..before + n];
      assert d[..n * r] == done + row;
      LabelsOnce(n, j);
      assert multiset(row)[j] == 1;
      assert multiset(done + row)[j] == multiset(done)[j] + multiset(row)[j];
    }
  }

  /** The column plan: every label lies in `[0, n)`, and every district has exactly `n` cells. */
  lemma ColumnDistricts(n: nat, d: seq<int>)
    requires |d| == n * n && forall i :: 0 <= i < n * n ==> d[i] == i % n
    ensures forall i :: 0 <= i < n * n ==> 0 <= d[i] < n
    ensures forall j :: 0 <= j < n ==> multiset(d)[j] == n
  {
    forall i | 0 <= i < n * n
      ensures 0 <= d[i] < n
    {
      SidePositive(n, i);
    }
    forall j | 0 <= j < n
      ensures multiset(d)[j] == n
    {
      ColumnRowsCount(n, d, n, j);
      assert d[..n * n] == d;
    }
  }

  // ---------------------------------------------------------------------
  // The proposal
  // ---------------------------------------------------------------------

  /** The cell the flip moves: `r_a` when the coin is 0, `r_b` otherwise. */
  function Moved(e: Edge, r2: int): int {
    if r2 == 0 then e.a else e.b
  }

  /** The other endpoint, whose district the moved cell joins. */
  function Stays(e: Edge, r2: int): int {
    if r2 == 0 then e.b else e.a
  }

  /** The plan after the flip along `e` with coin `r2`. */
  function FlipOf(d: seq<int>, e: Edge, r2: int): (d2: seq<int>)
    requires 0 <= e.a < |d| && 0 <= e.b < |d|
    ensures |d2| == |d|
  {
    d[Moved(e, r2) := d[Stays(e, r2)]]
  }

  /**
   * A flip along a conflicted edge changes exactly one cell, the moved
   * endpoint, which takes the other endpoint's label, so the edge is no
   * longer conflicted.
   */
  lemma FlipChangesOneCell(d: seq<int>, e: Edge, r2: int)
    requires 0 <= e.a < |d| && 0 <= e.b < |d| && Conflicted(d, e)
    ensures ChangedCells(d, FlipOf(d, e, r2)) == {Moved(e, r2)}
    ensures FlipOf(d, e, r2)[Moved(e, r2)] == d[Stays(e, r2)]
    ensures !Conflicted(FlipOf(d, e, r2), e)
  {
  }

  /**
   * Lines 115 and 128-131: a copy of the current plan in which the chosen
   * endpoint takes the other endpoint's district.
   */
  method ProposeFlip(districting: array<int>, e: Edge, r2: int) returns (proposed: array<int>)
    requires 0 <= e.a < districting.Length && 0 <= e.b < districting.Length
    ensures fresh(proposed)
    ensures proposed[..] == FlipOf(districting[..], e, r2)
  {
    proposed := new int[districting.Length](i reads districting => if 0 <= i < districting.Length then districting[i] else 0);
    var rA, rB := e.a, e.b;
    if r2 == 0 {
      proposed[rA] := districting[rB];
    } else {
      proposed[rB] := districting[rA];
    }
  }

  // ---------------------------------------------------------------------
  // The validity test and the chain
  // ---------------------------------------------------------------------

  /** Lines 150-155: every connected piece of the districts has between `n - 1` and `n + 1` cells. */
  predicate FlipValid(n: nat, g: Graph, d: seq<int>)
    requires EdgesIndexed(g.edges, |d|)
  {
    forall A :: A in Pieces(g, d) ==> n - 1 <= |A| <= n + 1
  }

  /** Lines 143-155: delete the conflicted edges, take the components, check their sizes. */
  method CheckFlipPlan(n: nat, g: Graph, proposed: array<int>) returns (proposedPlanValid: bool)
    requires EdgesIndexed(g.edges, proposed.Length)
    ensures proposedPlanValid <==> FlipValid(n, g, proposed[..])
  {
    var g2 := DeleteConflictedEdges(g, proposed);
    var proposedDistricts := Components(NodeSet(g2), g2.edges);
    proposedPlanValid := AllSizesWithin(proposedDistricts, n - 1, n + 1);
  }

  /** `d2` is `d1` flipped along a conflicted edge of the listing. */
  ghost predicate FlipApart(d1: seq<int>, d2: seq<int>, allEdges: seq<Edge>)
    requires EdgesIndexed(allEdges, |d1|)
  {
    exists t, r2 :: 0 <= t < |allEdges| && IsFlip(d1, d2, allEdges[t], r2)
  }

  predicate IsFlip(d1: seq<int>, d2: seq<int>, e: Edge, r2: int)
    requires 0 <= e.a < |d1| && 0 <= e.b < |d1|
  {
    Conflicted(d1, e) && d2 == FlipOf(d1, e, r2)
  }

  /** A flip copies one cell's label onto its neighbour: a labelling into `[0, n)` stays one. */
  lemma FlipKeepsLabels(n: nat, d1: seq<int>, d2: seq<int>, allEdges: seq<Edge>)
    requires |d1| == n * n && EdgesIndexed(allEdges, n * n)
    requires Labelled(d1, n) && FlipApart(d1, d2, allEdges)
    ensures Labelled(d2, n)
  {
    var t, r2 :| 0 <= t < |allEdges| && IsFlip(d1, d2, allEdges[t], r2);
    assert d2 == d1[Moved(allEdges[t], r2) := d1[Stays(allEdges[t], r2)]];
  }

  /** Every plan of a list of successive flips from a labelling into `[0, n)` is one. */
  lemma {:induction false} FlipsKeepLabels(n: nat, allEdges: seq<Edge>, h: seq<seq<int>>, k: nat)
    requires EdgesIndexed(allEdges, n * n) && forall j :: 0 <= j < |h| ==> |h[j]| == n * n
    requires forall j :: 1 <= j < |h| ==> FlipApart(h[j - 1], h[j], allEdges)
    requires |h| >= 1 && Labelled(h[0], n) && k < |h|
    ensures Labelled(h[k], n)
    decreases k
  {
    if k > 0 {
      FlipsKeepLabels(n, allEdges, h, k - 1);
      FlipKeepsLabels(n, h[k - 1], h[k], allEdges);
    }
  }

  /**
   * The proposal the draws `draws` and coins `coins` make from plan `d`: the
   * flip along the first conflicted draw's edge with that draw's coin, or
   * `None` when no draw hits a conflicted edge.
   */
  function FlipProposal(d: seq<int>, allEdges: seq<Edge>, draws: seq<int>, coins: seq<int>): (r: Option<seq<int>>)
    requires EdgesIndexed(allEdges, |d|)
    requires |coins| == |draws| && forall t :: 0 <= t < |draws| ==> 0 <= draws[t] < |allEdges|
    ensures r.None? <==> forall t :: 0 <= t < |draws| ==> !Conflicted(d, allEdges[draws[t]])
    ensures r.Some? ==> |r.value| == |d| && FlipApart(d, r.value, allEdges)
  {
    match FirstConflicted(d, allEdges, draws)
    case None => None
    case Some(t) =>
      assert IsFlip(d, FlipOf(d, allEdges[draws[t]], coins[t]), allEdges[draws[t]], coins[t]);
      Some(FlipOf(d, allEdges[draws[t]], coins[t]))
  }

  /** Every proposal has one coin per edge draw. */
  predicate CoinsMatch(edgeDraws: seq<seq<int>>, coinDraws: seq<seq<int>>) {
    |coinDraws| == |edgeDraws| && forall k :: 0 <= k < |edgeDraws| ==> |coinDraws[k]| == |edgeDraws[k]|
  }

  /**
   * The plans the main loop appends from proposal `k` on, starting from plan
   * `d`, when proposal `j` uses the draws `edgeDraws[j]` and coins
   * `coinDraws[j]`: a valid proposal is appended and becomes the current
   * plan, an invalid one is dropped. The flag reports a search whose draws
   * ran out, which ends the run.
   */
  function FlipsFrom(n: nat, g: Graph, allEdges: seq<Edge>, d: seq<int>,
                     edgeDraws: seq<seq<int>>, coinDraws: seq<seq<int>>, k: nat): (r: (seq<seq<int>>, bool))
    requires EdgesIndexed(g.edges, n * n) && EdgesIndexed(allEdges, n * n) && |d| == n * n
    requires CoinsMatch(edgeDraws, coinDraws) && DrawsInRange(|allEdges|, edgeDraws) && k <= |edgeDraws|
    ensures |r.0| <= |edgeDraws| - k && forall j :: 0 <= j < |r.0| ==> |r.0[j]| == n * n
    decreases |edgeDraws| - k
  {
    if k == |edgeDraws| then ([], false)
    else
      match FlipProposal(d, allEdges, edgeDraws[k], coinDraws[k])
      case None => ([], true)
      case Some(p) =>
        if FlipValid(n, g, p) then
          var r := FlipsFrom(n, g, allEdges, p, edgeDraws, coinDraws, k + 1);
          ([p] + r.0, r.1)
        else
          FlipsFrom(n, g, allEdges, d, edgeDraws, coinDraws, k + 1)
  }

  /** Every plan of `h` after the first is valid and one flip away from the plan before it. */
  ghost predicate FlipLinked(n: nat, g: Graph, allEdges: seq<Edge>, h: seq<seq<int>>)
    requires EdgesIndexed(g.edges, n * n) && EdgesIndexed(allEdges, n * n)
    requires forall k :: 0 <= k < |h| ==> |h[k]| == n * n
  {
    forall k :: 1 <= k < |h| ==> FlipValid(n, g, h[k]) && FlipApart(h[k - 1], h[k], allEdges)
  }

  /** A valid plan one flip from `d` in front of a linked list keeps it linked. */
  lemma FlipLinkedCons(n: nat, g: Graph, allEdges: seq<Edge>, d: seq<int>, h: seq<seq<int>>)
    requires EdgesIndexed(g.edges, n * n) && EdgesIndexed(allEdges, n * n) && |d| == n * n
    requires |h| >= 1 && forall k :: 0 <= k < |h| ==> |h[k]| == n * n
    requires FlipValid(n, g, h[0]) && FlipApart(d, h[0], allEdges) && FlipLinked(n, g, allEdges, h)
    ensures FlipLinked(n, g, allEdges, [d] + h)
  {
    var dh := [d] + h;
    forall k | 1 <= k < |dh|
      ensures FlipValid(n, g, dh[k]) && FlipApart(dh[k - 1], dh[k], allEdges)
    {
      assert dh[k] == h[k - 1];
      if k >= 2 {
        assert dh[k - 1] == h[k - 2];
      }
    }
  }

  /**
   * Every plan `FlipsFrom` appends is valid and one flip, along a conflicted
   * edge, from the plan before it.
   */
  lemma {:induction false} FlipsFromSound(n: nat, g: Graph, allEdges: seq<Edge>, d: seq<int>,
                                          edgeDraws: seq<seq<int>>, coinDraws: seq<seq<int>>, k: nat)
    requires EdgesIndexed(g.edges, n * n) && EdgesIndexed(allEdges, n * n) && |d| == n * n
    requires CoinsMatch(edgeDraws, coinDraws) && DrawsInRange(|allEdges|, edgeDraws) && k <= |edgeDraws|
    ensures FlipLinked(n, g, allEdges, [d] + FlipsFrom(n, g, allEdges, d, edgeDraws, coinDraws, k).0)
    decreases |edgeDraws| - k
  {
    if k < |edgeDraws| {
      var prop := FlipProposal(d, allEdges, edgeDraws[k], coinDraws[k]);
      if prop.Some? {
        var p := prop.value;
        if FlipValid(n, g, p) {
          FlipsFromSound(n, g, allEdges, p, edgeDraws, coinDraws, k + 1);
          FlipLinkedCons(n, g, allEdges, d, [p] + FlipsFrom(n, g, allEdges, p, edgeDraws, coinDraws, k + 1).0);
        } else {
          FlipsFromSound(n, g, allEdges, d, edgeDraws, coinDraws, k + 1);
        }
      }
    }
  }

  /**
   * One pass of the main loop on the current plan: search with the draws
   * `draws` (and the coins `coins`), flip along the edge found, test the
   * proposal. When it is valid it becomes the next plan: it is valid and one
   * flip away from the current plan.
   */
  method FlipStep(n: nat, g: Graph, allEdges: seq<Edge>, districting: array<int>, draws: seq<int>, coins: seq<int>)
    returns (next: array<int>, accepted: bool, stuck: bool)
    requires EdgesIndexed(g.edges, n * n) && EdgesIndexed(allEdges, n * n)
    requires |coins| == |draws| && forall t :: 0 <= t < |draws| ==> 0 <= draws[t] < |allEdges|
    requires districting.Length == n * n
    ensures next.Length == n * n
    ensures !accepted ==> next == districting
    ensures accepted ==> !stuck && FlipValid(n, g, next[..]) && FlipApart(districting[..], next[..], allEdges)
    ensures stuck <==> FlipProposal(districting[..], allEdges, draws, coins).None?
    ensures !stuck ==> (accepted <==> FlipValid(n, g, FlipProposal(districting[..], allEdges, draws, coins).value))
    ensures accepted ==> next[..] == FlipProposal(districting[..], allEdges, draws, coins).value
  {
    next, accepted := districting, false;
    var found := FindConflictedEdge(districting, allEdges, draws);
    stuck := found.None?;
    if !stuck {
      var t := found.value;
      var edge := allEdges[draws[t]];
      var r2 := coins[t];
      var proposed := ProposeFlip(districting, edge, r2);
      var proposedPlanValid := CheckFlipPlan(n, g, proposed);
      if proposedPlanValid {
        assert IsFlip(districting[..], proposed[..], edge, r2);
        next, accepted := proposed, true;
      }
    }
  }

  /**
   * The loop state of `RunFlips` after `k` proposals: the plans kept so far,
   * followed by what `FlipsFrom` keeps from the current plan `d` on, are the
   * plans `total` lists, and the flag is `total`'s.
   */
  ghost predicate FlipsAhead(n: nat, g: Graph, allEdges: seq<Edge>, edgeDraws: seq<seq<int>>, coinDraws: seq<seq<int>>,
                             k: nat, d: seq<int>, appended: seq<seq<int>>, total: (seq<seq<int>>, bool))
  {
    EdgesIndexed(g.edges, n * n) && EdgesIndexed(allEdges, n * n) && |d| == n * n &&
    CoinsMatch(edgeDraws, coinDraws) && DrawsInRange(|allEdges|, edgeDraws) && k <= |edgeDraws| &&
    total.0 == appended + FlipsFrom(n, g, allEdges, d, edgeDraws, coinDraws, k).0 &&
    total.1 == FlipsFrom(n, g, allEdges, d, edgeDraws, coinDraws, k).1
  }

  /** One pass of the main loop moves `FlipsAhead` on by one proposal, or ends the run. */
  lemma FlipsAheadStep(n: nat, g: Graph, allEdges: seq<Edge>, edgeDraws: seq<seq<int>>, coinDraws: seq<seq<int>>,
                       k: nat, d: seq<int>, appended: seq<seq<int>>, total: (seq<seq<int>>, bool),
                       next: seq<int>, accepted: bool, stuck: bool)
    requires FlipsAhead(n, g, allEdges, edgeDraws, coinDraws, k, d, appended, total) && k < |edgeDraws|
    requires stuck <==> FlipProposal(d, allEdges, edgeDraws[k], coinDraws[k]).None?
    requires !stuck ==> (accepted <==> FlipValid(n, g, FlipProposal(d, allEdges, edgeDraws[k], coinDraws[k]).value))
    requires accepted ==> !stuck && next == FlipProposal(d, allEdges, edgeDraws[k], coinDraws[k]).value
    requires !accepted ==> next == d
    ensures stuck ==> total == (appended, true)
    ensures !stuck ==> FlipsAhead(n, g, allEdges, edgeDraws, coinDraws, k + 1, next,
                                  if accepted then appended + [next] else appended, total)
  {
    if stuck {
      assert appended + [] == appended;
    } else if accepted {
      var rest := FlipsFrom(n, g, allEdges, next, edgeDraws, coinDraws, k + 1).0;
      assert appended + ([next] + rest) == (appended + [next]) + rest;
    }
  }

  /**
   * The main loop from the plan `start`: proposal `k` searches the listing
   * `allEdges` with the draws `edgeDraws[k]` (and the coins `coinDraws[k]`),
   * flips along the edge found, and keeps the proposal when it is valid.
   * `appended` lists the kept plans in order; `stuck` reports a search whose
   * draws ran out, which ends the run.
   */
  method RunFlips(n: nat, g: Graph, allEdges: seq<Edge>, start: array<int>, edgeDraws: seq<seq<int>>, coinDraws: seq<seq<int>>)
    returns (appended: seq<seq<int>>, stuck: bool)
    requires EdgesIndexed(g.edges, n * n) && EdgesIndexed(allEdges, n * n) && start.Length == n * n
    requires CoinsMatch(edgeDraws, coinDraws) && DrawsInRange(|allEdges|, edgeDraws)
    ensures appended == FlipsFrom(n, g, allEdges, start[..], edgeDraws, coinDraws, 0).0
    ensures stuck == FlipsFrom(n, g, allEdges, start[..], edgeDraws, coinDraws, 0).1
  {
    var districting := start;
    appended, stuck := [], false;
    ghost var total := FlipsFrom(n, g, allEdges, start[..], edgeDraws, coinDraws, 0);
    assert appended + total.0 == total.0;
    for k := 0 to |edgeDraws|
      invariant districting.Length == n * n
      invariant !stuck && FlipsAhead(n, g, allEdges, edgeDraws, coinDraws, k, districting[..], appended, total)
    {
      var next, accepted;
      next, accepted, stuck := FlipStep(n, g, allEdges, districting, edgeDraws[k], coinDraws[k]);
      FlipsAheadStep(n, g, allEdges, edgeDraws, coinDraws, k, districting[..], appended, total, next[..], accepted, stuck);
      if stuck {
        break;
      }
      if accepted {
        districting := next;
        appended := appended + [districting[..]];
      }
    }
    assert appended + [] == appended;
  }

  /**
   * The whole run: the plan list starts with the column plan and then holds
   * the plans `RunFlips` keeps. Every later plan is valid and one flip away
   * from the plan before it, and every plan labels its cells with districts
   * in `[0, n)`, as the seat tally needs.
   */
  method RunFlipChain(n: nat, g: Graph, allEdges: seq<Edge>, edgeDraws: seq<seq<int>>, coinDraws: seq<seq<int>>)
    returns (districtings: seq<seq<int>>, stuck: bool)
    requires EdgesIndexed(g.edges, n * n) && EdgesIndexed(allEdges, n * n)
    requires CoinsMatch(edgeDraws, coinDraws) && DrawsInRange(|allEdges|, edgeDraws)
    ensures |districtings| >= 1 && forall k :: 0 <= k < |districtings| ==> |districtings[k]| == n * n
    ensures forall i :: 0 <= i < n * n ==> districtings[0][i] == i % n
    ensures (districtings[1..], stuck) == FlipsFrom(n, g, allEdges, districtings[0], edgeDraws, coinDraws, 0)
    ensures forall k :: 1 <= k < |districtings| ==>
      FlipValid(n, g, districtings[k]) && FlipApart(districtings[k - 1], districtings[k], allEdges)
    ensures forall k :: 0 <= k < |districtings| ==> Labelled(districtings[k], n)
    ensures |districtings| <= |edgeDraws| + 1
  {
    var districting := CreateInitialDistricting(n);
    var appended;
    appended, stuck := RunFlips(n, g, allEdges, districting, edgeDraws, coinDraws);
    districtings := [districting[..]] + appended;
    assert districtings[0] == districting[..] && districtings[1..] == appended;
    FlipsFromSound(n, g, allEdges, districtings[0], edgeDraws, coinDraws, 0);
    ColumnDistricts(n, districtings[0]);
    forall k | 0 <= k < |districtings|
      ensures Labelled(districtings[k], n)
    {
      FlipsKeepLabels(n, allEdges, districtings, k);
    }
  }
}
