/**
 * The reconfiguration redistricting graph (`create_rrg_from_graph`) and the
 * set algebra it uses (`xor_lofl`, `intersect_lofl`).
 *
 * Each recorded subgraph stands for a plan: the set of its components, with
 * the vertices of `G` it does not touch as singleton parts. Two plans are
 * joined when they differ in exactly two parts on each side and the two
 * pairs of differing parts differ by the same single vertex, which has a
 * neighbour in both differing parts of the first plan. The lemmas below show
 * that this test accepts exactly the pairs where one vertex, with a neighbour
 * on both sides, moves from one district to another, whatever order the
 * differing parts are listed in, so the relation is symmetric.
 */
module Reconfiguration {
  import opened Graphs
  import opened Enumeration

  /** A plan as the script compares them: a collection of parts. */
  type Plan = set<set<int>>

  // ---------------------------------------------------------------------
  // xor_lofl and intersect_lofl
  // ---------------------------------------------------------------------

  /** `xor_lofl`. */
  function Xor(a: Plan, b: Plan): Plan {
    (a - b) + (b - a)
  }

  /** `intersect_lofl`. */
  function Intersect(a: Plan, b: Plan): Plan {
    a * b
  }

  /**
   * Both operations are commutative; intersecting a plan with the xor keeps
   * exactly its own parts the other plan lacks, and the xor splits into the
   * two sides.
   */
  lemma LoflAlgebra(a: Plan, b: Plan)
    ensures Xor(a, b) == Xor(b, a) && Intersect(a, b) == Intersect(b, a)
    ensures Intersect(a, Xor(a, b)) == a - b && Intersect(b, Xor(a, b)) == b - a
    ensures |Xor(a, b)| == |a - b| + |b - a|
  {
    assert Intersect(a, Xor(a, b)) == a - b;
    assert Intersect(b, Xor(a, b)) == b - a;
    assert (a - b) !! (b - a);
  }

  // ---------------------------------------------------------------------
  // The pair test
  // ---------------------------------------------------------------------

  /** `set(A) ^ set(B)` on two parts. */
  function SymDiff(A: set<int>, B: set<int>): set<int> {
    (A - B) + (B - A)
  }

  /** `G.neighbors(x)` meets `A`. */
  predicate NeighbourIn(g: Graph, x: int, A: set<int>) {
    exists y :: y in A && Linked(g.edges, x, y)
  }

  /** The vertex `x` by which the paired parts differ has a neighbour in `A0` and one in `A1`. */
  predicate MovedWithNeighbours(g: Graph, d: set<int>, A0: set<int>, A1: set<int>) {
    exists x :: x in d && NeighbourIn(g, x, A0) && NeighbourIn(g, x, A1)
  }

  /**
   * The tests on the listing `A0, A1` of the parts only the first plan has
   * and `B0, B1` of the parts only the second has: `A0` is paired with `B0`
   * when both pairs differ by one vertex, otherwise with `B1` when those
   * pairs do; the two pairs must differ by the same vertex, which needs a
   * neighbour in `A0` and one in `A1`.
   */
  predicate Pairing(g: Graph, A0: set<int>, A1: set<int>, B0: set<int>, B1: set<int>) {
    if |SymDiff(A0, B0)| == 1 && |SymDiff(A1, B1)| == 1 then
      SymDiff(A0, B0) == SymDiff(A1, B1) && MovedWithNeighbours(g, SymDiff(A0, B0), A0, A1)
    else if |SymDiff(A0, B1)| == 1 && |SymDiff(A1, B0)| == 1 then
      SymDiff(A0, B1) == SymDiff(A1, B0) && MovedWithNeighbours(g, SymDiff(A0, B1), A0, A1)
    else
      false
  }

  /** `C1` with vertex `x` moved out of part `A` into part `B`. */
  function MoveVertex(C1: Plan, A: set<int>, B: set<int>, x: int): (C2: Plan)
    requires x in A
    ensures A - {x} in C2 && B + {x} in C2
    ensures forall D :: D in C1 && D != A && D != B ==> D in C2
  {
    (C1 - {A, B}) + {A - {x}, B + {x}}
  }

  /**
   * What an RRG edge means: `C2` arises from `C1` by moving one vertex from
   * its district to another district, the vertex having a neighbour in both.
   */
  ghost predicate MovesVertex(g: Graph, C1: Plan, C2: Plan) {
    exists A, B, x :: IsMove(g, C1, C2, A, B, x)
  }

  /** `C2` is `C1` with `x` moved from `A` to `B`, two distinct parts of `C1` in which `x` has neighbours. */
  predicate IsMove(g: Graph, C1: Plan, C2: Plan, A: set<int>, B: set<int>, x: int) {
    && A in C1 && B in C1 && A != B && x in A
    && NeighbourIn(g, x, A) && NeighbourIn(g, x, B)
    && C2 == MoveVertex(C1, A, B, x)
  }

  /** A set of one element, and that element. */
  lemma CardOne(d: set<int>) returns (x: int)
    requires |d| == 1
    ensures d == {x}
  {
    NonEmptyHasElement(d);
    var v :| v in d;
    x := v;
    assert |d - {x}| == 0;
  }

  /** A set of two elements is the set of any two distinct members. */
  lemma CardTwo(S: Plan, a: set<int>, b: set<int>)
    requires |S| == 2 && a in S && b in S && a != b
    ensures S == {a, b}
  {
    assert |S - {a, b}| == 0;
  }

  /** A neighbour is another vertex: the graph has no loops. */
  lemma NeighbourIsOther(g: Graph, x: int, A: set<int>) returns (y: int)
    requires ValidGraph(g) && NeighbourIn(g, x, A)
    ensures y in A && y != x && Linked(g.edges, x, y)
  {
    var z :| z in A && Linked(g.edges, x, z);
    y := z;
  }

  /** Two pairs of parts, each pair disjoint, that both differ by `x` alone: `x` moved from one side to the other. */
  lemma OneVertexMoved(A0: set<int>, A1: set<int>, B0: set<int>, B1: set<int>, x: int)
    requires A0 !! A1 && B0 !! B1
    requires SymDiff(A0, B0) == {x} && SymDiff(A1, B1) == {x}
    ensures || (x in A0 && B0 == A0 - {x} && B1 == A1 + {x})
            || (x in A1 && B1 == A1 - {x} && B0 == A0 + {x})
  {
    assert x in SymDiff(A0, B0) && x in SymDiff(A1, B1);
    if x in A0 {
      assert B0 == A0 - {x};
      assert B1 == A1 + {x};
    } else {
      assert x in B0 && x !in B1 && x in A1;
      assert B1 == A1 - {x};
      assert B0 == A0 + {x};
    }
  }

  /**
   * Moving a vertex with a neighbour in its own part changes exactly the two
   * parts involved: the first plan alone has `A` and `B`, the second alone
   * has `A - {x}` and `B + {x}`.
   */
  lemma MoveDifference(g: Graph, C1: Plan, V: set<int>, A: set<int>, B: set<int>, x: int)
    requires ValidGraph(g) && IsPartition(C1, V)
    requires A in C1 && B in C1 && A != B && x in A && NeighbourIn(g, x, A)
    ensures A - {x} != {} && x !in B
    ensures C1 - MoveVertex(C1, A, B, x) == {A, B}
    ensures MoveVertex(C1, A, B, x) - C1 == {A - {x}, B + {x}}
    ensures A - {x} != B + {x}
    ensures A - {x} !in C1 && B + {x} !in C1
  {
    var y := NeighbourIsOther(g, x, A);
    assert y in A - {x};
    assert A !! B;
    var C2 := MoveVertex(C1, A, B, x);
    assert B != {};
    forall D | D in C1 && D != A
      ensures D != A - {x}
    {
      assert D !! A;
    }
    forall D | D in C1 && D != B
      ensures D != B + {x}
    {
      assert D !! B;
    }
    assert A !in C2 && B !in C2;
    assert C1 - C2 == {A, B};
    assert C2 - C1 == {A - {x}, B + {x}};
  }

  /** Parts that share no vertex and are non-empty cannot both be within one vertex of the pair's partner. */
  lemma FarApart(A: set<int>, B: set<int>, x: int, y: int, b: int)
    requires A !! B && x in A && y in A && y != x && b in B
    ensures |SymDiff(A, B + {x})| != 1 && |SymDiff(B, A - {x})| != 1
  {
    var d1, d2 := SymDiff(A, B + {x}), SymDiff(B, A - {x});
    assert y in d1 && b in d1 && y in d2 && b in d2;
    if |d1| == 1 {
      var z := CardOne(d1);
      assert false;
    }
    if |d2| == 1 {
      var z := CardOne(d2);
      assert false;
    }
  }

  /** The four listings of the parts a move changes all pass the tests. */
  lemma PairingOfMove(g: Graph, A: set<int>, B: set<int>, x: int)
    requires x in A && x !in B && NeighbourIn(g, x, A) && NeighbourIn(g, x, B)
    requires |SymDiff(A, B + {x})| != 1 && |SymDiff(B, A - {x})| != 1
    ensures Pairing(g, A, B, A - {x}, B + {x}) && Pairing(g, A, B, B + {x}, A - {x})
    ensures Pairing(g, B, A, A - {x}, B + {x}) && Pairing(g, B, A, B + {x}, A - {x})
  {
    assert SymDiff(A, A - {x}) == {x};
    assert SymDiff(B, B + {x}) == {x};
    assert x in {x};
    assert MovedWithNeighbours(g, {x}, A, B) && MovedWithNeighbours(g, {x}, B, A);
  }

  /** The tests accept a move of one vertex, whichever way the differing parts are listed. */
  lemma MovesPairing(g: Graph, A: set<int>, B: set<int>, x: int, A0: set<int>, A1: set<int>, B0: set<int>, B1: set<int>)
    requires ValidGraph(g) && A !! B && B != {}
    requires x in A && NeighbourIn(g, x, A) && NeighbourIn(g, x, B)
    requires (A0 == A && A1 == B) || (A0 == B && A1 == A)
    requires (B0 == A - {x} && B1 == B + {x}) || (B0 == B + {x} && B1 == A - {x})
    ensures Pairing(g, A0, A1, B0, B1)
  {
    var y := NeighbourIsOther(g, x, A);
    NonEmptyHasElement(B);
    var b :| b in B;
    FarApart(A, B, x, y, b);
    PairingOfMove(g, A, B, x);
  }

  /** The two members of a two-element set, in one order or the other. */
  lemma SameTwo(a0: set<int>, a1: set<int>, a: set<int>, b: set<int>)
    requires {a0, a1} == {a, b} && a0 != a1
    ensures (a0 == a && a1 == b) || (a0 == b && a1 == a)
  {
    assert a0 in {a, b} && a1 in {a, b};
  }

  /** Two parts the tests pair with two others, each pair disjoint, differ by one vertex `x` moved across. */
  lemma PairedByOneVertex(g: Graph, A0: set<int>, A1: set<int>, B0: set<int>, B1: set<int>)
    returns (x: int, b0: set<int>, b1: set<int>)
    requires A0 !! A1 && B0 !! B1 && Pairing(g, A0, A1, B0, B1)
    ensures {b0, b1} == {B0, B1}
    ensures NeighbourIn(g, x, A0) && NeighbourIn(g, x, A1)
    ensures || (x in A0 && b0 == A0 - {x} && b1 == A1 + {x})
            || (x in A1 && b1 == A1 - {x} && b0 == A0 + {x})
  {
    b0, b1 := B0, B1;
    if !(|SymDiff(A0, B0)| == 1 && |SymDiff(A1, B1)| == 1) {
      b0, b1 := B1, B0;
    }
    x := CardOne(SymDiff(A0, b0));
    assert SymDiff(A1, b1) == {x};
    assert MovedWithNeighbours(g, {x}, A0, A1);
    OneVertexMoved(A0, A1, b0, b1, x);
  }

  /** A plan is the other plan without the parts only the other has, plus its own. */
  lemma Rebuild(C1: Plan, C2: Plan)
    ensures C2 == (C1 - (C1 - C2)) + (C2 - C1)
  {
  }

  /** A listing the tests accept is a move of one vertex. */
  lemma PairingMoves(g: Graph, C1: Plan, C2: Plan, V: set<int>, W: set<int>,
                     A0: set<int>, A1: set<int>, B0: set<int>, B1: set<int>)
    requires IsPartition(C1, V) && IsPartition(C2, W)
    requires C1 - C2 == {A0, A1} && A0 != A1
    requires C2 - C1 == {B0, B1} && B0 != B1
    requires Pairing(g, A0, A1, B0, B1)
    ensures MovesVertex(g, C1, C2)
  {
    assert A0 in C1 && A1 in C1 && B0 in C2 && B1 in C2;
    assert A0 !! A1 && B0 !! B1;
    var x, b0, b1 := PairedByOneVertex(g, A0, A1, B0, B1);
    Rebuild(C1, C2);
    assert C2 == (C1 - {A0, A1}) + {b0, b1};
    if x in A0 {
      assert IsMove(g, C1, C2, A0, A1, x);
    } else {
      assert {A0, A1} == {A1, A0};
      assert IsMove(g, C1, C2, A1, A0, x);
    }
  }

  /**
   * For plans whose parts are disjoint, every listing of the differing parts
   * gets the same answer from the tests: the answer is whether one vertex
   * moved. The order in which the script happens to list the parts does not
   * matter.
   */
  lemma ListingDecides(g: Graph, C1: Plan, C2: Plan, V: set<int>, W: set<int>,
                       A0: set<int>, A1: set<int>, B0: set<int>, B1: set<int>)
    requires ValidGraph(g) && IsPartition(C1, V) && IsPartition(C2, W)
    requires C1 - C2 == {A0, A1} && A0 != A1
    requires C2 - C1 == {B0, B1} && B0 != B1
    ensures Pairing(g, A0, A1, B0, B1) <==> MovesVertex(g, C1, C2)
  {
    if Pairing(g, A0, A1, B0, B1) {
      PairingMoves(g, C1, C2, V, W, A0, A1, B0, B1);
    }
    if MovesVertex(g, C1, C2) {
      var A, B, x :| IsMove(g, C1, C2, A, B, x);
      MoveDifference(g, C1, V, A, B, x);
      assert A !! B && B != {};
      SameTwo(A0, A1, A, B);
      SameTwo(B0, B1, A - {x}, B + {x});
      MovesPairing(g, A, B, x, A0, A1, B0, B1);
    }
  }

  /** A move of one vertex passes the size tests: four parts differ, two on each side. */
  lemma MoveSizes(g: Graph, C1: Plan, C2: Plan, V: set<int>)
    requires ValidGraph(g) && IsPartition(C1, V) && MovesVertex(g, C1, C2)
    ensures |Xor(C1, C2)| == 4
    ensures |Intersect(C1, Xor(C1, C2))| == 2 && |Intersect(C2, Xor(C1, C2))| == 2
  {
    var A, B, x :| IsMove(g, C1, C2, A, B, x);
    MoveDifference(g, C1, V, A, B, x);
    TwoAndTwo(C1, C2, A, B, A - {x}, B + {x});
  }

  /** Two parts only on each side: four parts in the xor, two of them from each plan. */
  lemma TwoAndTwo(C1: Plan, C2: Plan, A: set<int>, B: set<int>, A': set<int>, B': set<int>)
    requires C1 - C2 == {A, B} && A != B && C2 - C1 == {A', B'} && A' != B'
    ensures |Xor(C1, C2)| == 4
    ensures |Intersect(C1, Xor(C1, C2))| == 2 && |Intersect(C2, Xor(C1, C2))| == 2
  {
    LoflAlgebra(C1, C2);
  }

  /** The reverse of a move is a move: the relation the tests decide is symmetric. */
  lemma MovesSymmetric(g: Graph, C1: Plan, C2: Plan, V: set<int>)
    requires ValidGraph(g) && IsPartition(C1, V) && MovesVertex(g, C1, C2)
    ensures MovesVertex(g, C2, C1)
  {
    var A, B, x :| IsMove(g, C1, C2, A, B, x);
    MoveDifference(g, C1, V, A, B, x);
    var A', B' := A - {x}, B + {x};
    MoveBack(C1, A, B, x);
    var y := NeighbourIsOther(g, x, A);
    assert y in A';
    var z :| z in B && Linked(g.edges, x, z);
    assert z in B';
    assert IsMove(g, C2, C1, B', A', x);
  }

  /** Moving `x` back from `B + {x}` to `A - {x}` restores the plan. */
  lemma MoveBack(C1: Plan, A: set<int>, B: set<int>, x: int)
    requires A in C1 && B in C1 && x in A && x !in B
    requires A - {x} !in C1 && B + {x} !in C1
    ensures A - {x} != B + {x}
    ensures MoveVertex(MoveVertex(C1, A, B, x), B + {x}, A - {x}, x) == C1
  {
    var A', B' := A - {x}, B + {x};
    assert B' - {x} == B && A' + {x} == A;
    var C2 := MoveVertex(C1, A, B, x);
    assert C2 - {B', A'} == C1 - {A, B};
  }

  // ---------------------------------------------------------------------
  // The plans of two subgraphs
  // ---------------------------------------------------------------------

  /**
   * `comp_all` for an edge list `s`: the components of `nx.Graph(s)` plus a
   * singleton for each vertex of `G` it does not touch. Its parts are
   * disjoint, whatever `s` holds.
   */
  lemma TempPartition(g: Graph, s: seq<Edge>)
    ensures IsPartition(TempComponents(g, s), NodeSet(g) + Endpoints(s))
  {
    var W := NodeSet(g) + Endpoints(s);
    NxComponentsWithIsolates(W, s);
    assert W - Endpoints(s) == NodeSet(g) - Endpoints(s);
    ComponentsPartition(W, s);
  }

  /**
   * `comp_all_g2` as the script builds it: the isolated vertices of the
   * second subgraph are added only when the FIRST subgraph has isolated
   * vertices.
   */
  function SecondPlanAsWritten(g: Graph, s1: seq<Edge>, s2: seq<Edge>): (C2: Plan)
    ensures Isolates(NodeSet(g), s1) != {} ==> C2 == TempComponents(g, s2)
    ensures Isolates(NodeSet(g), s1) == {} ==> C2 == NxComponents(s2)
  {
    if |Isolates(NodeSet(g), s1)| > 0 then NxComponents(s2) + Isolates(NodeSet(g), s2) else NxComponents(s2)
  }

  /**
   * The pair `(vi, vj)` of subgraphs `s1`, `s2` is an RRG edge: the lists
   * differ and the plan of `s2` arises from that of `s1` by moving one vertex.
   */
  ghost predicate RrgLinked(g: Graph, s1: seq<Edge>, s2: seq<Edge>) {
    s1 != s2 && MovesVertex(g, TempComponents(g, s1), TempComponents(g, s2))
  }

  /** The RRG relation is symmetric. */
  lemma RrgLinkedSymmetric(g: Graph, s1: seq<Edge>, s2: seq<Edge>)
    requires ValidGraph(g)
    ensures RrgLinked(g, s1, s2) <==> RrgLinked(g, s2, s1)
  {
    TempPartition(g, s1);
    TempPartition(g, s2);
    if RrgLinked(g, s1, s2) {
      MovesSymmetric(g, TempComponents(g, s1), TempComponents(g, s2), NodeSet(g) + Endpoints(s1));
    }
    if RrgLinked(g, s2, s1) {
      MovesSymmetric(g, TempComponents(g, s2), TempComponents(g, s1), NodeSet(g) + Endpoints(s2));
    }
  }

  /** Merging along an edge whose endpoints lie in the parts `A` and `B` joins those two parts. */
  lemma MergeParts(P: Plan, A: set<int>, B: set<int>, x: int, y: int)
    requires A in P && B in P && x in A && y in B
    requires forall C :: C in P && C != A && C != B ==> x !in C && y !in C
    ensures Merge(P, x, y) == (P - {A, B}) + {A + B}
  {
    assert (set C | C in P && x !in C && y !in C) == P - {A, B};
    assert (set C | C in P && (x in C || y in C)) == {A, B};
    FlattenPair(A, B);
  }

  /** The 2x2 grid, vertices `0 1` over `2 3`. */
  function Grid2(): Graph {
    Graph([0, 1, 2, 3], [Edge(0, 1), Edge(0, 2), Edge(1, 3), Edge(2, 3)])
  }

  /** The plan of the subgraph with edges 0-1 and 2-3 of the 2x2 grid: {0,1},{2,3}, no isolated vertex. */
  lemma Grid2PlanRows()
    ensures Isolates(NodeSet(Grid2()), [Edge(0, 1), Edge(2, 3)]) == {}
    ensures TempComponents(Grid2(), [Edge(0, 1), Edge(2, 3)]) == {{0, 1}, {2, 3}}
  {
    var V := {0, 1, 2, 3};
    assert NodeSet(Grid2()) == V;
    assert Endpoints([Edge(0, 1), Edge(2, 3)]) == V;
    RowsComponents();
    assert V - V == {};
  }

  lemma RowsComponents()
    ensures Components({0, 1, 2, 3}, [Edge(0, 1), Edge(2, 3)]) == {{0, 1}, {2, 3}}
  {
    var P1 := {{2}, {3}, {0, 1}};
    JoinFirstPair({0, 1, 2, 3}, P1);
    assert [Edge(0, 1), Edge(2, 3)][..1] == [Edge(0, 1)];
    MergeParts(P1, {2}, {3}, 2, 3);
    assert {2} + {3} == {2, 3};
    assert (P1 - {{2}, {3}}) + {{2, 3}} == {{0, 1}, {2, 3}};
  }

  /** The first edge 0-1 joins the singletons {0} and {1}. */
  lemma JoinFirstPair(V: set<int>, P1: Plan)
    requires V == {0, 1, 2, 3} || V == {0, 1, 2}
    requires P1 == (if 3 in V then {{2}, {3}, {0, 1}} else {{2}, {0, 1}})
    ensures Components(V, [Edge(0, 1)]) == P1
  {
    assert [Edge(0, 1)][..0] == [];
    var P := Singletons(V);
    if 3 in V {
      assert P == {{0}, {1}, {2}, {3}};
    } else {
      assert P == {{0}, {1}, {2}};
    }
    MergeParts(P, {0}, {1}, 0, 1);
    assert {0} + {1} == {0, 1};
    assert (P - {{0}, {1}}) + {{0, 1}} == P1;
  }

  lemma CornerComponents()
    ensures Components({0, 1, 2}, [Edge(0, 1), Edge(0, 2)]) == {{0, 1, 2}}
  {
    var Q1 := {{2}, {0, 1}};
    JoinFirstPair({0, 1, 2}, Q1);
    assert [Edge(0, 1), Edge(0, 2)][..1] == [Edge(0, 1)];
    MergeParts(Q1, {0, 1}, {2}, 0, 2);
    assert {0, 1} + {2} == {0, 1, 2};
    assert (Q1 - {{0, 1}, {2}}) + {{0, 1, 2}} == {{0, 1, 2}};
  }

  /** The plan of the subgraph with edges 0-1 and 0-2 of the 2x2 grid: {0,1,2} and the isolated {3}. */
  lemma Grid2PlanCorner()
    ensures Isolates(NodeSet(Grid2()), [Edge(0, 1), Edge(0, 2)]) == {{3}}
    ensures NxComponents([Edge(0, 1), Edge(0, 2)]) == {{0, 1, 2}}
    ensures TempComponents(Grid2(), [Edge(0, 1), Edge(0, 2)]) == {{0, 1, 2}, {3}}
  {
    assert NodeSet(Grid2()) == {0, 1, 2, 3};
    assert Endpoints([Edge(0, 1), Edge(0, 2)]) == {0, 1, 2};
    CornerComponents();
    assert {0, 1, 2, 3} - {0, 1, 2} == {3};
    assert Singletons({3}) == {{3}};
  }

  /**
   * As written, the plan of the second subgraph drops its isolated vertices
   * whenever the first subgraph touches every vertex. On the 2x2 grid the
   * two plans {0,1},{2,3} and {0,1,2},{3} differ by moving vertex 2, in
   * both directions; compared from the second the test sees the full plans
   * and emits the pair, but compared from the first it sees {0,1,2} without
   * {3}, the xor has three parts instead of four, and nothing is emitted.
   */
  lemma SecondPlanAsWrittenDropsEdge()
    ensures RrgLinked(Grid2(), [Edge(0, 1), Edge(2, 3)], [Edge(0, 1), Edge(0, 2)])
    ensures RrgLinked(Grid2(), [Edge(0, 1), Edge(0, 2)], [Edge(0, 1), Edge(2, 3)])
    ensures SecondPlanAsWritten(Grid2(), [Edge(0, 1), Edge(0, 2)], [Edge(0, 1), Edge(2, 3)])
         == TempComponents(Grid2(), [Edge(0, 1), Edge(2, 3)])
    ensures |Xor(TempComponents(Grid2(), [Edge(0, 1), Edge(2, 3)]),
                 SecondPlanAsWritten(Grid2(), [Edge(0, 1), Edge(2, 3)], [Edge(0, 1), Edge(0, 2)]))| == 3
  {
    Grid2PlanRows();
    Grid2PlanCorner();
    Grid2Moves();
    Grid2Xor();
  }

  /** Vertex 2 moves between {2,3} and {0,1}, in both directions. */
  lemma Grid2Moves()
    ensures MovesVertex(Grid2(), {{0, 1}, {2, 3}}, {{0, 1, 2}, {3}})
    ensures MovesVertex(Grid2(), {{0, 1, 2}, {3}}, {{0, 1}, {2, 3}})
  {
    var g := Grid2();
    assert Linked(g.edges, 2, 3) && Linked(g.edges, 2, 0);
    assert NeighbourIn(g, 2, {2, 3}) && NeighbourIn(g, 2, {0, 1}) && NeighbourIn(g, 2, {3}) && NeighbourIn(g, 2, {0, 1, 2});
    assert {2, 3} - {2} == {3} && {0, 1} + {2} == {0, 1, 2};
    assert {0, 1, 2} - {2} == {0, 1} && {3} + {2} == {2, 3};
    assert IsMove(g, {{0, 1}, {2, 3}}, {{0, 1, 2}, {3}}, {2, 3}, {0, 1}, 2);
    assert IsMove(g, {{0, 1, 2}, {3}}, {{0, 1}, {2, 3}}, {0, 1, 2}, {3}, 2);
  }

  /** The plan {0,1},{2,3} against {0,1,2} alone: three parts differ. */
  lemma Grid2Xor()
    ensures |Xor({{0, 1}, {2, 3}}, {{0, 1, 2}})| == 3
  {
    assert {0, 1} != {2, 3} && {0, 1} != {0, 1, 2} && {2, 3} != {0, 1, 2};
    assert Xor({{0, 1}, {2, 3}}, {{0, 1, 2}}) == {{0, 1}, {2, 3}, {0, 1, 2}};
  }

  // ---------------------------------------------------------------------
  // The edge list, in emission order
  // ---------------------------------------------------------------------

  /*
   * The list the procedure builds is specified for any relation `linked` on
   * edge lists; the procedure computes it for `Relation(G)`.
   */

  /** `RrgLinked` as a function of the two edge lists. */
  ghost function Relation(g: Graph): (seq<Edge>, seq<Edge>) -> bool {
    (s1: seq<Edge>, s2: seq<Edge>) => RrgLinked(g, s1, s2)
  }

  /**
   * The relation the inner loop decides once the plan `first` of the
   * subgraph `vi` is known: the other subgraph differs and its plan is one
   * vertex move away.
   */
  ghost function LinkedFrom(g: Graph, first: Plan): (seq<Edge>, seq<Edge>) -> bool {
    (s1: seq<Edge>, s2: seq<Edge>) => s1 != s2 && MovesVertex(g, first, TempComponents(g, s2))
  }

  /** The pairs `(i, j')` with `j' < j` emitted while comparing subgraph `i` with the others. */
  ghost function Row(linked: (seq<Edge>, seq<Edge>) -> bool, L: seq<seq<Edge>>, i: nat, j: nat): seq<(int, int)>
    requires i < |L| && j <= |L|
  {
    if j == 0 then []
    else Row(linked, L, i, j - 1) + (if linked(L[i], L[j - 1]) then [(i, j - 1)] else [])
  }

  /** The pairs emitted for the first `i` subgraphs. */
  ghost function Rows(linked: (seq<Edge>, seq<Edge>) -> bool, L: seq<seq<Edge>>, i: nat): seq<(int, int)>
    requires i <= |L|
  {
    if i == 0 then [] else Rows(linked, L, i - 1) + Row(linked, L, i - 1, |L|)
  }

  /** `rrg_edge_set` for the subgraph list `L`. */
  ghost function Rrg(g: Graph, L: seq<seq<Edge>>): seq<(int, int)> {
    Rows(Relation(g), L, |L|)
  }

  /** `(i, j)` precedes `(i', j')`: smaller `vi`, or the same `vi` and smaller `vj`. */
  predicate Before(p: (int, int), q: (int, int)) {
    p.0 < q.0 || (p.0 == q.0 && p.1 < q.1)
  }

  predicate Ascending(r: seq<(int, int)>) {
    forall p, q :: 0 <= p < q < |r| ==> Before(r[p], r[q])
  }

  /** Two ascending lists, all of the first before all of the second, make an ascending list. */
  lemma AscendingJoin(a: seq<(int, int)>, b: seq<(int, int)>)
    requires Ascending(a) && Ascending(b)
    requires forall p, q :: 0 <= p < |a| && 0 <= q < |b| ==> Before(a[p], b[q])
    ensures Ascending(a + b)
  {
    forall p, q | 0 <= p < q < |a + b|
      ensures Before((a + b)[p], (a + b)[q])
    {
      if q < |a| {
        assert (a + b)[p] == a[p] && (a + b)[q] == a[q];
      } else if p >= |a| {
        assert (a + b)[p] == b[p - |a|] && (a + b)[q] == b[q - |a|];
      } else {
        assert (a + b)[p] == a[p] && (a + b)[q] == b[q - |a|];
      }
    }
  }

  /** Every pair of a row is a linked pair of its subgraph with an earlier `vj`. */
  lemma {:induction false} RowSound(linked: (seq<Edge>, seq<Edge>) -> bool, L: seq<seq<Edge>>, i: nat, j: nat)
    requires i < |L| && j <= |L|
    ensures forall k :: 0 <= k < |Row(linked, L, i, j)| ==>
              Row(linked, L, i, j)[k].0 == i && 0 <= Row(linked, L, i, j)[k].1 < j &&
              linked(L[i], L[Row(linked, L, i, j)[k].1])
  {
    if j > 0 {
      RowSound(linked, L, i, j - 1);
    }
  }

  /** A linked pair of subgraph `i` with an earlier `vj` is in its row. */
  lemma {:induction false} RowComplete(linked: (seq<Edge>, seq<Edge>) -> bool, L: seq<seq<Edge>>, i: nat, j: nat, b: nat)
    requires i < |L| && b < j <= |L| && linked(L[i], L[b])
    ensures (i, b) in Row(linked, L, i, j)
  {
    if b < j - 1 {
      RowComplete(linked, L, i, j - 1, b);
    }
  }

  /** A row is in ascending order. */
  lemma {:induction false} RowAscending(linked: (seq<Edge>, seq<Edge>) -> bool, L: seq<seq<Edge>>, i: nat, j: nat)
    requires i < |L| && j <= |L|
    ensures Ascending(Row(linked, L, i, j))
  {
    if j > 0 {
      RowAscending(linked, L, i, j - 1);
      RowSound(linked, L, i, j - 1);
      AscendingJoin(Row(linked, L, i, j - 1), if linked(L[i], L[j - 1]) then [(i, j - 1)] else []);
    }
  }

  /** The row grows by the pair `(i, j)` exactly when it is linked. */
  lemma RowStep(linked: (seq<Edge>, seq<Edge>) -> bool, L: seq<seq<Edge>>, i: nat, j: nat, b: bool)
    requires i < |L| && j < |L| && b == linked(L[i], L[j])
    ensures Row(linked, L, i, j + 1) == Row(linked, L, i, j) + (if b then [(i, j)] else [])
  {
  }

  /** A row only depends on the relation between its own subgraph and the others. */
  lemma {:induction false} RowAgrees(f1: (seq<Edge>, seq<Edge>) -> bool, f2: (seq<Edge>, seq<Edge>) -> bool,
                                     L: seq<seq<Edge>>, i: nat, j: nat)
    requires i < |L| && j <= |L|
    requires forall k :: 0 <= k < j ==> f1(L[i], L[k]) == f2(L[i], L[k])
    ensures Row(f1, L, i, j) == Row(f2, L, i, j)
  {
    if j > 0 {
      RowAgrees(f1, f2, L, i, j - 1);
    }
  }

  /** Once the plan of subgraph `i` is computed, the inner loop's relation is `Relation(G)` on row `i`. */
  lemma RowOfPlan(g: Graph, L: seq<seq<Edge>>, i: nat, first: Plan, j: nat)
    requires i < |L| && j <= |L| && first == TempComponents(g, L[i])
    ensures Row(LinkedFrom(g, first), L, i, j) == Row(Relation(g), L, i, j)
  {
    forall k | 0 <= k < j
      ensures LinkedFrom(g, first)(L[i], L[k]) == Relation(g)(L[i], L[k])
    {
    }
    RowAgrees(LinkedFrom(g, first), Relation(g), L, i, j);
  }

  /** Every pair of the first `i` rows is a linked pair. */
  lemma {:induction false} RowsSound(linked: (seq<Edge>, seq<Edge>) -> bool, L: seq<seq<Edge>>, i: nat)
    requires i <= |L|
    ensures forall k :: 0 <= k < |Rows(linked, L, i)| ==>
              0 <= Rows(linked, L, i)[k].0 < i && 0 <= Rows(linked, L, i)[k].1 < |L| &&
              linked(L[Rows(linked, L, i)[k].0], L[Rows(linked, L, i)[k].1])
  {
    if i > 0 {
      RowsSound(linked, L, i - 1);
      RowSound(linked, L, i - 1, |L|);
    }
  }

  /** A linked pair with first position below `i` is in the first `i` rows. */
  lemma {:induction false} RowsComplete(linked: (seq<Edge>, seq<Edge>) -> bool, L: seq<seq<Edge>>, i: nat, a: nat, b: nat)
    requires a < i <= |L| && b < |L| && linked(L[a], L[b])
    ensures (a, b) in Rows(linked, L, i)
  {
    if a < i - 1 {
      RowsComplete(linked, L, i - 1, a, b);
    } else {
      RowComplete(linked, L, a, |L|, b);
    }
  }

  /** Every pair of row `i` starts with `i`. */
  lemma {:induction false} RowFirst(linked: (seq<Edge>, seq<Edge>) -> bool, L: seq<seq<Edge>>, i: nat, j: nat)
    requires i < |L| && j <= |L|
    ensures forall k :: 0 <= k < |Row(linked, L, i, j)| ==> Row(linked, L, i, j)[k].0 == i
  {
    if j > 0 {
      RowFirst(linked, L, i, j - 1);
    }
  }

  /** Every pair of the first `i` rows starts below `i`. */
  lemma {:induction false} RowsBelow(linked: (seq<Edge>, seq<Edge>) -> bool, L: seq<seq<Edge>>, i: nat)
    requires i <= |L|
    ensures forall k :: 0 <= k < |Rows(linked, L, i)| ==> Rows(linked, L, i)[k].0 < i
  {
    if i > 0 {
      var before, row := Rows(linked, L, i - 1), Row(linked, L, i - 1, |L|);
      assert Rows(linked, L, i) == before + row;
      RowsBelow(linked, L, i - 1);
      RowFirst(linked, L, i - 1, |L|);
    }
  }

  /** The rows of the first `i` subgraphs are in ascending order. */
  lemma {:induction false} RowsAscending(linked: (seq<Edge>, seq<Edge>) -> bool, L: seq<seq<Edge>>, i: nat)
    requires i <= |L|
    ensures Ascending(Rows(linked, L, i))
  {
    if i > 0 {
      var before, row := Rows(linked, L, i - 1), Row(linked, L, i - 1, |L|);
      assert Rows(linked, L, i) == before + row;
      RowsAscending(linked, L, i - 1);
      RowsBelow(linked, L, i - 1);
      RowFirst(linked, L, i - 1, |L|);
      RowAscending(linked, L, i - 1, |L|);
      AscendingJoin(before, row);
    }
  }

  /**
   * The RRG holds exactly the linked ordered pairs of positions, each once,
   * in ascending order, and with every edge its reverse.
   */
  lemma RrgFacts(g: Graph, L: seq<seq<Edge>>)
    requires ValidGraph(g)
    ensures forall p :: p in Rrg(g, L) <==> 0 <= p.0 < |L| && 0 <= p.1 < |L| && RrgLinked(g, L[p.0], L[p.1])
    ensures Ascending(Rrg(g, L))
    ensures forall p :: p in Rrg(g, L) ==> (p.1, p.0) in Rrg(g, L)
  {
    var r := Rrg(g, L);
    RowsSound(Relation(g), L, |L|);
    RowsAscending(Relation(g), L, |L|);
    forall p: (int, int) | 0 <= p.0 < |L| && 0 <= p.1 < |L| && RrgLinked(g, L[p.0], L[p.1])
      ensures p in r
    {
      RowsComplete(Relation(g), L, |L|, p.0, p.1);
    }
    forall p | p in r
      ensures (p.1, p.0) in r
    {
      var k :| 0 <= k < |r| && r[k] == p;
      RrgLinkedSymmetric(g, L[p.0], L[p.1]);
      RowsComplete(Relation(g), L, |L|, p.1, p.0);
    }
  }

  // ---------------------------------------------------------------------
  // The procedure
  // ---------------------------------------------------------------------

  /**
   * Lines 166-184 on two plans: the xor, the parts each side alone has, the
   * size tests, then the pairing tests on the listing the set iteration
   * gives (any listing: the choice is left open).
   */
  method Compare(g: Graph, comp1: Plan, comp2: Plan, ghost V: set<int>, ghost W: set<int>) returns (linked: bool)
    requires ValidGraph(g) && IsPartition(comp1, V) && IsPartition(comp2, W)
    ensures linked <==> MovesVertex(g, comp1, comp2)
  {
    var xorG1G2 := Xor(comp1, comp2);
    var g1Comp := Intersect(comp1, xorG1G2);
    var g2Comp := Intersect(comp2, xorG1G2);
    LoflAlgebra(comp1, comp2);
    if |xorG1G2| == 4 && |g1Comp| == 2 && |g2Comp| == 2 {
      var a0 :| a0 in g1Comp;
      assert |g1Comp - {a0}| == 1;
      var a1 :| a1 in g1Comp - {a0};
      var b0 :| b0 in g2Comp;
      assert |g2Comp - {b0}| == 1;
      var b1 :| b1 in g2Comp - {b0};
      CardTwo(g1Comp, a0, a1);
      CardTwo(g2Comp, b0, b1);
      linked := Pairing(g, a0, a1, b0, b1);
      ListingDecides(g, comp1, comp2, V, W, a0, a1, b0, b1);
    } else {
      linked := false;
      if MovesVertex(g, comp1, comp2) {
        MoveSizes(g, comp1, comp2, V);
      }
    }
  }

  /**
   * The plan of one subgraph: its components, plus its isolated vertices as
   * singleton parts when it has any.
   */
  method PlanOf(g: Graph, s: seq<Edge>) returns (compAll: Plan)
    ensures compAll == TempComponents(g, s)
    ensures IsPartition(compAll, NodeSet(g) + Endpoints(s))
  {
    var isolates := Isolates(NodeSet(g), s);
    if |isolates| > 0 {
      compAll := NxComponents(s) + isolates;
    } else {
      compAll := NxComponents(s);
    }
    TempPartition(g, s);
  }

  /**
   * `create_rrg_from_graph`: compares every ordered pair of subgraphs of the
   * list and emits `(vi, vj)` for each linked pair.
   */
  method CreateRrg(g: Graph, subgraphs: seq<seq<Edge>>) returns (rrg: seq<(int, int)>)
    requires ValidGraph(g)
    ensures rrg == Rrg(g, subgraphs)
  {
    rrg := [];
    var vi := 0;
    while vi < |subgraphs|
      invariant 0 <= vi <= |subgraphs|
      invariant rrg == Rows(Relation(g), subgraphs, vi)
    {
      var compAllG1 := PlanOf(g, subgraphs[vi]);
      rrg := CompareRow(g, subgraphs, vi, compAllG1, NodeSet(g) + Endpoints(subgraphs[vi]), rrg);
      RowOfPlan(g, subgraphs, vi, compAllG1, |subgraphs|);
      vi := vi + 1;
    }
  }

  /** Lines 158-184 for the subgraph `s1`, whose plan is `compAllG1`, and the subgraph `s2`. */
  method ComparePair(g: Graph, s1: seq<Edge>, s2: seq<Edge>, compAllG1: Plan, ghost V1: set<int>)
    returns (linked: bool)
    requires ValidGraph(g) && IsPartition(compAllG1, V1)
    ensures linked == LinkedFrom(g, compAllG1)(s1, s2)
  {
    linked := false;
    if s2 != s1 {
      var compAllG2 := PlanOf(g, s2);
      linked := Compare(g, compAllG1, compAllG2, V1, NodeSet(g) + Endpoints(s2));
    }
  }

  /** The inner loop: compares subgraph `vi`, whose plan is `compAllG1`, with every subgraph in turn. */
  method CompareRow(g: Graph, subgraphs: seq<seq<Edge>>, vi: nat, compAllG1: Plan, ghost V1: set<int>,
                    rrg0: seq<(int, int)>)
    returns (rrg: seq<(int, int)>)
    requires ValidGraph(g) && vi < |subgraphs| && IsPartition(compAllG1, V1)
    ensures rrg == rrg0 + Row(LinkedFrom(g, compAllG1), subgraphs, vi, |subgraphs|)
  {
    rrg := rrg0;
    var vj := 0;
    while vj < |subgraphs|
      invariant 0 <= vj <= |subgraphs|
      invariant rrg == rrg0 + Row(LinkedFrom(g, compAllG1), subgraphs, vi, vj)
    {
      var linked := ComparePair(g, subgraphs[vi], subgraphs[vj], compAllG1, V1);
      RowStep(LinkedFrom(g, compAllG1), subgraphs, vi, vj, linked);
      if linked {
        rrg := rrg + [(vi, vj)];
      }
      vj := vj + 1;
    }
  }
}
