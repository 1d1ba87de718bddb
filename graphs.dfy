/**
 * Undirected graphs over integer vertices and their connected components.
 *
 * This module stands in for the parts of networkx the redistricting scripts
 * use: a graph built by `add_edge`, `connected_components`,
 * `number_connected_components` and `is_connected`. Components are computed
 * by a merge fold over an edge list (start from singletons, merge the two
 * parts an edge joins) and are proved to be exactly the classes of the
 * reachability relation of that edge list.
 */
module Graphs {

  /** An undirected edge. The graphs built in this project store it with a < b. */
  datatype Edge = Edge(a: int, b: int)

  /** The canonical form of the edge joining x and y. */
  function E(x: int, y: int): (e: Edge)
    requires x != y
    ensures e.a < e.b
    ensures (e.a == x && e.b == y) || (e.a == y && e.b == x)
  {
    if x < y then Edge(x, y) else Edge(y, x)
  }

  /** A simple undirected graph: its nodes and its edges, each in insertion order. */
  datatype Graph = Graph(nodes: seq<int>, edges: seq<Edge>)

  /** A result that may be missing. */
  datatype Option<T> = None | Some(value: T)

  predicate Distinct<T(==)>(s: seq<T>) {
    forall i, j :: 0 <= i < j < |s| ==> s[i] != s[j]
  }

  /** Every edge joins two endpoints of `vs`. */
  predicate EdgesWithin(es: seq<Edge>, vs: set<int>) {
    forall e :: e in es ==> e.a in vs && e.b in vs
  }

  /** No repeated node, no repeated edge, edges canonical (hence no loops) and between nodes. */
  predicate ValidGraph(g: Graph) {
    && Distinct(g.nodes)
    && Distinct(g.edges)
    && (forall e :: e in g.edges ==> e.a < e.b)
    && EdgesWithin(g.edges, set v | v in g.nodes)
  }

  function NodeSet(g: Graph): set<int> {
    set v | v in g.nodes
  }

  /** The vertices an edge list touches: the nodes of `nx.Graph(es)`. */
  function Endpoints(es: seq<Edge>): set<int> {
    (set e | e in es :: e.a) + (set e | e in es :: e.b)
  }

  /** The edges of `es` are adjacent to one another in either orientation. */
  predicate Linked(es: seq<Edge>, x: int, y: int) {
    Edge(x, y) in es || Edge(y, x) in es
  }

  /** A non-empty set has an element (stated so that `:|` can pick one). */
  lemma NonEmptyHasElement(s: set<int>)
    requires s != {}
    ensures exists x :: x in s
  {
    if forall x :: x !in s {
      assert false;
    }
  }

  // ---------------------------------------------------------------------
  // Partitions of a vertex set
  // ---------------------------------------------------------------------

  /** `P` is a partition of `vs`: non-empty, pairwise disjoint parts covering `vs`. */
  ghost predicate IsPartition(P: set<set<int>>, vs: set<int>) {
    && (forall A :: A in P ==> A != {} && A <= vs)
    && (forall v :: v in vs ==> exists A :: A in P && v in A)
    && (forall A, B :: A in P && B in P && A != B ==> A !! B)
  }

  /** `x` and `y` lie in a common part of `P`. */
  predicate SamePart(P: set<set<int>>, x: int, y: int) {
    exists A :: A in P && x in A && y in A
  }

  /** The part of a partition that holds `v`. */
  ghost function PartOf(P: set<set<int>>, vs: set<int>, v: int): (A: set<int>)
    requires IsPartition(P, vs) && v in vs
    ensures A in P && v in A
    ensures forall B :: B in P && v in B ==> B == A
  {
    var A :| A in P && v in A; A
  }

  lemma SamePartTransitive(P: set<set<int>>, vs: set<int>, x: int, y: int, z: int)
    requires IsPartition(P, vs)
    requires SamePart(P, x, y) && SamePart(P, y, z)
    ensures SamePart(P, x, z)
  {
    var A :| A in P && x in A && y in A;
    var B :| B in P && y in B && z in B;
    assert A == B;
  }

  /**
   * Two partitions of the same set that put the same pairs together are equal.
   */
  lemma {:induction false} PartitionsEqual(P: set<set<int>>, Q: set<set<int>>, vs: set<int>)
    requires IsPartition(P, vs) && IsPartition(Q, vs)
    requires forall x, y :: x in vs && y in vs ==> (SamePart(P, x, y) <==> SamePart(Q, x, y))
    ensures P == Q
  {
    forall A | A in P ensures A in Q {
      PartInOther(P, Q, vs, A);
    }
    forall A | A in Q ensures A in P {
      PartInOther(Q, P, vs, A);
    }
  }

  lemma PartInOther(P: set<set<int>>, Q: set<set<int>>, vs: set<int>, A: set<int>)
    requires IsPartition(P, vs) && IsPartition(Q, vs)
    requires forall x, y :: x in vs && y in vs ==> (SamePart(P, x, y) <==> SamePart(Q, x, y))
    requires A in P
    ensures A in Q
  {
    NonEmptyHasElement(A);
    var x :| x in A;
    var B := PartOf(Q, vs, x);
    forall y | y in A ensures y in B {
      assert SamePart(P, x, y);
      var C :| C in Q && x in C && y in C;
    }
    forall y | y in B ensures y in A {
      assert SamePart(Q, x, y);
      var C :| C in P && x in C && y in C;
      assert C == A;
    }
    assert A == B;
  }

  // ---------------------------------------------------------------------
  // Components as a merge fold
  // ---------------------------------------------------------------------

  function Singletons(vs: set<int>): set<set<int>> {
    set v | v in vs :: {v}
  }

  function Flatten(Q: set<set<int>>): set<int> {
    set A, v | A in Q && v in A :: v
  }

  /** Join the part holding `x` with the part holding `y`. */
  function Merge(P: set<set<int>>, x: int, y: int): set<set<int>> {
    (set A | A in P && x !in A && y !in A) + {Flatten(set A | A in P && (x in A || y in A))}
  }

  /**
   * The connected components of the graph with vertex set `vs` and edge list
   * `es`; a vertex no edge touches is a part of its own.
   */
  function Components(vs: set<int>, es: seq<Edge>): set<set<int>>
    decreases |es|
  {
    if es == [] then Singletons(vs)
    else
      var e := es[|es| - 1];
      Merge(Components(vs, es[..|es| - 1]), e.a, e.b)
  }

  /** `nx.connected_components(nx.Graph(es))`: only the vertices the edges touch. */
  function NxComponents(es: seq<Edge>): set<set<int>> {
    Components(Endpoints(es), es)
  }

  /** The singleton parts of the vertices of `vs` that no edge of `es` touches. */
  function Isolates(vs: set<int>, es: seq<Edge>): set<set<int>> {
    Singletons(vs - Endpoints(es))
  }

  lemma SingletonsPartition(vs: set<int>)
    ensures IsPartition(Singletons(vs), vs)
  {
    forall v | v in vs ensures exists A :: A in Singletons(vs) && v in A {
      assert {v} in Singletons(vs);
    }
  }

  lemma {:induction false} SingletonsCount(vs: set<int>)
    ensures |Singletons(vs)| == |vs|
    decreases vs
  {
    if vs != {} {
      NonEmptyHasElement(vs);
      var v :| v in vs;
      var rest := vs - {v};
      SingletonsCount(rest);
      assert Singletons(vs) == Singletons(rest) + {{v}};
      assert {v} !in Singletons(rest);
    }
  }

  /** What `Merge` does to a partition, in terms of the parts of the two endpoints. */
  lemma MergeShape(P: set<set<int>>, vs: set<int>, x: int, y: int)
    requires IsPartition(P, vs) && x in vs && y in vs
    ensures Merge(P, x, y) == (P - {PartOf(P, vs, x), PartOf(P, vs, y)}) + {PartOf(P, vs, x) + PartOf(P, vs, y)}
  {
    var A, B := PartOf(P, vs, x), PartOf(P, vs, y);
    var keep := set C | C in P && x !in C && y !in C;
    var hit := set C | C in P && (x in C || y in C);
    assert keep == P - {A, B};
    assert hit == {A, B};
    FlattenPair(A, B);
  }

  lemma FlattenPair(A: set<int>, B: set<int>)
    ensures Flatten({A, B}) == A + B
  {
    forall v | v in A + B ensures v in Flatten({A, B}) {
      if v in A { assert A in {A, B}; } else { assert B in {A, B}; }
    }
  }

  /** Merging keeps a partition. */
  lemma MergePartition(P: set<set<int>>, vs: set<int>, x: int, y: int)
    requires IsPartition(P, vs) && x in vs && y in vs
    ensures IsPartition(Merge(P, x, y), vs)
  {
    MergeShape(P, vs, x, y);
    JoinPartition(P, vs, PartOf(P, vs, x), PartOf(P, vs, y));
  }

  /** Replacing two parts of a partition by their union keeps a partition. */
  lemma JoinPartition(P: set<set<int>>, vs: set<int>, A: set<int>, B: set<int>)
    requires IsPartition(P, vs) && A in P && B in P
    ensures IsPartition((P - {A, B}) + {A + B}, vs)
  {
    var M := (P - {A, B}) + {A + B};
    var J := A + B;
    forall v | v in vs ensures exists C :: C in M && v in C {
      var C :| C in P && v in C;
      if C == A || C == B {
        assert v in J && J in M;
      } else {
        assert C in M;
      }
    }
    forall C, D | C in M && D in M && C != D ensures C !! D {
      if C == J {
        assert D in P && D != A && D != B;
        assert D !! A && D !! B;
      } else if D == J {
        assert C in P && C != A && C != B;
        assert C !! A && C !! B;
      } else {
        assert C in P && D in P;
      }
    }
  }

  /** After merging, the endpoints are together, and whatever was together stays together. */
  lemma MergeJoins(P: set<set<int>>, vs: set<int>, x: int, y: int)
    requires IsPartition(P, vs) && x in vs && y in vs
    ensures SamePart(Merge(P, x, y), x, y)
    ensures forall u, w :: SamePart(P, u, w) ==> SamePart(Merge(P, x, y), u, w)
  {
    var A, B := PartOf(P, vs, x), PartOf(P, vs, y);
    MergeShape(P, vs, x, y);
    var M := Merge(P, x, y);
    var J := A + B;
    assert J in M && x in J && y in J;
    forall u, w | SamePart(P, u, w) ensures SamePart(M, u, w) {
      var C :| C in P && u in C && w in C;
      if C == A || C == B {
        assert u in J && w in J;
      } else {
        assert C in M;
      }
    }
  }

  /** After merging, two vertices are together only if they were, or each sat in one of the two merged parts. */
  lemma MergeOnlyJoins(P: set<set<int>>, vs: set<int>, x: int, y: int)
    requires IsPartition(P, vs) && x in vs && y in vs
    ensures forall u, w :: SamePart(Merge(P, x, y), u, w) ==>
      SamePart(P, u, w) ||
      ((u in PartOf(P, vs, x) || u in PartOf(P, vs, y)) && (w in PartOf(P, vs, x) || w in PartOf(P, vs, y)))
  {
    var A, B := PartOf(P, vs, x), PartOf(P, vs, y);
    MergeShape(P, vs, x, y);
    var M := Merge(P, x, y);
    forall u, w | SamePart(M, u, w)
      ensures SamePart(P, u, w) || ((u in A || u in B) && (w in A || w in B))
    {
      var C :| C in M && u in C && w in C;
      if C != A + B {
        assert C in P;
      }
    }
  }

  /** Merging lowers the number of parts by one unless the endpoints were already together. */
  lemma MergeCount(P: set<set<int>>, vs: set<int>, x: int, y: int)
    requires IsPartition(P, vs) && x in vs && y in vs
    ensures |Merge(P, x, y)| == if SamePart(P, x, y) then |P| else |P| - 1
  {
    var A, B := PartOf(P, vs, x), PartOf(P, vs, y);
    MergeShape(P, vs, x, y);
    var M := Merge(P, x, y);
    var J := A + B;
    if SamePart(P, x, y) {
      var C :| C in P && x in C && y in C;
      assert A == B;
      assert {A, B} == {A} && A + B == A;
      assert M == P;
    } else {
      assert A != B;
      assert J !in P - {A, B} by {
        if J in P - {A, B} {
          assert false;
        }
      }
      assert |P - {A, B}| == |P| - 2;
    }
  }

  /** Merging keeps a partition, joins exactly the two endpoint parts, and drops the count by one unless they were one part. */
  lemma MergeFacts(P: set<set<int>>, vs: set<int>, x: int, y: int)
    requires IsPartition(P, vs) && x in vs && y in vs
    ensures IsPartition(Merge(P, x, y), vs)
    ensures SamePart(Merge(P, x, y), x, y)
    ensures forall u, w :: SamePart(P, u, w) ==> SamePart(Merge(P, x, y), u, w)
    ensures forall u, w :: SamePart(Merge(P, x, y), u, w) ==>
      SamePart(P, u, w) ||
      ((u in PartOf(P, vs, x) || u in PartOf(P, vs, y)) && (w in PartOf(P, vs, x) || w in PartOf(P, vs, y)))
    ensures |Merge(P, x, y)| == if SamePart(P, x, y) then |P| else |P| - 1
  {
    MergePartition(P, vs, x, y);
    MergeJoins(P, vs, x, y);
    MergeOnlyJoins(P, vs, x, y);
    MergeCount(P, vs, x, y);
  }

  /** The components form a partition of the vertex set. */
  lemma {:induction false} ComponentsPartition(vs: set<int>, es: seq<Edge>)
    requires EdgesWithin(es, vs)
    ensures IsPartition(Components(vs, es), vs)
    decreases |es|
  {
    if es == [] {
      SingletonsPartition(vs);
    } else {
      var e := es[|es| - 1];
      ComponentsPartition(vs, es[..|es| - 1]);
      MergeFacts(Components(vs, es[..|es| - 1]), vs, e.a, e.b);
    }
  }

  /**
   * Adding one edge to the list leaves the number of components unchanged if
   * its endpoints were already together, and lowers it by one otherwise: the
   * count never grows as edges are added.
   */
  lemma ComponentCountStep(vs: set<int>, es: seq<Edge>, e: Edge)
    requires EdgesWithin(es + [e], vs)
    ensures (es + [e])[..|es|] == es
    ensures |Components(vs, es + [e])| ==
      if SamePart(Components(vs, es), e.a, e.b) then |Components(vs, es)| else |Components(vs, es)| - 1
  {
    assert (es + [e])[..|es|] == es;
    ComponentsPartition(vs, es);
    MergeFacts(Components(vs, es), vs, e.a, e.b);
  }

  /** Every edge of the list lies inside one component. */
  lemma {:induction false} EdgesInsideComponents(vs: set<int>, es: seq<Edge>)
    requires EdgesWithin(es, vs)
    ensures forall e :: e in es ==> SamePart(Components(vs, es), e.a, e.b)
    decreases |es|
  {
    if es != [] {
      var pre := es[..|es| - 1];
      var last := es[|es| - 1];
      assert forall e :: e in pre ==> e in es;
      EdgesInsideComponents(vs, pre);
      ComponentsPartition(vs, pre);
      assert es == pre + [last];
      MergeKeepsEdgesInside(Components(vs, pre), vs, pre, last);
    }
  }

  /** If every edge of `pre` lies inside a part, so does every edge of `pre + [last]` after merging along `last`. */
  lemma MergeKeepsEdgesInside(P: set<set<int>>, vs: set<int>, pre: seq<Edge>, last: Edge)
    requires IsPartition(P, vs) && last.a in vs && last.b in vs
    requires forall e :: e in pre ==> SamePart(P, e.a, e.b)
    ensures forall e :: e in pre + [last] ==> SamePart(Merge(P, last.a, last.b), e.a, e.b)
  {
    MergeJoins(P, vs, last.a, last.b);
    forall e | e in pre + [last] ensures SamePart(Merge(P, last.a, last.b), e.a, e.b) {
      if e != last {
        assert e in pre;
      }
    }
  }

  // ---------------------------------------------------------------------
  // Reachability
  // ---------------------------------------------------------------------

  ghost predicate IsWalk(es: seq<Edge>, p: seq<int>) {
    |p| > 0 && forall i :: 0 <= i < |p| - 1 ==> Linked(es, p[i], p[i + 1])
  }

  /** `y` can be reached from `x` along edges of `es`. */
  ghost predicate Reachable(es: seq<Edge>, x: int, y: int) {
    exists p :: IsWalk(es, p) && p[0] == x && p[|p| - 1] == y
  }

  lemma ReachableRefl(es: seq<Edge>, x: int)
    ensures Reachable(es, x, x)
  {
    assert IsWalk(es, [x]);
  }

  lemma ReachableEdge(es: seq<Edge>, x: int, y: int)
    requires Linked(es, x, y)
    ensures Reachable(es, x, y)
  {
    assert IsWalk(es, [x, y]);
  }

  function Reverse(p: seq<int>): (r: seq<int>)
    ensures |r| == |p|
    ensures forall i :: 0 <= i < |p| ==> r[i] == p[|p| - 1 - i]
  {
    if p == [] then [] else Reverse(p[1..]) + [p[0]]
  }

  lemma ReachableSym(es: seq<Edge>, x: int, y: int)
    requires Reachable(es, x, y)
    ensures Reachable(es, y, x)
  {
    var p :| IsWalk(es, p) && p[0] == x && p[|p| - 1] == y;
    var r := Reverse(p);
    forall i | 0 <= i < |r| - 1 ensures Linked(es, r[i], r[i + 1]) {
      assert r[i] == p[|p| - 1 - i] && r[i + 1] == p[|p| - 2 - i];
      assert Linked(es, p[|p| - 2 - i], p[|p| - 1 - i]);
    }
    assert IsWalk(es, r);
  }

  lemma ReachableTrans(es: seq<Edge>, x: int, y: int, z: int)
    requires Reachable(es, x, y) && Reachable(es, y, z)
    ensures Reachable(es, x, z)
  {
    var p :| IsWalk(es, p) && p[0] == x && p[|p| - 1] == y;
    var q :| IsWalk(es, q) && q[0] == y && q[|q| - 1] == z;
    var r := p + q[1..];
    forall i | 0 <= i < |r| - 1 ensures Linked(es, r[i], r[i + 1]) {
      if i < |p| - 1 {
        assert r[i] == p[i] && r[i + 1] == p[i + 1];
      } else {
        var j := i - (|p| - 1);
        assert r[i] == q[j] && r[i + 1] == q[j + 1];
      }
    }
    assert IsWalk(es, r);
  }

  /** Reachability survives adding edges. */
  lemma ReachableMono(es: seq<Edge>, fs: seq<Edge>, x: int, y: int)
    requires Reachable(es, x, y)
    requires forall e :: e in es ==> e in fs
    ensures Reachable(fs, x, y)
  {
    var p :| IsWalk(es, p) && p[0] == x && p[|p| - 1] == y;
    assert IsWalk(fs, p);
  }

  /** Two vertices in one component are joined by a walk. */
  lemma {:induction false} ComponentsSound(vs: set<int>, es: seq<Edge>, x: int, y: int)
    requires EdgesWithin(es, vs)
    requires SamePart(Components(vs, es), x, y)
    ensures Reachable(es, x, y)
    decreases |es|, 1
  {
    if es == [] {
      var A :| A in Singletons(vs) && x in A && y in A;
      ReachableRefl(es, x);
    } else {
      var pre := es[..|es| - 1];
      var e := es[|es| - 1];
      var P := Components(vs, pre);
      ComponentsPartition(vs, pre);
      MergeOnlyJoins(P, vs, e.a, e.b);
      assert forall f :: f in pre ==> f in es;
      if SamePart(P, x, y) {
        ComponentsSound(vs, pre, x, y);
        ReachableMono(pre, es, x, y);
      } else {
        MergedPartSound(vs, pre, es, x, y);
      }
    }
  }

  /** The step of `ComponentsSound` for two vertices joined by the last merge. */
  lemma {:induction false} MergedPartSound(vs: set<int>, pre: seq<Edge>, es: seq<Edge>, x: int, y: int)
    requires es != [] && pre == es[..|es| - 1] && EdgesWithin(es, vs)
    requires IsPartition(Components(vs, pre), vs)
    requires
      var P := Components(vs, pre);
      var e := es[|es| - 1];
      (x in PartOf(P, vs, e.a) || x in PartOf(P, vs, e.b)) &&
      (y in PartOf(P, vs, e.a) || y in PartOf(P, vs, e.b))
    ensures Reachable(es, x, y)
    decreases |pre|, 3
  {
    var e := es[|es| - 1];
    var P := Components(vs, pre);
    var A, B := PartOf(P, vs, e.a), PartOf(P, vs, e.b);
    assert e in es;
    assert Linked(es, e.a, e.b);
    ReachableEdge(es, e.a, e.b);
    assert forall f :: f in pre ==> f in es;
    assert EdgesWithin(pre, vs);
    EndOfMergedPart(vs, pre, es, A, B, e.a, e.b, x);
    EndOfMergedPart(vs, pre, es, A, B, e.a, e.b, y);
    ReachableSym(es, y, e.a);
    ReachableTrans(es, x, e.a, y);
  }

  /** A vertex of either merged part reaches the first endpoint after the merge. */
  lemma {:induction false} EndOfMergedPart(vs: set<int>, pre: seq<Edge>, es: seq<Edge>,
                                           A: set<int>, B: set<int>, a: int, b: int, x: int)
    requires EdgesWithin(pre, vs) && a in vs && b in vs
    requires IsPartition(Components(vs, pre), vs)
    requires A == PartOf(Components(vs, pre), vs, a) && B == PartOf(Components(vs, pre), vs, b)
    requires forall f :: f in pre ==> f in es
    requires Reachable(es, a, b)
    requires x in A || x in B
    ensures Reachable(es, x, a)
    decreases |pre|, 2
  {
    var P := Components(vs, pre);
    if x in A {
      assert SamePart(P, x, a);
      ComponentsSound(vs, pre, x, a);
      ReachableMono(pre, es, x, a);
    } else {
      assert SamePart(P, x, b);
      ComponentsSound(vs, pre, x, b);
      ReachableMono(pre, es, x, b);
      ReachableSym(es, a, b);
      ReachableTrans(es, x, b, a);
    }
  }

  /** Every vertex of a walk lies in the component of its first vertex. */
  lemma {:induction false} WalkInsideComponent(vs: set<int>, es: seq<Edge>, p: seq<int>)
    requires EdgesWithin(es, vs)
    requires IsWalk(es, p) && p[0] in vs
    ensures SamePart(Components(vs, es), p[0], p[|p| - 1])
    decreases |p|
  {
    var P := Components(vs, es);
    ComponentsPartition(vs, es);
    if |p| == 1 {
      var A := PartOf(P, vs, p[0]);
    } else {
      var q := p[..|p| - 1];
      assert IsWalk(es, q);
      WalkInsideComponent(vs, es, q);
      var u, w := p[|p| - 2], p[|p| - 1];
      assert Linked(es, u, w);
      EdgesInsideComponents(vs, es);
      if Edge(u, w) in es {
        assert SamePart(P, u, w);
      } else {
        assert SamePart(P, w, u);
        var C :| C in P && w in C && u in C;
        assert SamePart(P, u, w);
      }
      SamePartTransitive(P, vs, p[0], u, w);
    }
  }

  /**
   * The components of `es` over `vs` are exactly the classes of reachability:
   * two vertices share a component if and only if a walk joins them.
   */
  lemma ComponentsAreReachabilityClasses(vs: set<int>, es: seq<Edge>)
    requires EdgesWithin(es, vs)
    ensures IsPartition(Components(vs, es), vs)
    ensures forall x, y :: x in vs && y in vs ==> (SamePart(Components(vs, es), x, y) <==> Reachable(es, x, y))
  {
    ComponentsPartition(vs, es);
    forall x, y | x in vs && y in vs
      ensures SamePart(Components(vs, es), x, y) <==> Reachable(es, x, y)
    {
      if SamePart(Components(vs, es), x, y) {
        ComponentsSound(vs, es, x, y);
      }
      if Reachable(es, x, y) {
        var p :| IsWalk(es, p) && p[0] == x && p[|p| - 1] == y;
        WalkInsideComponent(vs, es, p);
      }
    }
  }

  /** The components depend only on which vertices the edges connect, not on the list's order or repetitions. */
  lemma ComponentsByReachability(vs: set<int>, es: seq<Edge>, fs: seq<Edge>)
    requires EdgesWithin(es, vs) && EdgesWithin(fs, vs)
    requires forall x, y :: x in vs && y in vs ==> (Reachable(es, x, y) <==> Reachable(fs, x, y))
    ensures Components(vs, es) == Components(vs, fs)
  {
    ComponentsAreReachabilityClasses(vs, es);
    ComponentsAreReachabilityClasses(vs, fs);
    PartitionsEqual(Components(vs, es), Components(vs, fs), vs);
  }

  /** Two edge lists with the same members have the same components. */
  lemma ComponentsOfSameEdges(vs: set<int>, es: seq<Edge>, fs: seq<Edge>)
    requires EdgesWithin(es, vs) && EdgesWithin(fs, vs)
    requires forall e :: e in es <==> e in fs
    ensures Components(vs, es) == Components(vs, fs)
  {
    forall x, y | x in vs && y in vs ensures Reachable(es, x, y) <==> Reachable(fs, x, y) {
      if Reachable(es, x, y) {
        ReachableMono(es, fs, x, y);
      }
      if Reachable(fs, x, y) {
        ReachableMono(fs, es, x, y);
      }
    }
    ComponentsByReachability(vs, es, fs);
  }

  /**
   * Counting untouched vertices as isolated parts: the components over `vs` are
   * the components over any `W` between the touched vertices and `vs`, plus a
   * singleton for each vertex of `vs` outside `W`.
   */
  lemma {:induction false} ComponentsSplitIsolated(vs: set<int>, W: set<int>, es: seq<Edge>)
    requires EdgesWithin(es, W) && W <= vs
    ensures Components(vs, es) == Components(W, es) + Singletons(vs - W)
    decreases |es|
  {
    if es == [] {
      assert Singletons(vs) == Singletons(W) + Singletons(vs - W);
    } else {
      var pre := es[..|es| - 1];
      var e := es[|es| - 1];
      ComponentsSplitIsolated(vs, W, pre);
      var P := Components(W, pre);
      var S := Singletons(vs - W);
      assert e.a in W && e.b in W;
      assert (set A | A in P + S && e.a !in A && e.b !in A) == (set A | A in P && e.a !in A && e.b !in A) + S;
      assert (set A | A in P + S && (e.a in A || e.b in A)) == (set A | A in P && (e.a in A || e.b in A));
    }
  }

  /** The components with the isolated vertices added back are the components over the whole vertex set. */
  lemma NxComponentsWithIsolates(vs: set<int>, es: seq<Edge>)
    requires EdgesWithin(es, vs)
    ensures Endpoints(es) <= vs
    ensures Components(vs, es) == NxComponents(es) + Isolates(vs, es)
    ensures IsPartition(NxComponents(es), Endpoints(es))
  {
    assert EdgesWithin(es, Endpoints(es)) by {
      forall e | e in es ensures e.a in Endpoints(es) && e.b in Endpoints(es) { }
    }
    ComponentsSplitIsolated(vs, Endpoints(es), es);
    ComponentsPartition(Endpoints(es), es);
  }
}
