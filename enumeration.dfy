/**
 * Enumeration of the edge subsets of a connected base graph that split it
 * into exactly `k` components (`create_all_subgraphs_from_graph`).
 *
 * The vertices are processed in node order. When vertex `v` is processed,
 * each edge joining `v` to an already processed vertex is offered, in turn,
 * to every candidate edge list kept so far; the extended list is kept when
 * it still has at least `k` components (untouched vertices count as isolated
 * parts), and when it has exactly `k` the edges of `G` induced on its
 * components are recorded.
 *
 * `Kept` and `Found` specify the two lists the procedure builds; the method
 * `CreateAllSubgraphs` is proved to compute them, and the lemmas below say
 * what they hold: exactly the non-empty subsequences of the offered edges
 * with `k` components, and for each one the induced edge set, which has the
 * same `k` components.
 */
module Enumeration {
  import opened Graphs

  /** `nx.is_connected(G)`: the graph has a single component. */
  predicate IsConnected(g: Graph) {
    |Components(NodeSet(g), g.edges)| == 1
  }

  /** `IsConnected` means every vertex reaches every other. */
  lemma ConnectedMeansAllReachable(g: Graph)
    requires ValidGraph(g) && |g.nodes| > 0
    ensures IsConnected(g) <==> forall x, y :: x in NodeSet(g) && y in NodeSet(g) ==> Reachable(g.edges, x, y)
  {
    var V := NodeSet(g);
    var P := Components(V, g.edges);
    ComponentsAreReachabilityClasses(V, g.edges);
    var x0 := g.nodes[0];
    assert x0 in V;
    var A := PartOf(P, V, x0);
    if IsConnected(g) {
      assert |P - {A}| == 0;
      assert P == {A};
      forall x, y | x in V && y in V ensures Reachable(g.edges, x, y) {
        var C :| C in P && x in C;
        var D :| D in P && y in D;
        assert SamePart(P, x, y);
      }
    }
    if forall x, y :: x in V && y in V ==> Reachable(g.edges, x, y) {
      forall B | B in P ensures B == A {
        NonEmptyHasElement(B);
        var y :| y in B;
        assert Reachable(g.edges, x0, y);
        var C :| C in P && x0 in C && y in C;
      }
      assert P == {A};
    }
  }

  // ---------------------------------------------------------------------
  // The edges offered, in processing order
  // ---------------------------------------------------------------------

  /**
   * `G.subgraph(done + [v]).edges(v)`: the edges of `es` joining `v` to a
   * vertex of `done + [v]`, in the order of `es`.
   */
  function IncidentEdges(es: seq<Edge>, done: seq<int>, v: int): (r: seq<Edge>)
    ensures forall e :: e in r <==> e in es && ((e.a == v && e.b in done + [v]) || (e.b == v && e.a in done + [v]))
    decreases |es|
  {
    if es == [] then []
    else
      var e := es[|es| - 1];
      var rest := IncidentEdges(es[..|es| - 1], done, v);
      assert forall f :: f in es <==> f in es[..|es| - 1] || f == e;
      if (e.a == v && e.b in done + [v]) || (e.b == v && e.a in done + [v]) then rest + [e] else rest
  }

  /** The edges offered while the first `i` nodes are processed, in the order they are offered. */
  function Order(g: Graph, i: nat): seq<Edge>
    requires i <= |g.nodes|
  {
    if i == 0 then []
    else Order(g, i - 1) + IncidentEdges(g.edges, g.nodes[..i - 1], g.nodes[i - 1])
  }

  /** After `i` nodes, exactly the edges between two of those nodes have been offered. */
  lemma {:induction false} OrderEdges(g: Graph, i: nat)
    requires i <= |g.nodes|
    ensures forall e :: e in Order(g, i) <==> e in g.edges && e.a in g.nodes[..i] && e.b in g.nodes[..i]
  {
    if i > 0 {
      OrderEdges(g, i - 1);
      var v := g.nodes[i - 1];
      assert g.nodes[..i] == g.nodes[..i - 1] + [v];
      forall e ensures e in Order(g, i) <==> e in g.edges && e.a in g.nodes[..i] && e.b in g.nodes[..i] {
        if e in g.edges && e.a in g.nodes[..i] && e.b in g.nodes[..i] {
          if e.a != v && e.b != v {
            assert e.a in g.nodes[..i - 1] && e.b in g.nodes[..i - 1];
          }
        }
      }
    }
  }

  /** Once every node is processed, every edge of `G`, and nothing else, has been offered. */
  lemma AllEdgesOffered(g: Graph)
    requires ValidGraph(g)
    ensures forall e :: e in Order(g, |g.nodes|) <==> e in g.edges
  {
    OrderEdges(g, |g.nodes|);
    assert g.nodes[..|g.nodes|] == g.nodes;
  }

  // ---------------------------------------------------------------------
  // Subsequences
  // ---------------------------------------------------------------------

  /** `s` is obtained from `t` by dropping some of its elements. */
  ghost predicate IsSubseq(s: seq<Edge>, t: seq<Edge>)
    decreases |t|
  {
    if t == [] then s == []
    else
      IsSubseq(s, t[..|t| - 1]) ||
      (s != [] && s[|s| - 1] == t[|t| - 1] && IsSubseq(s[..|s| - 1], t[..|t| - 1]))
  }

  lemma {:induction false} SubseqMembers(s: seq<Edge>, t: seq<Edge>)
    requires IsSubseq(s, t)
    ensures forall e :: e in s ==> e in t
    decreases |t|
  {
    if t != [] {
      var pre := t[..|t| - 1];
      assert forall e :: e in pre ==> e in t;
      if IsSubseq(s, pre) {
        SubseqMembers(s, pre);
      } else {
        SubseqMembers(s[..|s| - 1], pre);
        assert s == s[..|s| - 1] + [s[|s| - 1]];
      }
    }
  }

  /** The elements of `t` that occur in `s`, in the order of `t`. */
  function Select(t: seq<Edge>, s: seq<Edge>): (r: seq<Edge>)
    ensures forall e :: e in r <==> e in t && e in s
    decreases |t|
  {
    if t == [] then []
    else
      var e := t[|t| - 1];
      assert forall f :: f in t <==> f in t[..|t| - 1] || f == e;
      if e in s then Select(t[..|t| - 1], s) + [e] else Select(t[..|t| - 1], s)
  }

  lemma {:induction false} SelectIsSubseq(t: seq<Edge>, s: seq<Edge>)
    ensures IsSubseq(Select(t, s), t)
    decreases |t|
  {
    if t != [] {
      var pre := t[..|t| - 1];
      SelectIsSubseq(pre, s);
      var r := Select(t, s);
      if t[|t| - 1] in s {
        assert r[..|r| - 1] == Select(pre, s);
      }
    }
  }

  // ---------------------------------------------------------------------
  // The candidates and the recorded subgraphs
  // ---------------------------------------------------------------------

  /**
   * The components of `temp_graph`: `nx.Graph(es)` with the vertices of `G`
   * that `es` does not touch added as isolated nodes.
   */
  function TempComponents(g: Graph, es: seq<Edge>): set<set<int>> {
    NxComponents(es) + Isolates(NodeSet(g), es)
  }

  /** `TempComponents` as a function of the candidate, the form the procedure is written against. */
  function TempParts(g: Graph): seq<Edge> -> set<set<int>> {
    (es: seq<Edge>) => TempComponents(g, es)
  }

  /** `nx.number_connected_components(temp_graph)`. */
  function Count(g: Graph, es: seq<Edge>): nat {
    |TempComponents(g, es)|
  }

  /** For an edge list of `G`, `temp_graph` has the components of `es` over the vertices of `G`. */
  lemma TempIsComponents(g: Graph, es: seq<Edge>)
    requires EdgesWithin(es, NodeSet(g))
    ensures TempComponents(g, es) == Components(NodeSet(g), es)
    ensures IsPartition(TempComponents(g, es), NodeSet(g))
  {
    NxComponentsWithIsolates(NodeSet(g), es);
    ComponentsPartition(NodeSet(g), es);
  }

  /** The edges of `fs` whose two endpoints lie in one part of `P`, in the order of `fs`. */
  function InsideParts(fs: seq<Edge>, P: set<set<int>>): (r: seq<Edge>)
    ensures forall e :: e in r <==> e in fs && SamePart(P, e.a, e.b)
    decreases |fs|
  {
    if fs == [] then []
    else
      var e := fs[|fs| - 1];
      assert forall f :: f in fs <==> f in fs[..|fs| - 1] || f == e;
      if SamePart(P, e.a, e.b) then InsideParts(fs[..|fs| - 1], P) + [e] else InsideParts(fs[..|fs| - 1], P)
  }

  /**
   * `our_edge_set1`: the edges of `G` induced on the components of
   * `temp_graph`, that is, the edges of `G` whose endpoints share a component.
   */
  function Closure(g: Graph, es: seq<Edge>): seq<Edge> {
    InsideParts(g.edges, TempComponents(g, es))
  }

  /*
   * The lists the procedure builds are specified for any way `parts` of
   * computing the components of a candidate; the procedure itself is run
   * with `TempParts(G)`.
   */

  /** The candidates appended when edge `e` is offered to the snapshot `cs`. */
  function Extend(parts: seq<Edge> -> set<set<int>>, k: int, cs: seq<seq<Edge>>, e: Edge): seq<seq<Edge>>
    decreases |cs|
  {
    if cs == [] then []
    else
      var d := cs[|cs| - 1];
      var rest := Extend(parts, k, cs[..|cs| - 1], e);
      if |parts(d + [e])| > k - 1 then rest + [d + [e]] else rest
  }

  /** The subgraphs recorded when edge `e` is offered to the snapshot `cs`. */
  function Emit(edges: seq<Edge>, parts: seq<Edge> -> set<set<int>>, k: int, cs: seq<seq<Edge>>, e: Edge): seq<seq<Edge>>
    decreases |cs|
  {
    if cs == [] then []
    else
      var d := cs[|cs| - 1];
      var rest := Emit(edges, parts, k, cs[..|cs| - 1], e);
      if |parts(d + [e])| > k - 1 && |parts(d + [e])| == k then rest + [InsideParts(edges, parts(d + [e]))] else rest
  }

  /** `temp_induced_sub_G2` after the edges `es` have been offered: it starts as `[[]]`. */
  function Kept(parts: seq<Edge> -> set<set<int>>, k: int, es: seq<Edge>): (cs: seq<seq<Edge>>)
    ensures |cs| > 0 && cs[0] == []
    decreases |es|
  {
    if es == [] then [[]]
    else
      var cs := Kept(parts, k, es[..|es| - 1]);
      cs + Extend(parts, k, cs, es[|es| - 1])
  }

  /** `induced_subgraphs_of_G` after the edges `es` have been offered. */
  function Found(edges: seq<Edge>, parts: seq<Edge> -> set<set<int>>, k: int, es: seq<Edge>): seq<seq<Edge>>
    decreases |es|
  {
    if es == [] then []
    else
      var pre := es[..|es| - 1];
      Found(edges, parts, k, pre) + Emit(edges, parts, k, Kept(parts, k, pre), es[|es| - 1])
  }

  /** The appended candidates are the extensions by `e` that keep at least `k` components. */
  lemma {:induction false} ExtendMembers(parts: seq<Edge> -> set<set<int>>, k: int, cs: seq<seq<Edge>>, e: Edge)
    ensures forall c :: c in Extend(parts, k, cs, e) <==> exists d :: d in cs && c == d + [e] && |parts(d + [e])| > k - 1
    decreases |cs|
  {
    if cs != [] {
      ExtendMembers(parts, k, cs[..|cs| - 1], e);
      assert forall x :: x in cs <==> x in cs[..|cs| - 1] || x == cs[|cs| - 1];
    }
  }

  /** The recorded subgraphs are the induced edge sets of the extensions by `e` with exactly `k` components. */
  lemma {:induction false} EmitMembers(edges: seq<Edge>, parts: seq<Edge> -> set<set<int>>, k: int, cs: seq<seq<Edge>>, e: Edge)
    ensures forall o :: o in Emit(edges, parts, k, cs, e) <==>
      exists d :: d in cs && |parts(d + [e])| == k && o == InsideParts(edges, parts(d + [e]))
    decreases |cs|
  {
    if cs != [] {
      EmitMembers(edges, parts, k, cs[..|cs| - 1], e);
      assert forall x :: x in cs <==> x in cs[..|cs| - 1] || x == cs[|cs| - 1];
    }
  }

  /** Offering one more edge appends to both lists; nothing kept or recorded earlier is lost. */
  lemma OfferStep(edges: seq<Edge>, parts: seq<Edge> -> set<set<int>>, k: int, es: seq<Edge>, e: Edge)
    ensures Kept(parts, k, es + [e]) == Kept(parts, k, es) + Extend(parts, k, Kept(parts, k, es), e)
    ensures Found(edges, parts, k, es + [e]) == Found(edges, parts, k, es) + Emit(edges, parts, k, Kept(parts, k, es), e)
  {
    assert (es + [e])[..|es|] == es;
  }

  // ---------------------------------------------------------------------
  // What the two lists hold
  // ---------------------------------------------------------------------

  /**
   * Every kept candidate is a subsequence of the offered edges, and apart
   * from the initial empty list it has at least `k` components.
   */
  lemma {:induction false} KeptSound(parts: seq<Edge> -> set<set<int>>, k: int, es: seq<Edge>)
    ensures forall c :: c in Kept(parts, k, es) ==> IsSubseq(c, es) && (c == [] || |parts(c)| >= k)
    decreases |es|
  {
    if es == [] {
      assert Kept(parts, k, es) == [[]];
    } else {
      var pre, e := es[..|es| - 1], es[|es| - 1];
      var cs := Kept(parts, k, pre);
      KeptSound(parts, k, pre);
      ExtendMembers(parts, k, cs, e);
      assert Kept(parts, k, es) == cs + Extend(parts, k, cs, e);
      forall c | c in Kept(parts, k, es) ensures IsSubseq(c, es) && (c == [] || |parts(c)| >= k) {
        if c !in cs {
          var d :| d in cs && c == d + [e] && |parts(d + [e])| > k - 1;
          assert c[..|c| - 1] == d;
        }
      }
    }
  }

  /**
   * Conversely, every non-empty subsequence of the offered edges of `G` that
   * leaves at least `k` components is kept: a list with fewer components
   * never regains them, so no prefix of it was dropped on the way.
   */
  lemma {:induction false} KeptComplete(g: Graph, k: int, es: seq<Edge>, c: seq<Edge>)
    requires EdgesWithin(es, NodeSet(g))
    requires IsSubseq(c, es) && c != [] && Count(g, c) >= k
    ensures c in Kept(TempParts(g), k, es)
    decreases |es|
  {
    assert es != [];
    var pre, e := es[..|es| - 1], es[|es| - 1];
    assert es == pre + [e];
    assert forall f :: f in pre ==> f in es;
    if IsSubseq(c, pre) {
      KeptComplete(g, k, pre, c);
      KeptGrows(TempParts(g), k, pre, e);
    } else {
      var d := c[..|c| - 1];
      assert c == d + [e] && IsSubseq(d, pre);
      SubseqMembers(d, pre);
      if d != [] {
        FewerPartsBefore(g, d, e);
        KeptComplete(g, k, pre, d);
      }
      KeptExtended(g, k, pre, d, e);
    }
  }

  /** Candidates kept earlier stay kept. */
  lemma KeptGrows(parts: seq<Edge> -> set<set<int>>, k: int, es: seq<Edge>, e: Edge)
    ensures forall c :: c in Kept(parts, k, es) ==> c in Kept(parts, k, es + [e])
  {
    OfferStep([], parts, k, es, e);
  }

  /** Removing the last edge of a list of `G` edges never lowers its number of components. */
  lemma FewerPartsBefore(g: Graph, d: seq<Edge>, e: Edge)
    requires EdgesWithin(d + [e], NodeSet(g))
    ensures Count(g, d) >= Count(g, d + [e])
  {
    assert forall f :: f in d ==> f in d + [e];
    TempIsComponents(g, d);
    TempIsComponents(g, d + [e]);
    ComponentCountStep(NodeSet(g), d, e);
  }

  /** A kept candidate whose extension by the next edge has enough components is extended. */
  lemma KeptExtended(g: Graph, k: int, es: seq<Edge>, d: seq<Edge>, e: Edge)
    requires d in Kept(TempParts(g), k, es) && Count(g, d + [e]) > k - 1
    ensures d + [e] in Kept(TempParts(g), k, es + [e])
  {
    var parts := TempParts(g);
    OfferStep([], parts, k, es, e);
    ExtendMembers(parts, k, Kept(parts, k, es), e);
    assert parts(d + [e]) == TempComponents(g, d + [e]);
  }

  /** A non-empty subsequence of the offered edges with exactly `k` components has its induced edge list recorded. */
  lemma Recorded(g: Graph, k: int, es: seq<Edge>, c: seq<Edge>)
    requires EdgesWithin(es, NodeSet(g))
    requires IsSubseq(c, es) && c != [] && Count(g, c) == k
    ensures Closure(g, c) in Found(g.edges, TempParts(g), k, es)
  {
    var parts := TempParts(g);
    KeptComplete(g, k, es, c);
    FoundFromKept(g.edges, parts, k, es);
    assert parts(c) == TempComponents(g, c);
  }

  /**
   * A list is recorded exactly when it is the induced edge list of a
   * non-empty kept candidate with exactly `k` components.
   */
  lemma {:induction false} FoundFromKept(edges: seq<Edge>, parts: seq<Edge> -> set<set<int>>, k: int, es: seq<Edge>)
    ensures forall o :: o in Found(edges, parts, k, es) <==>
      exists c :: c in Kept(parts, k, es) && c != [] && |parts(c)| == k && o == InsideParts(edges, parts(c))
    decreases |es|
  {
    if es == [] {
      assert Kept(parts, k, es) == [[]];
    } else {
      var pre, e := es[..|es| - 1], es[|es| - 1];
      var cs := Kept(parts, k, pre);
      FoundFromKept(edges, parts, k, pre);
      ExtendMembers(parts, k, cs, e);
      EmitMembers(edges, parts, k, cs, e);
      assert Kept(parts, k, es) == cs + Extend(parts, k, cs, e);
      assert Found(edges, parts, k, es) == Found(edges, parts, k, pre) + Emit(edges, parts, k, cs, e);
      forall o ensures o in Found(edges, parts, k, es) <==>
        exists c :: c in Kept(parts, k, es) && c != [] && |parts(c)| == k && o == InsideParts(edges, parts(c))
      {
        if o in Emit(edges, parts, k, cs, e) {
          var d :| d in cs && |parts(d + [e])| == k && o == InsideParts(edges, parts(d + [e]));
          assert d + [e] in Kept(parts, k, es);
        }
        if c :| c in Kept(parts, k, es) && c != [] && |parts(c)| == k && o == InsideParts(edges, parts(c)) {
          if c !in cs {
            var d :| d in cs && c == d + [e] && |parts(d + [e])| > k - 1;
            assert o in Emit(edges, parts, k, cs, e);
          }
        }
      }
    }
  }

  /**
   * What `create_all_subgraphs_from_graph` records: for every non-empty
   * subsequence of the offered edges whose components number exactly `k`,
   * the edges of `G` induced on those components, and nothing else.
   */
  lemma EnumerationExact(g: Graph, k: int, es: seq<Edge>)
    requires EdgesWithin(es, NodeSet(g))
    ensures forall o :: o in Found(g.edges, TempParts(g), k, es) <==>
      exists c :: IsSubseq(c, es) && c != [] && Count(g, c) == k && o == Closure(g, c)
  {
    var parts := TempParts(g);
    FoundFromKept(g.edges, parts, k, es);
    KeptSound(parts, k, es);
    forall o ensures o in Found(g.edges, parts, k, es) <==>
      exists c :: IsSubseq(c, es) && c != [] && Count(g, c) == k && o == Closure(g, c)
    {
      if o in Found(g.edges, parts, k, es) {
        var c :| c in Kept(parts, k, es) && c != [] && |parts(c)| == k && o == InsideParts(g.edges, parts(c));
        assert parts(c) == TempComponents(g, c);
      }
      if c :| IsSubseq(c, es) && c != [] && Count(g, c) == k && o == Closure(g, c) {
        Recorded(g, k, es, c);
      }
    }
  }

  /** A walk along edges that each lie inside a part stays inside the part it starts in. */
  lemma {:induction false} WalkWithinParts(P: set<set<int>>, vs: set<int>, es: seq<Edge>, p: seq<int>)
    requires IsWalk(es, p)
    requires IsPartition(P, vs) && p[0] in vs
    requires forall e :: e in es ==> SamePart(P, e.a, e.b)
    ensures SamePart(P, p[0], p[|p| - 1])
    decreases |p|
  {
    if |p| == 1 {
      var A := PartOf(P, vs, p[0]);
    } else {
      var q := p[..|p| - 1];
      assert IsWalk(es, q);
      WalkWithinParts(P, vs, es, q);
      var u, w := p[|p| - 2], p[|p| - 1];
      assert Linked(es, u, w);
      if Edge(u, w) in es {
        assert SamePart(P, u, w);
      } else {
        assert SamePart(P, w, u);
        var C :| C in P && w in C && u in C;
        assert SamePart(P, u, w);
      }
      SamePartTransitive(P, vs, p[0], u, w);
    }
  }

  /**
   * The induced edge list of a candidate has the same components as the
   * candidate: closing a forest of parts under the edges of `G` inside them
   * joins nothing new.
   */
  lemma ClosureSameComponents(g: Graph, c: seq<Edge>)
    requires ValidGraph(g)
    requires forall e :: e in c ==> e in g.edges
    ensures Components(NodeSet(g), Closure(g, c)) == Components(NodeSet(g), c)
  {
    var V := NodeSet(g);
    var cl := Closure(g, c);
    assert EdgesWithin(c, V);
    TempIsComponents(g, c);
    var P := Components(V, c);
    EdgesInsideComponents(V, c);
    ComponentsAreReachabilityClasses(V, c);
    assert forall e :: e in c ==> e in cl;
    assert forall e :: e in cl ==> SamePart(P, e.a, e.b);
    forall x, y | x in V && y in V ensures Reachable(c, x, y) <==> Reachable(cl, x, y) {
      if Reachable(c, x, y) {
        ReachableMono(c, cl, x, y);
      }
      if Reachable(cl, x, y) {
        var p :| IsWalk(cl, p) && p[0] == x && p[|p| - 1] == y;
        WalkWithinParts(P, V, cl, p);
      }
    }
    ComponentsByReachability(V, c, cl);
  }

  /**
   * Every recorded list is a set of edges of `G` with exactly `k` components
   * over the vertices of `G`, and it holds every edge of `G` inside one of
   * them: each part induces its subgraph.
   */
  lemma RecordedAreInducedKPartitions(g: Graph, k: int, o: seq<Edge>)
    requires ValidGraph(g)
    requires o in Found(g.edges, TempParts(g), k, Order(g, |g.nodes|))
    ensures |Components(NodeSet(g), o)| == k
    ensures forall e :: e in o <==> e in g.edges && SamePart(Components(NodeSet(g), o), e.a, e.b)
  {
    var es := Order(g, |g.nodes|);
    AllEdgesOffered(g);
    assert EdgesWithin(es, NodeSet(g));
    EnumerationExact(g, k, es);
    var c :| IsSubseq(c, es) && c != [] && Count(g, c) == k && o == Closure(g, c);
    SubseqMembers(c, es);
    assert EdgesWithin(c, NodeSet(g));
    TempIsComponents(g, c);
    ClosureSameComponents(g, c);
  }

  /**
   * Every partition of `G` into `k` connected pieces that some non-empty
   * edge list of `G` spans is recorded (as its induced edge list).
   */
  lemma EveryKPartitionRecorded(g: Graph, k: int, s: seq<Edge>)
    requires ValidGraph(g) && s != []
    requires forall e :: e in s ==> e in g.edges
    requires |Components(NodeSet(g), s)| == k
    ensures exists o :: (o in Found(g.edges, TempParts(g), k, Order(g, |g.nodes|)) &&
                         Components(NodeSet(g), o) == Components(NodeSet(g), s))
  {
    var V := NodeSet(g);
    var es := Order(g, |g.nodes|);
    AllEdgesOffered(g);
    assert EdgesWithin(es, V);
    var c := Select(es, s);
    SelectIsSubseq(es, s);
    assert s[0] in c;
    assert EdgesWithin(c, V) && EdgesWithin(s, V);
    ComponentsOfSameEdges(V, c, s);
    TempIsComponents(g, c);
    Recorded(g, k, es, c);
    ClosureSameComponents(g, c);
  }

  /** A non-empty edge list of distinct endpoints joins at least two vertices: fewer than |V| components. */
  lemma {:induction false} FewerPartsThanVertices(vs: set<int>, es: seq<Edge>)
    requires EdgesWithin(es, vs) && es != []
    requires forall e :: e in es ==> e.a != e.b
    ensures |Components(vs, es)| <= |vs| - 1
    decreases |es|
  {
    var pre, e := es[..|es| - 1], es[|es| - 1];
    assert es == pre + [e];
    assert forall f :: f in pre ==> f in es;
    ComponentCountStep(vs, pre, e);
    if pre != [] {
      FewerPartsThanVertices(vs, pre);
    } else {
      SingletonsCount(vs);
      assert !SamePart(Singletons(vs), e.a, e.b);
    }
  }

  /**
   * With `k` at least the number of vertices nothing is recorded: the
   * all-singletons partition would need the empty edge list, which is never
   * offered.
   */
  lemma NothingForAllSingletons(g: Graph, k: int)
    requires ValidGraph(g) && k >= |NodeSet(g)|
    ensures Found(g.edges, TempParts(g), k, Order(g, |g.nodes|)) == []
  {
    var es := Order(g, |g.nodes|);
    var found := Found(g.edges, TempParts(g), k, es);
    AllEdgesOffered(g);
    assert EdgesWithin(es, NodeSet(g));
    EnumerationExact(g, k, es);
    if found != [] {
      assert found[0] in found;
      var c :| IsSubseq(c, es) && c != [] && Count(g, c) == k && found[0] == Closure(g, c);
      SubseqMembers(c, es);
      assert EdgesWithin(c, NodeSet(g));
      TempIsComponents(g, c);
      FewerPartsThanVertices(NodeSet(g), c);
      assert false;
    }
  }

  // ---------------------------------------------------------------------
  // The procedure
  // ---------------------------------------------------------------------

  /** `vert_left.remove(x)`: drop the first occurrence (Python raises when there is none). */
  function RemoveFirst(s: seq<int>, x: int): (r: seq<int>)
    requires x in s
    ensures |r| == |s| - 1
  {
    if s[0] == x then s[1..] else [s[0]] + RemoveFirst(s[1..], x)
  }

  /** The position of the first occurrence of `x` in `s`. */
  function FirstIndex(s: seq<int>, x: int): (i: nat)
    requires x in s
    ensures i < |s| && s[i] == x && x !in s[..i]
  {
    if s[0] == x then 0
    else
      var j := FirstIndex(s[1..], x);
      assert s[..j + 1] == [s[0]] + s[1..][..j];
      j + 1
  }

  /** `RemoveFirst` deletes exactly the first occurrence of `x`. */
  lemma {:induction false} RemoveFirstDeletesFirst(s: seq<int>, x: int)
    requires x in s
    ensures RemoveFirst(s, x) == s[..FirstIndex(s, x)] + s[FirstIndex(s, x) + 1..]
  {
    if s[0] != x {
      var t := s[1..];
      RemoveFirstDeletesFirst(t, x);
      var j := FirstIndex(t, x);
      assert FirstIndex(s, x) == j + 1;
      calc {
        RemoveFirst(s, x);
        [s[0]] + RemoveFirst(t, x);
        [s[0]] + (t[..j] + t[j + 1..]);
        { assert s[..j + 1] == [s[0]] + t[..j]; assert s[j + 2..] == t[j + 1..]; }
        s[..j + 1] + s[j + 2..];
      }
    }
  }

  /**
   * One offer of edge `e`: every candidate of the snapshot `cands` is
   * extended by `e` and kept when it still has at least `k` components; the
   * edges of `G` induced on its components are recorded when it has exactly `k`.
   */
  method OfferEdge(edges: seq<Edge>, parts: seq<Edge> -> set<set<int>>, k: int,
                   cands: seq<seq<Edge>>, induced: seq<seq<Edge>>, e: Edge)
    returns (cands': seq<seq<Edge>>, induced': seq<seq<Edge>>)
    ensures cands' == cands + Extend(parts, k, cands, e)
    ensures induced' == induced + Emit(edges, parts, k, cands, e)
  {
    var snapshot := cands;
    cands', induced' := cands, induced;
    for t := 0 to |snapshot|
      invariant cands' == snapshot + Extend(parts, k, snapshot[..t], e)
      invariant induced' == induced + Emit(edges, parts, k, snapshot[..t], e)
    {
      assert snapshot[..t + 1][..t] == snapshot[..t];
      var subg := snapshot[t];
      var tempGraph := parts(subg + [e]);
      if |tempGraph| > k - 1 {
        cands' := cands' + [subg + [e]];
        if |tempGraph| == k {
          induced' := induced' + [InsideParts(edges, tempGraph)];
        }
      }
    }
    assert snapshot[..|snapshot|] == snapshot;
  }

  /**
   * The edges incident to the vertex being processed, offered one after the
   * other; the list of candidates is never empty, so the branch that would
   * seed it cannot be taken.
   */
  method OfferEdges(edges: seq<Edge>, parts: seq<Edge> -> set<set<int>>, k: int,
                    cands: seq<seq<Edge>>, induced: seq<seq<Edge>>, ghost before: seq<Edge>, incident: seq<Edge>)
    returns (cands': seq<seq<Edge>>, induced': seq<seq<Edge>>)
    requires cands == Kept(parts, k, before) && induced == Found(edges, parts, k, before)
    ensures cands' == Kept(parts, k, before + incident)
    ensures induced' == Found(edges, parts, k, before + incident)
  {
    cands', induced' := cands, induced;
    assert before + incident[..0] == before;
    for j := 0 to |incident|
      invariant cands' == Kept(parts, k, before + incident[..j])
      invariant induced' == Found(edges, parts, k, before + incident[..j])
    {
      var e := incident[j];
      ghost var es := before + incident[..j];
      assert before + incident[..j + 1] == es + [e];
      OfferStep(edges, parts, k, es, e);
      cands', induced' := OfferEdge(edges, parts, k, cands', induced', e);
      if |cands'| == 0 {
        assert false;
      }
    }
    assert incident[..|incident|] == incident;
  }

  /**
   * `create_all_subgraphs_from_graph(G, k)`: `None` for a disconnected `G`,
   * otherwise the list the procedure records, which is `Found` over the edges
   * in the order they are offered.
   */
  method CreateAllSubgraphs(g: Graph, k: int) returns (r: Option<seq<seq<Edge>>>)
    requires ValidGraph(g) && |g.nodes| > 0
    ensures r.None? <==> !IsConnected(g)
    ensures r.Some? ==> r.value == Found(g.edges, TempParts(g), k, Order(g, |g.nodes|))
  {
    if !IsConnected(g) {
      return None;
    }
    var induced := ProcessVertices(g, TempParts(g), k);
    return Some(induced);
  }

  /** The `while` loop of `create_all_subgraphs_from_graph`: each vertex is processed once, in node order. */
  method ProcessVertices(g: Graph, parts: seq<Edge> -> set<set<int>>, k: int) returns (induced: seq<seq<Edge>>)
    ensures induced == Found(g.edges, parts, k, Order(g, |g.nodes|))
  {
    var tempVertexSet: seq<int> := [];
    induced := [];
    var vertLeft := g.nodes;
    var cands: seq<seq<Edge>> := [[]];
    while |vertLeft| > 0
      invariant tempVertexSet + vertLeft == g.nodes
      invariant cands == Kept(parts, k, Order(g, |tempVertexSet|))
      invariant induced == Found(g.edges, parts, k, Order(g, |tempVertexSet|))
      decreases |vertLeft|
    {
      var v := vertLeft[0];
      var incident := IncidentEdges(g.edges, tempVertexSet, v);
      NextVertex(g, tempVertexSet, vertLeft);
      cands, induced := OfferEdges(g.edges, parts, k, cands, induced, Order(g, |tempVertexSet|), incident);
      vertLeft := RemoveFirst(vertLeft, v);
      tempVertexSet := tempVertexSet + [v];
    }
    assert tempVertexSet == g.nodes;
  }

  /** Moving the first unprocessed vertex to the processed ones offers its incident edges next. */
  lemma NextVertex(g: Graph, done: seq<int>, left: seq<int>)
    requires done + left == g.nodes && |left| > 0
    ensures |done| + 1 <= |g.nodes|
    ensures Order(g, |done| + 1) == Order(g, |done|) + IncidentEdges(g.edges, done, left[0])
    ensures RemoveFirst(left, left[0]) == left[1..]
    ensures (done + [left[0]]) + left[1..] == g.nodes
  {
    assert done == g.nodes[..|done|] && left[0] == g.nodes[|done|];
    assert (done + [left[0]]) + left[1..] == done + left;
  }
}
