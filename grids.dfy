/**
 * The base graphs of the redistricting scripts: the n-by-n grid with
 * north/south/west/east neighbours, and the n-by-n king's graph that adds
 * the four diagonal neighbours. Cells are numbered row by row, so cell i sits
 * in row i / n and column i % n. Both constructions compute neighbours by
 * index arithmetic; their contracts state the edge sets by coordinates.
 */
module Grids {
  import opened Graphs

  function Abs(x: int): nat {
    if x < 0 then -x else x
  }

  predicate InGrid(n: nat, i: int) {
    0 <= i < n * n
  }

  /** Cells at distance one along a row or a column. */
  predicate RookAdjacent(n: nat, x: int, y: int) {
    n > 0 && InGrid(n, x) && InGrid(n, y) &&
    Abs(x / n - y / n) + Abs(x % n - y % n) == 1
  }

  /** Distinct cells whose rows and columns each differ by at most one. */
  predicate KingAdjacent(n: nat, x: int, y: int) {
    n > 0 && InGrid(n, x) && InGrid(n, y) && x != y &&
    Abs(x / n - y / n) <= 1 && Abs(x % n - y % n) <= 1
  }

  // ---------------------------------------------------------------------
  // Row-major arithmetic
  // ---------------------------------------------------------------------

  lemma MulAtLeast(n: int, a: int)
    requires n > 0 && a >= 1
    ensures n * a >= n
  {
    assert n * a == n * (a - 1) + n;
    assert n * (a - 1) >= 0;
  }

  lemma DivModUnique(n: nat, i: int, q: int, r: int)
    requires n > 0 && 0 <= r < n && i == n * q + r
    ensures i / n == q && i % n == r
  {
    var q', r' := i / n, i % n;
    assert i == n * q' + r' && 0 <= r' < n;
    if q' > q {
      assert n * q' - n * q == n * (q' - q);
      MulAtLeast(n, q' - q);
      assert false;
    } else if q' < q {
      assert n * q - n * q' == n * (q - q');
      MulAtLeast(n, q - q');
      assert false;
    }
  }

  /** The cell in row r and column c. */
  lemma CellAt(n: nat, r: int, c: int)
    requires n > 0 && 0 <= r < n && 0 <= c < n
    ensures InGrid(n, n * r + c)
    ensures (n * r + c) / n == r && (n * r + c) % n == c
  {
    DivModUnique(n, n * r + c, r, c);
    var m := n - 1 - r;
    assert n * n == n * r + n * m + n by {
      assert n == r + m + 1;
    }
    if m > 0 {
      MulAtLeast(n, m);
    }
  }

  /** A grid with a cell has a positive side. */
  lemma SidePositive(n: nat, i: int)
    requires InGrid(n, i)
    ensures n > 0
  {
  }

  /** A cell's row and column are both in range. */
  lemma CellCoords(n: nat, i: int)
    requires n > 0 && InGrid(n, i)
    ensures 0 <= i / n < n && 0 <= i % n < n && i == n * (i / n) + i % n
  {
    if i / n >= n {
      MulAtLeast(n, i / n - n + 1);
      assert false;
    }
  }

  /** The neighbour of cell `i` shifted by `dr` rows and `dc` columns, when it is inside the grid. */
  lemma Shift(n: nat, i: int, dr: int, dc: int)
    requires n > 0 && InGrid(n, i)
    requires 0 <= i / n + dr < n && 0 <= i % n + dc < n
    ensures InGrid(n, i + n * dr + dc)
    ensures (i + n * dr + dc) / n == i / n + dr && (i + n * dr + dc) % n == i % n + dc
  {
    CellCoords(n, i);
    assert i + n * dr + dc == n * (i / n + dr) + (i % n + dc);
    CellAt(n, i / n + dr, i % n + dc);
  }

  /**
   * The king-adjacent cells of a cell x that come after it: east (same row),
   * and the three cells of the next row.
   */
  lemma LaterNeighbour(n: nat, x: int, y: int)
    requires KingAdjacent(n, x, y) && x < y
    ensures x / n < y / n || (y == x + 1 && x % n < n - 1)
    ensures x / n < y / n ==>
      x / n < n - 1 && y / n == x / n + 1 &&
      ((y == x + n - 1 && x % n > 0) || y == x + n || (y == x + n + 1 && x % n < n - 1))
  {
    CellCoords(n, x);
    CellCoords(n, y);
    var rx, cx, ry, cy := x / n, x % n, y / n, y % n;
    if ry == rx {
      assert y - x == cy - cx by {
        assert y - x == n * ry + cy - (n * rx + cx);
      }
    } else if ry == rx + 1 {
      assert n * ry == n * rx + n;
    } else {
      assert false;
    }
  }

  // ---------------------------------------------------------------------
  // networkx's add_edge
  // ---------------------------------------------------------------------

  /**
   * `G.add_edge(x, y)`: the endpoints are appended to the nodes unless already
   * present, and the edge to the edges unless already present.
   */
  function AddEdge(g: Graph, x: int, y: int): (h: Graph)
    requires x != y
    ensures NodeSet(h) == NodeSet(g) + {x, y}
    ensures EdgeSet(h.edges) == EdgeSet(g.edges) + {E(x, y)}
    ensures Endpoints(h.edges) == Endpoints(g.edges) + {x, y}
    ensures ValidGraph(g) ==> ValidGraph(h)
  {
    var e := E(x, y);
    var h := Graph(AppendNew(AppendNew(g.nodes, x), y), AppendNew(g.edges, e));
    EndpointsAppend(g.edges, e);
    StillValid(g, h, x, y);
    h
  }

  /** Adding the endpoints and the canonical edge keeps the graph simple and canonical. */
  lemma StillValid(g: Graph, h: Graph, x: int, y: int)
    requires x != y
    requires forall v :: v in h.nodes <==> v in g.nodes || v == x || v == y
    requires forall e :: e in h.edges <==> e in g.edges || e == E(x, y)
    requires Distinct(g.nodes) ==> Distinct(h.nodes)
    requires Distinct(g.edges) ==> Distinct(h.edges)
    ensures ValidGraph(g) ==> ValidGraph(h)
  {
    if ValidGraph(g) {
      forall e | e in h.edges ensures e.a < e.b && e.a in h.nodes && e.b in h.nodes {
        if e in g.edges {
          assert e.a in g.nodes && e.b in g.nodes;
        }
      }
    }
  }

  /** Append `x` unless it is already present, as networkx does for a node or an edge. */
  function AppendNew<T(==,!new)>(s: seq<T>, x: T): (r: seq<T>)
    ensures forall v :: v in r <==> v in s || v == x
    ensures Distinct(s) ==> Distinct(r)
  {
    if x in s then s else s + [x]
  }

  function EdgeSet(es: seq<Edge>): set<Edge> {
    set e | e in es
  }

  lemma EndpointsAppend(es: seq<Edge>, e: Edge)
    ensures Endpoints(es + [e]) == Endpoints(es) + {e.a, e.b}
    ensures e in es ==> Endpoints(es) == Endpoints(es) + {e.a, e.b}
  {
    var fs := es + [e];
    assert forall f :: f in fs <==> f in es || f == e;
  }

  // ---------------------------------------------------------------------
  // One pass of the construction loop
  // ---------------------------------------------------------------------

  /** Adjacency in the grid, with or without the diagonal neighbours. */
  predicate Adjacent(n: nat, diagonals: bool, x: int, y: int) {
    if diagonals then KingAdjacent(n, x, y) else RookAdjacent(n, x, y)
  }

  /** The edge `e` when the guard `c` holds, and nothing otherwise. */
  function Guarded(c: bool, e: Edge): set<Edge> {
    if c then {e} else {}
  }

  /** The north, south, west and east edges the loop body adds at cell `i`, each behind the source's guard. */
  function RookNeighbours(n: nat, i: int): set<Edge>
    requires n > 0
  {
    var row, column := i / n, i % n;
    Guarded(row > 0, Edge(i - n, i)) +
    Guarded(row < n - 1, Edge(i, i + n)) +
    Guarded(column > 0, Edge(i - 1, i)) +
    Guarded(column < n - 1, Edge(i, i + 1))
  }

  /** The northwest, northeast, southwest and southeast edges the king's-graph body adds at cell `i`. */
  function DiagonalNeighbours(n: nat, i: int): set<Edge>
    requires n > 0
  {
    var row, column := i / n, i % n;
    Guarded(row > 0 && column > 0, Edge(i - n - 1, i)) +
    Guarded(row > 0 && column < n - 1, Edge(i - n + 1, i)) +
    Guarded(row < n - 1 && column > 0, Edge(i, i + n - 1)) +
    Guarded(row < n - 1 && column < n - 1, Edge(i, i + n + 1))
  }

  /** All the edges the loop body adds at cell `i`. */
  function AddedAt(n: nat, diagonals: bool, i: int): set<Edge>
    requires n > 0
  {
    RookNeighbours(n, i) + (if diagonals then DiagonalNeighbours(n, i) else {})
  }

  /** Bridges the source's local variables to `RookNeighbours`. */
  lemma RookNeighboursAt(n: nat, i: int, row: int, column: int, west: int, east: int, north: int, south: int,
                         before: set<Edge>, after: set<Edge>)
    requires n > 0 && row == i / n && column == i % n
    requires west == i - 1 && east == i + 1 && north == i - n && south == i + n
    requires after == before + (
      Guarded(row > 0, Edge(north, i)) + Guarded(row < n - 1, Edge(i, south)) +
      Guarded(column > 0, Edge(west, i)) + Guarded(column < n - 1, Edge(i, east)))
    ensures after == before + RookNeighbours(n, i)
  {
  }

  /** Bridges the source's local variables to `DiagonalNeighbours`. */
  lemma DiagonalNeighboursAt(n: nat, i: int, row: int, column: int,
                             northwest: int, northeast: int, southwest: int, southeast: int,
                             before: set<Edge>, after: set<Edge>)
    requires n > 0 && row == i / n && column == i % n
    requires northwest == i - n - 1 && northeast == i - n + 1 && southwest == i + n - 1 && southeast == i + n + 1
    requires after == before + (
      Guarded(row > 0 && column > 0, Edge(northwest, i)) +
      Guarded(row > 0 && column < n - 1, Edge(northeast, i)) +
      Guarded(row < n - 1 && column > 0, Edge(i, southwest)) +
      Guarded(row < n - 1 && column < n - 1, Edge(i, southeast)))
    ensures after == before + DiagonalNeighbours(n, i)
  {
  }

  /** Four successive unions, regrouped. */
  lemma Chain4(s0: set<Edge>, s1: set<Edge>, s2: set<Edge>, s3: set<Edge>, s4: set<Edge>,
               a: set<Edge>, b: set<Edge>, c: set<Edge>, d: set<Edge>)
    requires s1 == s0 + a && s2 == s1 + b && s3 == s2 + c && s4 == s3 + d
    ensures s4 == s0 + (a + b + c + d)
  {
  }

  /** Each edge the body adds at cell i is an adjacent pair with its smaller cell at most i. */
  lemma AddedIsAdjacent(n: nat, diagonals: bool, i: int, e: Edge)
    requires n > 0 && InGrid(n, i) && e in AddedAt(n, diagonals, i)
    ensures e.a < e.b && Adjacent(n, diagonals, e.a, e.b) && e.a <= i
  {
    var row, column := i / n, i % n;
    CellCoords(n, i);
    if row > 0 && e == Edge(i - n, i) {
      Neighbour(n, diagonals, i, e.a, -1, 0);
    } else if row < n - 1 && e == Edge(i, i + n) {
      Neighbour(n, diagonals, i, e.b, 1, 0);
    } else if column > 0 && e == Edge(i - 1, i) {
      Neighbour(n, diagonals, i, e.a, 0, -1);
    } else if column < n - 1 && e == Edge(i, i + 1) {
      Neighbour(n, diagonals, i, e.b, 0, 1);
    } else if row > 0 && column > 0 && e == Edge(i - n - 1, i) {
      Neighbour(n, diagonals, i, e.a, -1, -1);
    } else if row > 0 && column < n - 1 && e == Edge(i - n + 1, i) {
      Neighbour(n, diagonals, i, e.a, -1, 1);
    } else if row < n - 1 && column > 0 && e == Edge(i, i + n - 1) {
      Neighbour(n, diagonals, i, e.b, 1, -1);
    } else {
      Neighbour(n, diagonals, i, e.b, 1, 1);
    }
  }

  /** The cell j, `dr` rows and `dc` columns away from cell i and inside the grid, is adjacent to it. */
  lemma Neighbour(n: nat, diagonals: bool, i: int, j: int, dr: int, dc: int)
    requires n > 0 && InGrid(n, i) && j == i + n * dr + dc
    requires 0 <= i / n + dr < n && 0 <= i % n + dc < n
    requires -1 <= dr <= 1 && -1 <= dc <= 1 && (dr != 0 || dc != 0)
    requires diagonals || dr == 0 || dc == 0
    ensures Adjacent(n, diagonals, i, j) && Adjacent(n, diagonals, j, i)
  {
    Shift(n, i, dr, dc);
    CellCoords(n, i);
  }

  /** Every adjacent pair whose smaller cell is i is added at cell i. */
  lemma AdjacentIsAdded(n: nat, diagonals: bool, i: int, e: Edge)
    requires e.a < e.b && Adjacent(n, diagonals, e.a, e.b) && e.a == i
    ensures e in AddedAt(n, diagonals, i)
  {
    LaterNeighbour(n, e.a, e.b);
  }

  /** The edges added while processing cells 0 .. i-1. */
  function Below(n: nat, diagonals: bool, i: nat): set<Edge> {
    if i == 0 || n == 0 then {} else Below(n, diagonals, i - 1) + AddedAt(n, diagonals, i - 1)
  }

  /** The edges added for the first i cells are exactly the adjacent pairs whose smaller cell is below i. */
  lemma BelowIsAdjacent(n: nat, diagonals: bool, i: nat)
    requires i <= n * n
    ensures forall e :: e in Below(n, diagonals, i) <==> e.a < e.b && Adjacent(n, diagonals, e.a, e.b) && e.a < i
  {
    forall e ensures e in Below(n, diagonals, i) <==> e.a < e.b && Adjacent(n, diagonals, e.a, e.b) && e.a < i {
      if e in Below(n, diagonals, i) {
        BelowSound(n, diagonals, i, e);
      }
      if e.a < e.b && Adjacent(n, diagonals, e.a, e.b) && e.a < i {
        BelowComplete(n, diagonals, i, e);
      }
    }
  }

  lemma {:induction false} BelowSound(n: nat, diagonals: bool, i: nat, e: Edge)
    requires i <= n * n && e in Below(n, diagonals, i)
    ensures e.a < e.b && Adjacent(n, diagonals, e.a, e.b) && e.a < i
  {
    assert i > 0 && n > 0;
    var j := i - 1;
    assert e in Below(n, diagonals, j) || e in AddedAt(n, diagonals, j);
    if e in AddedAt(n, diagonals, j) {
      assert InGrid(n, j);
      AddedIsAdjacent(n, diagonals, j, e);
    } else {
      BelowSound(n, diagonals, j, e);
    }
  }

  lemma {:induction false} BelowComplete(n: nat, diagonals: bool, i: nat, e: Edge)
    requires i <= n * n
    requires e.a < e.b && Adjacent(n, diagonals, e.a, e.b) && e.a < i
    ensures e in Below(n, diagonals, i)
  {
    if e.a == i - 1 {
      AdjacentIsAdded(n, diagonals, i - 1, e);
    } else {
      BelowComplete(n, diagonals, i - 1, e);
    }
  }

  // ---------------------------------------------------------------------
  // The constructions
  // ---------------------------------------------------------------------

  /**
   * The first four guarded `add_edge` calls of the loop body at cell `i`:
   * they add exactly `RookNeighbours(n, i)`.
   */
  method ConnectRookNeighbours(g: Graph, n: nat, i: int) returns (h: Graph)
    requires n > 0 && InGrid(n, i)
    ensures EdgeSet(h.edges) == EdgeSet(g.edges) + RookNeighbours(n, i)
    ensures NodeSet(g) == Endpoints(g.edges) ==> NodeSet(h) == Endpoints(h.edges)
    ensures ValidGraph(g) ==> ValidGraph(h)
  {
    h := g;
    var myRow, myColumn := i / n, i % n;
    var west, east, north, south := i - 1, i + 1, i - n, i + n;
    if myRow > 0 {
      h := AddEdge(h, i, north);
    }
    ghost var s1 := EdgeSet(h.edges);
    assert s1 == EdgeSet(g.edges) + Guarded(myRow > 0, Edge(north, i));
    if myRow < n - 1 {
      h := AddEdge(h, i, south);
    }
    ghost var s2 := EdgeSet(h.edges);
    assert s2 == s1 + Guarded(myRow < n - 1, Edge(i, south));
    if myColumn > 0 {
      h := AddEdge(h, i, west);
    }
    ghost var s3 := EdgeSet(h.edges);
    assert s3 == s2 + Guarded(myColumn > 0, Edge(west, i));
    if myColumn < n - 1 {
      h := AddEdge(h, i, east);
    }
    assert EdgeSet(h.edges) == s3 + Guarded(myColumn < n - 1, Edge(i, east));
    Chain4(EdgeSet(g.edges), s1, s2, s3, EdgeSet(h.edges),
      Guarded(myRow > 0, Edge(north, i)), Guarded(myRow < n - 1, Edge(i, south)),
      Guarded(myColumn > 0, Edge(west, i)), Guarded(myColumn < n - 1, Edge(i, east)));
    RookNeighboursAt(n, i, myRow, myColumn, west, east, north, south, EdgeSet(g.edges), EdgeSet(h.edges));
  }

  /** The four diagonal guarded `add_edge` calls of the king's-graph loop body at cell `i`. */
  method ConnectDiagonalNeighbours(g: Graph, n: nat, i: int) returns (h: Graph)
    requires n > 0 && InGrid(n, i)
    ensures EdgeSet(h.edges) == EdgeSet(g.edges) + DiagonalNeighbours(n, i)
    ensures NodeSet(g) == Endpoints(g.edges) ==> NodeSet(h) == Endpoints(h.edges)
    ensures ValidGraph(g) ==> ValidGraph(h)
  {
    h := g;
    var myRow, myColumn := i / n, i % n;
    var northwest, northeast, southwest, southeast := i - n - 1, i - n + 1, i + n - 1, i + n + 1;
    CellCoords(n, i);
    if myRow > 0 && myColumn > 0 {
      h := AddEdge(h, i, northwest);
    }
    ghost var s1 := EdgeSet(h.edges);
    assert s1 == EdgeSet(g.edges) + Guarded(myRow > 0 && myColumn > 0, Edge(northwest, i));
    if myRow > 0 && myColumn < n - 1 {
      h := AddEdge(h, i, northeast);
    }
    ghost var s2 := EdgeSet(h.edges);
    assert s2 == s1 + Guarded(myRow > 0 && myColumn < n - 1, Edge(northeast, i));
    if myRow < n - 1 && myColumn > 0 {
      h := AddEdge(h, i, southwest);
    }
    ghost var s3 := EdgeSet(h.edges);
    assert s3 == s2 + Guarded(myRow < n - 1 && myColumn > 0, Edge(i, southwest));
    if myRow < n - 1 && myColumn < n - 1 {
      h := AddEdge(h, i, southeast);
    }
    assert EdgeSet(h.edges) == s3 + Guarded(myRow < n - 1 && myColumn < n - 1, Edge(i, southeast));
    Chain4(EdgeSet(g.edges), s1, s2, s3, EdgeSet(h.edges),
      Guarded(myRow > 0 && myColumn > 0, Edge(northwest, i)),
      Guarded(myRow > 0 && myColumn < n - 1, Edge(northeast, i)),
      Guarded(myRow < n - 1 && myColumn > 0, Edge(i, southwest)),
      Guarded(myRow < n - 1 && myColumn < n - 1, Edge(i, southeast)));
    DiagonalNeighboursAt(n, i, myRow, myColumn, northwest, northeast, southwest, southeast,
      EdgeSet(g.edges), EdgeSet(h.edges));
  }

  /**
   * `create_base_graph_n_by_n` / `create_graph_n_by_n` without diagonals: the
   * edges are exactly the pairs of cells at distance one along a row or a
   * column, and the nodes are the cells touched by an edge (every cell once
   * n >= 2; none for n = 1).
   */
  method CreateGridGraph(n: nat) returns (g: Graph)
    ensures ValidGraph(g)
    ensures forall e :: e in g.edges <==> e.a < e.b && RookAdjacent(n, e.a, e.b)
    ensures NodeSet(g) == Endpoints(g.edges)
    ensures n >= 2 ==> forall i :: i in NodeSet(g) <==> InGrid(n, i)
  {
    g := Graph([], []);
    for i := 0 to n * n
      invariant ValidGraph(g)
      invariant EdgeSet(g.edges) == Below(n, false, i)
      invariant NodeSet(g) == Endpoints(g.edges)
    {
      SidePositive(n, i);
      g := ConnectRookNeighbours(g, n, i);
    }
    AllEdges(n, false, g.edges);
    AllCellsTouched(n, false, g.edges);
  }

  /**
   * `create_graph_n_by_n` with diagonals (the king's graph): the edges are
   * exactly the pairs of distinct cells whose rows and columns each differ by
   * at most one.
   */
  method CreateKingGraph(n: nat) returns (g: Graph)
    ensures ValidGraph(g)
    ensures forall e :: e in g.edges <==> e.a < e.b && KingAdjacent(n, e.a, e.b)
    ensures NodeSet(g) == Endpoints(g.edges)
    ensures n >= 2 ==> forall i :: i in NodeSet(g) <==> InGrid(n, i)
  {
    g := Graph([], []);
    for i := 0 to n * n
      invariant ValidGraph(g)
      invariant EdgeSet(g.edges) == Below(n, true, i)
      invariant NodeSet(g) == Endpoints(g.edges)
    {
      SidePositive(n, i);
      g := ConnectRookNeighbours(g, n, i);
      g := ConnectDiagonalNeighbours(g, n, i);
    }
    AllEdges(n, true, g.edges);
    AllCellsTouched(n, true, g.edges);
  }

  /** Once every cell is processed the edge list holds exactly the adjacent pairs. */
  lemma AllEdges(n: nat, diagonals: bool, es: seq<Edge>)
    requires EdgeSet(es) == Below(n, diagonals, n * n)
    ensures forall e :: e in es <==> e.a < e.b && Adjacent(n, diagonals, e.a, e.b)
  {
    BelowIsAdjacent(n, diagonals, n * n);
    forall e ensures e in es <==> e in EdgeSet(es) { }
  }

  /** For n >= 2 every cell has a neighbour in its row, so every cell is a node. */
  lemma AllCellsTouched(n: nat, diagonals: bool, es: seq<Edge>)
    requires forall e :: e in es <==> e.a < e.b && Adjacent(n, diagonals, e.a, e.b)
    ensures n >= 2 ==> forall i :: i in Endpoints(es) <==> InGrid(n, i)
  {
    if n >= 2 {
      forall i | InGrid(n, i) ensures i in Endpoints(es) {
        CellCoords(n, i);
        if i % n < n - 1 {
          Neighbour(n, diagonals, i, i + 1, 0, 1);
          assert Edge(i, i + 1) in es;
        } else {
          Neighbour(n, diagonals, i, i - 1, 0, -1);
          assert Edge(i - 1, i) in es;
        }
      }
    }
  }

  /**
   * In index terms, a grid edge joins a cell to the next one in the same row
   * or to the one n further on; both ends are inside the n*n cells.
   */
  lemma RookEdgeByIndex(n: nat, x: int, y: int)
    requires RookAdjacent(n, x, y) && x < y
    ensures 0 <= x && y < n * n
    ensures (y == x + 1 && x / n == y / n) || y == x + n
  {
    LaterNeighbour(n, x, y);
    if x / n < y / n {
      CellCoords(n, x);
      CellCoords(n, y);
      assert y % n == x % n;
    }
  }

  /** Every grid edge is also an edge of the king's graph. */
  lemma RookIsKing(n: nat, x: int, y: int)
    requires RookAdjacent(n, x, y)
    ensures KingAdjacent(n, x, y)
  {
  }
}
