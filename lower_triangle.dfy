/** A job's dependency matrix stored as the flattened strict lower triangle
    of an m-by-m matrix, in the row-major order of np.tril_indices(m, -1):
    row 1 holds one cell, row 2 two cells, and so on. Decode rebuilds the
    graph from the flat array; Encode reads the triangle back out. */
module LowerTriangle {
  import opened Graphs

  /** Number of cells strictly below the diagonal of an n-by-n matrix:
      row i holds i of them. */
  function Triangle(n: nat): nat
  {
    if n == 0 then 0 else Triangle(n - 1) + (n - 1)
  }

  /** The closed form n*(n-1)/2 used to size the flat array. */
  lemma {:induction false} TriangleClosedForm(n: nat)
    ensures Triangle(n) == n * (n - 1) / 2
  {
    if n > 0 {
      TriangleClosedForm(n - 1);
      assert n * (n - 1) == (n - 1) * (n - 2) + 2 * (n - 1);
    }
  }

  lemma {:induction false} TriangleMonotone(a: nat, b: nat)
    requires a <= b
    ensures Triangle(a) <= Triangle(b)
  {
    if a < b {
      TriangleMonotone(a, b - 1);
    }
  }

  /** Flat position of cell (i, j), j < i: the rows above i come first. */
  function TriIndex(i: nat, j: nat): nat
    requires j < i
  {
    Triangle(i) + j
  }

  /** A cell of an n-by-n strict lower triangle has a flat position below
      Triangle(n). */
  lemma {:induction false} TriIndexInRange(i: nat, j: nat, n: nat)
    requires j < i < n
    ensures TriIndex(i, j) < Triangle(n)
  {
    TriangleMonotone(i + 1, n);
  }

  lemma {:induction false} TriIndexBounds(n: nat)
    ensures forall i: nat, j: nat :: j < i < n ==> TriIndex(i, j) < Triangle(n)
  {
    forall i: nat, j: nat | j < i < n
      ensures TriIndex(i, j) < Triangle(n)
    {
      TriIndexInRange(i, j, n);
    }
  }

  /** Distinct cells have distinct flat positions. */
  lemma TriIndexInjective(i: nat, j: nat, i': nat, j': nat)
    requires j < i && j' < i'
    requires TriIndex(i, j) == TriIndex(i', j')
    ensures i == i' && j == j'
  {
    if i < i' {
      TriIndexInRange(i, j, i');
    } else if i' < i {
      TriIndexInRange(i', j', i);
    }
  }

  /** Cell (i, j) of the m-by-m matrix filled from `dag`: zero on and above
      the diagonal. */
  function Cell(dag: seq<int>, m: nat, i: nat, j: nat): int
    requires |dag| == Triangle(m) && i < m && j < m
  {
    if j < i then
      TriIndexInRange(i, j, m);
      dag[TriIndex(i, j)]
    else 0
  }

  /** The graph built from `dag`: the leading n-by-n block of the m-by-m
      matrix whose strict lower triangle is `dag`. */
  function Decode(dag: seq<int>, m: nat, n: nat): (g: Digraph)
    requires |dag| == Triangle(m) && n <= m
    ensures g.n == n && WellFormed(g)
  {
    Digraph(n, seq(n, i requires 0 <= i < n =>
                 seq(n, j requires 0 <= j < n => Cell(dag, m, i, j))))
  }

  /** The matrix is zero on and above its diagonal. */
  ghost predicate StrictlyLower(g: Digraph)
    requires WellFormed(g)
  {
    forall i, j :: 0 <= i <= j < g.n ==> g.w[i][j] == 0
  }

  /** The strict lower triangle of the first k rows, row by row. */
  function EncodeRows(g: Digraph, k: nat): (dag: seq<int>)
    requires WellFormed(g) && k <= g.n
    ensures |dag| == Triangle(k)
    ensures forall i: nat, j: nat :: j < i < k ==>
              TriIndex(i, j) < |dag| && dag[TriIndex(i, j)] == g.w[i][j]
  {
    if k == 0 then []
    else
      TriIndexBounds(k - 1);
      EncodeRows(g, k - 1) + g.w[k - 1][..k - 1]
  }

  /** The flat strict lower triangle of g, as T[np.tril_indices(n, -1)]
      reads it. */
  function Encode(g: Digraph): (dag: seq<int>)
    requires WellFormed(g)
    ensures |dag| == Triangle(g.n)
    ensures forall i: nat, j: nat :: j < i < g.n ==>
              TriIndex(i, j) < |dag| && dag[TriIndex(i, j)] == g.w[i][j]
  {
    EncodeRows(g, g.n)
  }

  /** The flat array marks the dependency u -> v: u is above v and the
      entry for cell (u, v) is nonzero. */
  predicate DagEdge(dag: seq<int>, u: nat, v: nat)
  {
    v < u && TriIndex(u, v) < |dag| && dag[TriIndex(u, v)] != 0
  }

  /** Decoding an edge: u -> v exactly when both are below n and the flat
      array marks u -> v. */
  lemma DecodeEdge(dag: seq<int>, m: nat, n: nat, u: nat, v: nat)
    requires |dag| == Triangle(m) && n <= m
    ensures Edge(Decode(dag, m, n), u, v) <==> u < n && v < n && DagEdge(dag, u, v)
  {
    if v < u < n {
      TriIndexInRange(u, v, m);
    }
  }

  /** A node of the decoded graph is a source exactly when no row below it
      among the first n marks a dependency on it. */
  lemma DecodeSources(dag: seq<int>, m: nat, n: nat)
    requires |dag| == Triangle(m) && n <= m
    ensures forall v: nat :: IsSource(Decode(dag, m, n), v) <==>
              v < n && forall u: nat :: u < n ==> !DagEdge(dag, u, v)
  {
    forall u: nat, v: nat
      ensures Edge(Decode(dag, m, n), u, v) <==> u < n && v < n && DagEdge(dag, u, v)
    {
      DecodeEdge(dag, m, n, u, v);
    }
  }

  /** Every decoded graph has only descending edges, hence no cycle: the
      acyclicity check after decoding can never fail. */
  lemma DecodeAcyclic(dag: seq<int>, m: nat, n: nat)
    requires |dag| == Triangle(m) && n <= m
    ensures EdgesDescend(Decode(dag, m, n))
    ensures StrictlyLower(Decode(dag, m, n))
    ensures Acyclic(Decode(dag, m, n))
  {
    var g := Decode(dag, m, n);
    forall u: nat, v: nat | Edge(g, u, v)
      ensures v < u
    {
      DecodeEdge(dag, m, n, u, v);
    }
    DescendingAcyclic(g);
  }

  lemma {:induction false} EncodeDecodeRows(dag: seq<int>, m: nat, k: nat)
    requires |dag| == Triangle(m) && k <= m
    ensures Triangle(k) <= |dag|
    ensures EncodeRows(Decode(dag, m, m), k) == dag[..Triangle(k)]
  {
    TriangleMonotone(k, m);
    if k > 0 {
      var g := Decode(dag, m, m);
      EncodeDecodeRows(dag, m, k - 1);
      assert g.w[k - 1][..k - 1] == dag[Triangle(k - 1)..Triangle(k)] by {
        assert forall j {:trigger g.w[k - 1][j]} :: 0 <= j < k - 1 ==> g.w[k - 1][j] == dag[Triangle(k - 1) + j];
      }
      assert dag[..Triangle(k)] == dag[..Triangle(k - 1)] + dag[Triangle(k - 1)..Triangle(k)];
    }
  }

  /** Decoding the full m-by-m matrix and reading its triangle back gives
      the flat array unchanged. */
  lemma EncodeDecode(dag: seq<int>, m: nat)
    requires |dag| == Triangle(m)
    ensures Encode(Decode(dag, m, m)) == dag
  {
    EncodeDecodeRows(dag, m, m);
  }

  /** Every graph that is zero on and above its diagonal is the decoding of
      its own flat triangle, so decoded graphs are exactly those. */
  lemma DecodeEncode(g: Digraph)
    requires WellFormed(g) && StrictlyLower(g)
    ensures Decode(Encode(g), g.n, g.n) == g
  {
    var dag := Encode(g);
    var h := Decode(dag, g.n, g.n);
    forall i | 0 <= i < g.n
      ensures h.w[i] == g.w[i]
    {
      forall j | 0 <= j < g.n
        ensures h.w[i][j] == g.w[i][j]
      {
        assert h.w[i][j] == Cell(dag, g.n, i, j);
      }
    }
  }
}
