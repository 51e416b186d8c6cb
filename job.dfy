/** A job: a fixed-capacity tuple of stages, the number of live stages, a
    counter of completed stages, and the dependency graph stored as a flat
    strict lower triangle. The graph queries answer which stages can start. */
module Jobs {
  import opened Graphs
  import opened LowerTriangle

  /** What a job reads of a stage: its index in the job and whether all of
      its tasks are done. */
  datatype Stage = Stage(id: int, isComplete: bool)

  /** The successors of a completed stage that are now ready, or the failure
      of asking for the successors of a node the graph does not have. */
  datatype FrontierResult = Frontier(ids: seq<nat>) | NodeNotInDigraph(node: int)

  /** Every predecessor of v in g is a complete stage. */
  predicate DepsComplete(g: Digraph, stages: seq<Stage>, v: nat)
    requires g.n <= |stages|
  {
    forall d: nat :: d < g.n && Edge(g, d, v) ==> stages[d].isComplete
  }

  class Job {
    const id: int
    /** Strict lower triangle of the adjacency matrix, flattened row by row. */
    const dag: seq<int>
    /** One slot per possible stage; the first nStages are the job's. */
    const stages: seq<Stage>
    const nStages: nat
    var nCompletedStages: nat

    /** The flat triangle fits the stage capacity and the live stages fit in
        it. */
    ghost predicate WellSized()
    {
      |dag| == Triangle(|stages|) && nStages <= |stages|
    }

    ghost predicate Valid()
      reads this
    {
      WellSized() && nCompletedStages <= nStages
    }

    /** The dependency graph over the live stages. */
    ghost function Dependencies(): Digraph
      requires WellSized()
    {
      Decode(dag, |stages|, nStages)
    }

    /** The dataclass constructor; the source's default for
        nCompletedStages is 0. */
    constructor (id: int, dag: seq<int>, stages: seq<Stage>, nStages: nat, nCompletedStages: nat)
      requires |dag| == Triangle(|stages|) && nStages <= |stages|
      requires nCompletedStages <= nStages
      ensures Valid()
      ensures this.id == id && this.dag == dag && this.stages == stages
      ensures this.nStages == nStages && this.nCompletedStages == nCompletedStages
    {
      this.id := id;
      this.dag := dag;
      this.stages := stages;
      this.nStages := nStages;
      this.nCompletedStages := nCompletedStages;
    }

    /** The stage capacity, which the flat triangle is sized for. */
    function MaxStages(): (m: nat)
      ensures WellSized() ==> |dag| == Triangle(m) && nStages <= m
    {
      |stages|
    }

    /** All live stages are complete: exactly when no further stage
        completion may be recorded. */
    predicate IsComplete(): (b: bool)
      reads this
      ensures Valid() ==> (b <==> !(nCompletedStages < nStages))
    {
      nCompletedStages == nStages
    }

    /** Records one more completed stage; allowed only while some stage is
        still incomplete. */
    method AddStageCompletion()
      requires Valid() && nCompletedStages < nStages
      modifies this
      ensures Valid()
      ensures nCompletedStages == old(nCompletedStages) + 1
      ensures IsComplete() <==> old(nCompletedStages) + 1 == nStages
    {
      nCompletedStages := nCompletedStages + 1;
    }

    /** Fills the m-by-m matrix from the flat triangle in row-major order,
        keeps its leading nStages-by-nStages block and returns it as a graph,
        which has no cycle. */
    method DagToGraph() returns (g: Digraph)
      requires WellSized()
      ensures g == Decode(dag, |stages|, nStages)
      ensures g.n == nStages && WellFormed(g)
      ensures EdgesDescend(g) && Acyclic(g)
    {
      var m := |stages|;
      var t := new int[m, m]((_, _) => 0);
      var k := 0;
      for i := 0 to m
        invariant k == Triangle(i)
        invariant forall r, c :: 0 <= r < m && 0 <= c < m ==>
                    t[r, c] == if r < i then Cell(dag, m, r, c) else 0
      {
        TriangleMonotone(i + 1, m);
        for j := 0 to i
          invariant k == Triangle(i) + j
          invariant forall r, c :: 0 <= r < m && 0 <= c < m ==>
                      t[r, c] == if r < i || (r == i && c < j) then Cell(dag, m, r, c) else 0
        {
          t[i, j] := dag[k];
          k := k + 1;
        }
      }
      var n := nStages;
      g := Digraph(n, seq(n, r requires 0 <= r < n reads t =>
                        seq(n, c requires 0 <= c < n reads t => t[r, c])));
      assert forall r :: 0 <= r < n ==> g.w[r] == Decode(dag, m, n).w[r];
      DecodeAcyclic(dag, m, n);
    }

    /** The stages with no predecessor, each once, in stage order. */
    function FindSrcNodes(): (r: seq<nat>)
      requires WellSized()
      ensures forall v: nat :: v in r <==> v < nStages && IsSource(Dependencies(), v)
      ensures forall v: nat :: v in r <==>
                v < nStages && forall u: nat :: u < nStages ==> !DagEdge(dag, u, v)
      ensures StrictlyIncreasing(r)
      ensures nStages > 0 ==> nStages - 1 in r
    {
      var g := Decode(dag, |stages|, nStages);
      DecodeAcyclic(dag, |stages|, nStages);
      DecodeSources(dag, |stages|, nStages);
      if nStages > 0 then DescendingHasSource(g); Sources(g) else Sources(g)
    }

    /** Whether every predecessor of stage v in g is complete; stops at the
        first one that is not. */
    method CheckDependencies(g: Digraph, v: nat) returns (ok: bool)
      requires g.n <= |stages| && v < g.n
      ensures ok <==> DepsComplete(g, stages, v)
    {
      var d := 0;
      while d < g.n
        invariant d <= g.n
        invariant forall e: nat :: e < d && Edge(g, e, v) ==> stages[e].isComplete
      {
        if Edge(g, d, v) && !stages[d].isComplete {
          return false;
        }
        d := d + 1;
      }
      return true;
    }

    /** If `stage` is complete, its successors all of whose predecessors are
        complete, each once, in stage order; nothing if it is not. */
    method FindNewFrontiers(stage: Stage) returns (r: FrontierResult)
      requires WellSized()
      ensures !stage.isComplete ==> r == Frontier([])
      ensures stage.isComplete && !(0 <= stage.id < nStages) ==> r == NodeNotInDigraph(stage.id)
      ensures stage.isComplete && 0 <= stage.id < nStages ==>
                r.Frontier? && StrictlyIncreasing(r.ids) &&
                forall v: nat :: v in r.ids <==>
                  Edge(Dependencies(), stage.id, v) && DepsComplete(Dependencies(), stages, v)
      ensures r.Frontier? ==> forall v :: v in r.ids ==> v < stage.id
    {
      if !stage.isComplete {
        return Frontier([]);
      }
      var g := DagToGraph();
      if !(0 <= stage.id < g.n) {
        return NodeNotInDigraph(stage.id);
      }
      var s: nat := stage.id;
      var found: seq<nat> := [];
      for v := 0 to g.n
        invariant forall x: nat :: x in found <==> x < v && Edge(g, s, x) && DepsComplete(g, stages, x)
        invariant forall x :: x in found ==> x < v && x < s
        invariant StrictlyIncreasing(found)
      {
        if Edge(g, s, v) {
          var ok := CheckDependencies(g, v);
          if ok {
            AppendIncreasing(found, v);
            found := found + [v];
          }
        }
      }
      r := Frontier(found);
    }
  }
}
