# Job dependency graphs of the DAG scheduling simulator

This project models the job entity of a discrete-event cluster scheduling
simulator (`gym_dagsched/envs/entities/job.py`). It then proves properties of
that model in Dafny.

A job has a fixed-capacity tuple of stages (`max_stages` slots), a count
`n_stages` of live stages, and a counter of completed stages. Its dependencies
are stored as the strict lower triangle of an adjacency matrix, flattened in
the row-major order of `np.tril_indices(max_stages, -1)`. The cell for row `i`
and column `j`, with `j < i`, is at flat index `i*(i-1)/2 + j`. A nonzero entry
there is the dependency edge `i -> j`: stage `j` must wait for stage `i`. The
job answers three queries:

- decode the flat array into a directed graph on stages `0..n_stages-1` and
  check that the graph is acyclic;
- list the source stages, which have no predecessor;
- given a stage that just completed, list its successors whose predecessors
  are now all complete.

Modules:

- `Graphs` (`graphs.dfy`): directed graphs given by a weighted adjacency
  matrix, the way networkx reads a numpy matrix. The module defines walks,
  cycles, acyclicity and sources, and proves that a graph whose edges all go
  from a higher node to a lower one has no cycle.
- `LowerTriangle` (`lower_triangle.dfy`): the flat triangle layout. It holds
  `Triangle`, `TriIndex`, `Decode` (flat array to graph), `Encode` (graph to
  flat array), both round trips, and the proof that every decoded graph is
  acyclic.
- `Jobs` (`job.dfy`): the `Job` class. `n_completed_stages` is its only
  mutable field, because `job.py` reassigns no other field. The class has the
  counter update and the three graph queries. The decode (`DagToGraph`), the
  frontier scan (`FindNewFrontiers`) and the dependency check
  (`CheckDependencies`) are loops in the source, so here they are methods with
  loop invariants. Each is proved against the pure definitions in
  `LowerTriangle` and `Graphs`.

## Model

| member | source | states |
|---|---|---|
| `Graphs.WalkDescends` | gym_dagsched/envs/entities/job.py:57-65 | along any walk in a graph whose edges all descend, each step lowers the node by at least one, so the last node is at least `length-1` below the first |
| `Graphs.DescendingAcyclic` | gym_dagsched/envs/entities/job.py:65 | a graph whose edges all go from a higher to a lower node has no cycle, and no self-loop either |
| `Graphs.SourcesBelow` | gym_dagsched/envs/entities/job.py:72 | the list holds exactly the nodes below `k` with in-degree 0, in strictly increasing order, so each appears once |
| `Graphs.Sources` | gym_dagsched/envs/entities/job.py:72 | the list comprehension over `G.in_degree()` gives exactly the in-degree-0 nodes of the graph, each once, in node order |
| `Graphs.DescendingHasSource` | gym_dagsched/envs/entities/job.py:69-73 | in a non-empty graph whose edges descend, the highest node is a source, so the source list is never empty |
| `LowerTriangle.TriangleClosedForm` | gym_dagsched/envs/entities/job.py:21 | counting the strictly-lower cells row by row (row `i` holds `i`) gives the array length `n*(n-1)/2` |
| `LowerTriangle.TriangleMonotone` | gym_dagsched/envs/entities/job.py:21 | a larger matrix has a triangle at least as large |
| `LowerTriangle.TriIndexInRange` | gym_dagsched/envs/entities/job.py:58 | the flat index `i*(i-1)/2 + j` of a strictly-lower cell of an `n`-by-`n` matrix is below the array length `n*(n-1)/2` |
| `LowerTriangle.TriIndexInjective` | gym_dagsched/envs/entities/job.py:58 | distinct strictly-lower cells have distinct flat indices, so each array entry fills at most one matrix cell |
| `LowerTriangle.Decode` | gym_dagsched/envs/entities/job.py:56-62 | the decoded matrix is the square `n_stages`-by-`n_stages` block |
| `LowerTriangle.EncodeRows` | gym_dagsched/envs/entities/job.py:58 | reading the first `k` rows' strict lower triangle row by row gives `k*(k-1)/2` entries, with cell `(i, j)` at flat index `i*(i-1)/2 + j` |
| `LowerTriangle.Encode` | gym_dagsched/envs/entities/job.py:58 | `T[np.tril_indices(n, -1)]` has `n*(n-1)/2` entries, with cell `(i, j)` at flat index `i*(i-1)/2 + j` |
| `LowerTriangle.DecodeEdge` | gym_dagsched/envs/entities/job.py:56-64 | the decoded graph has an edge `u -> v` exactly when `v < u < n_stages` and the flat entry for `(u, v)` is nonzero |
| `LowerTriangle.DecodeSources` | gym_dagsched/envs/entities/job.py:69-72 | a stage is a source of the decoded graph exactly when it is below `n_stages` and no live stage's flat entry marks a dependency on it |
| `LowerTriangle.DecodeAcyclic` | gym_dagsched/envs/entities/job.py:57-65 | every decoded graph has only descending edges, is zero on and above its diagonal, and is acyclic, so the assert at line 65 never fails |
| `LowerTriangle.EncodeDecodeRows` | gym_dagsched/envs/entities/job.py:58 | reading back the first `k` rows of the decoded full matrix gives the first `k*(k-1)/2` flat entries |
| `LowerTriangle.EncodeDecode` | gym_dagsched/envs/entities/job.py:58 | decoding the full `max_stages` matrix and reading back its strict lower triangle gives the flat array unchanged |
| `LowerTriangle.DecodeEncode` | gym_dagsched/envs/entities/job.py:58 | every square matrix that is zero on and above its diagonal is the decoding of its own flat triangle |
| `Jobs.Job.constructor` | gym_dagsched/envs/entities/job.py:12-36 | a new job keeps the given id, flat dag, stages, live-stage count and completed-stage count (0 by default in the source) |
| `Jobs.Job.IsComplete` | gym_dagsched/envs/entities/job.py:43-45 | holds exactly when `n_completed_stages == n_stages`, that is, exactly when `add_stage_completion` may no longer be called |
| `Jobs.Job.MaxStages` | gym_dagsched/envs/entities/job.py:39-41 | the stage capacity is the matrix size the flat dag is sized for, and it bounds `n_stages` |
| `Jobs.Job.AddStageCompletion` | gym_dagsched/envs/entities/job.py:43-50 | callable only while `n_completed_stages < n_stages`; adds exactly one to the counter; keeps `0 <= n_completed_stages <= n_stages`; afterwards `is_complete` holds exactly when this was the last stage |
| `Jobs.Job.DagToGraph` | gym_dagsched/envs/entities/job.py:53-66 | filling the `max_stages` matrix row by row from the flat array and truncating it to `n_stages` gives exactly `Decode`; the result is acyclic |
| `Jobs.Job.FindSrcNodes` | gym_dagsched/envs/entities/job.py:69-73 | returns exactly the live stages with no predecessor, each once and in stage order; the highest live stage is always among them |
| `Jobs.Job.CheckDependencies` | gym_dagsched/envs/entities/job.py:96-105 | true exactly when every predecessor of the stage in the given graph is a complete stage |
| `Jobs.Job.FindNewFrontiers` | gym_dagsched/envs/entities/job.py:76-93 | nothing for an incomplete stage; an error for a complete stage outside the graph; otherwise exactly the successors all of whose predecessors are complete, each once, in stage order, all below the completed stage |

## Left out

- Stage: its source is not part of this model. A stage is reduced to what a job reads of it: its index `id_` and its `is_complete` flag. Task counts and stage mutation are not modelled.
- `t_arrival`, `t_completed` and `invalid_time()`: these floating-point timestamps are never read by the job's own operations.
- `INVALID_ID` and `args`: the default id `args.n_jobs` and the configured `max_stages` are plain constructor arguments here.
- The `triangle` helper of `dagsched_utils` is not part of this model. `Triangle(n)` counts the entries that `np.tril_indices(n, -1)` selects, row by row. `LowerTriangle.TriangleClosedForm` proves that this count equals `n*(n-1)/2`.
- networkx and numpy are replaced by explicit definitions. The matrix entries are integers rather than floats, because an edge depends only on whether an entry is nonzero. Successors and predecessors are visited in increasing node order, which is the order in which `from_numpy_matrix` adds edges.
- Jobs.Job.constructor: it requires that the flat array holds `max_stages*(max_stages-1)/2` entries, that `n_stages <= max_stages` and that `n_completed_stages <= n_stages`. The dataclass constructor checks none of these. The first two rely on both sizes coming from the same configuration; the third is the bound that `add_stage_completion` keeps, and jobs normally start from the default 0.
- Jobs.Job.CheckDependencies: it requires that the stage is a node of the graph. In the source, networkx raises an error for a missing node, but the only caller passes successors, which are always nodes.
- The environment, event timeline, worker pool, reward, the training loops and the process plumbing are not part of this model.

## Notes

- `find_new_frontiers` does not skip successors that are already complete. `Jobs.Job.FindNewFrontiers` returns them too.
- No path rejects a cyclic dependency structure. The flat encoding cannot express a cycle (`LowerTriangle.DecodeAcyclic`), so the assert at job.py:65 never fires.
