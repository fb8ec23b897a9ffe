# mexmaxflow: the MATLAB entry point of a max-flow / min-cut solver

`mexFunction` in `project2/mexmaxflow.cpp` is how MATLAB calls the solver. It is given
four arrays:

- per-node background weights, used as the source capacities;
- per-node foreground weights, used as the sink capacities;
- an `N x D` matrix of 1-based neighbour indices;
- an `N x D` matrix of neighbour weights.

It checks the argument counts and shapes. It then builds the graph: for each node `i`,
one terminal-weight call, then one pass over the node's `D` neighbour slots. A slot
holding 0 or less means "no edge" and is skipped. A slot naming a node past the last one
aborts the call. A slot naming a node that is not below `i` is skipped. Every other
slot adds a symmetric edge whose capacity is the slot's weight in both directions. So
an edge is added once per slot of the higher node that names the lower one. For a
symmetric, duplicate-free adjacency that is exactly once per unordered neighbour pair.
A pair listed only by its lower node gets no edge, and a pair listed twice by its
higher node gets two. After the solve, each
node's output entry is 1 when the node ended on the sink side and 0 otherwise.

The project has three modules:

- `GraphRecorder` (`graph_recorder.dfy`) stands in for the graph object. The
  `Recorder` class records, in order, the `add_tweights` and `add_edge` calls made on
  it, and counts the nodes added with `add_node`. It also defines the `Segment` that
  the solver reports for each node.
- `Construction` (`construction.dfy`) models the four inputs as a `Problem`. It gives
  the specification of the construction loop as functions: `Upto(p, i)` is the calls
  made for nodes `0 .. i-1`, and `RowUpto(p, i, j)` is the calls made for node `i` up to
  slot `j`. The rule for a single slot is `SlotEvents(p, i, j)`. It reads the 0-based
  index `Decoded(p, i, j)` (the stored value minus one) and the weight `Weight(p, i, j)`
  at offset `N*j + i`. It gives no call for a negative index or an index not below `i`,
  and otherwise one `Edge(index, i, weight, weight)`. The module also holds the lemmas
  about these functions.
- `MexMaxflow` (`mexmaxflow.dfy`) holds the argument checks, the construction loop
  `BuildGraph` on a `Recorder`, the label loop, and `MexFunction`, which runs the whole
  call and returns an `Outcome`:
  - `Rejected` when a count or shape check fails, before any graph exists;
  - `Aborted` on an illegal edge index, together with the calls already made;
  - `Solved`, with the call log and the labels.

The solver's answer is a parameter `seg: int -> Segment` of `MexFunction`.

An out-of-range neighbour index is not rejected before any edge is added, as one might
expect of an input check. The code checks each slot only when the loop reaches it, so
the terminal weights and edges of every earlier slot have already been given to the
graph when the call aborts. The model follows the
code: `BuildGraph` and `MexFunction` return exactly that partial log
(`Upto(p, i) + RowUpto(p, i, j)` for the first illegal slot `(i, j)`).

The index check is made before the deduplication skip. So a slot naming a node past the
last one aborts the call even where the deduplication rule would have skipped it.
`BuildGraph` states this as `ok <==> AllLegal(p)`, where `AllLegal` covers every slot.

## Model

| member | source | states |
|---|---|---|
| `GraphRecorder.Recorder.constructor` | project2/mexmaxflow.cpp:47 | a new graph holds the node and edge size hints, no nodes and no calls |
| `GraphRecorder.Recorder.AddNodes` | project2/mexmaxflow.cpp:48 | adding `count` nodes returns the first new index and raises the node count by `count` |
| `GraphRecorder.Recorder.AddTWeights` | project2/mexmaxflow.cpp:53 | a terminal-weight call on an existing node appends exactly that call |
| `GraphRecorder.Recorder.AddEdge` | project2/mexmaxflow.cpp:62 | an edge call between two distinct existing nodes appends exactly that call |
| `MexMaxflow.CheckArgs` | project2/mexmaxflow.cpp:23-43 | passes iff there are four inputs, one or two outputs, equal-length weight arrays, one index row per node and equal-shaped matrices; the first failing check decides the error: input count, output count, weight lengths, index-matrix rows, then index/weight matrix shape; none of these checks raises the edge-index error |
| `Construction.SlotOffset` | project2/mexmaxflow.cpp:57-58 | slot `(i, j)` is read at offset `N*j + i`, which is inside the `N x D` matrix, and that offset gives back row `i` and column `j` (column-major) |
| `MexMaxflow.BuildGraph` | project2/mexmaxflow.cpp:50-64 | succeeds iff every slot's index is at most the node count; on success the log gains exactly `Upto(p, N)`; on failure it gains the calls of every slot before the first illegal one and nothing after |
| `Construction.TerminalsInNodeOrder` | project2/mexmaxflow.cpp:51-53 | the terminal-weight calls are one per node, in increasing node order, with the background weight to the source and the foreground weight to the sink |
| `Construction.EdgeInRow` | project2/mexmaxflow.cpp:54-63 | node `i` adds edge `(u, v, c, c')` iff `v == i`, `0 <= u < i`, `c == c'` and some slot of `i` holds `u` with weight `c` |
| `Construction.EdgeInUpto` | project2/mexmaxflow.cpp:51-64 | the complete construction adds edge `(u, v, c, c')` iff `0 <= u < v < i`, `c == c'` and some slot of `v` holds `u` with weight `c` |
| `Construction.EdgesBeforeSlot` | project2/mexmaxflow.cpp:59-62 | at the point of an abort, nodes `0 .. i` have their terminal weights, `TWeights(k, back[k], fore[k])` for node `k`, in node order, and exactly the earlier slots naming a lower node have their edges |
| `Construction.FirstIllegalUnique` | project2/mexmaxflow.cpp:59-60 | the first illegal slot is unique, so the partial log of an aborted call depends only on the inputs |
| `Construction.EdgeCountBound` | project2/mexmaxflow.cpp:47-63 | at most `N*D` edges are added, which is the edge hint given to the graph; at most `N*(D+1)` calls in all |
| `Construction.PairCountIsSlotCount` | project2/mexmaxflow.cpp:61-62 | for `0 <= a < b`, the number of edges joining `a` and `b` equals the number of slots of `b` that hold `a` |
| `Construction.EachNeighbourPairOnce` | project2/mexmaxflow.cpp:61-62 | with a symmetric, duplicate-free adjacency, each neighbour pair is joined by exactly one edge and every other pair by none |
| `Construction.OneSidedListingDropped` | project2/mexmaxflow.cpp:61 | a pair listed only by its lower node gets no edge, because the skip relies on the higher node's slot |
| `MexMaxflow.ExtractLabels` | project2/mexmaxflow.cpp:69-75 | one entry per node; entry `i` is 1 iff the node is on the sink side, and 0 iff it is not |
| `MexMaxflow.MexFunction` | project2/mexmaxflow.cpp:15-81 | rejected, with no graph built, iff a count or shape check fails, with that check's error; aborted with the illegal-index error only for a well-shaped call with an illegal slot, keeping the calls made before the first illegal slot; otherwise the log is the full construction, its edge count is within the hint, and each label is 1 for a sink-side node and 0 for any other |

## Left out

- The solver (`Graph`, `maxflow`, `what_segment`) lives in `graph.h`, which is not part
  of this model. The graph is a recorder of construction calls. The solver's
  segmentation is an input function. Accumulation of terminal weights inside the graph
  is not modelled, because each node receives exactly one terminal-weight call.
- The returned energy (the max-flow value, `mexmaxflow.cpp:67, 76`) is the solver's
  floating-point output and is left out.
- MATLAB plumbing is left out: reading and creating arrays, and the error call as a
  non-local exit. An error is an `Outcome` value. Writing a second output when only one
  was requested is not modelled, because it concerns only the energy.
- Neighbour indices are taken as integers. The source converts each stored double with
  `(int)(x - 1)`, which truncates toward zero; for example, a stored 0.5 becomes node 0
  rather than "no edge". This conversion is not modelled. Weights are `real` values
  passed through unchanged. Negative or non-finite weights are handed to the graph
  unchecked, exactly as in the source.
- The `int` casts of the node count and of the edge hint `N*D` are taken to be exact;
  overflow for very large inputs is not modelled.
- The graph's own checks are reduced to the preconditions of the recorder's methods:
  node indices in range, and distinct endpoints for an edge. Freeing the graph, and its
  leak on the error path, are not modelled.
