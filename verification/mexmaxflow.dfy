/** The MATLAB entry point of the max-flow solver: argument checks, graph construction
    from the neighbour matrices, and the per-node label output.

    The solve itself happens in the graph object and is not modelled; its answer for
    each node arrives as the function `seg`. */
module MexMaxflow {
  import opened GraphRecorder
  import opened Construction

  datatype Option<T> = None | Some(value: T)

  /** The errors `mexFunction` raises; each one ends the call. */
  datatype Error =
    | NArgIn            // not exactly four inputs
    | NArgOut           // neither one nor two outputs
    | WeightLengths     // the two weight arrays differ in length
    | EdgeRows          // the index matrix does not have one row per node
    | EdgeShape         // the weight matrix is not the index matrix's shape
    | IllegalEdgeIndex  // a slot names a node past the last one

  /** How a call ends. */
  datatype Outcome =
    | Rejected(error: Error)                    // before any graph exists
    | Aborted(error: Error, log: seq<Event>)    // during construction, after the calls in `log`
    | Solved(log: seq<Event>, labels: seq<real>)

  /** The argument-count and shape checks, in the order they are made. */
  function CheckArgs(nlhs: int, nrhs: int, p: Problem): (r: Option<Error>)
    ensures r.None? <==> nrhs == 4 && (nlhs == 1 || nlhs == 2) && Shaped(p)
    ensures nrhs != 4 ==> r == Some(NArgIn)
    ensures nrhs == 4 && nlhs != 1 && nlhs != 2 ==> r == Some(NArgOut)
    ensures r.Some? && r.value in {WeightLengths, EdgeRows, EdgeShape} ==> nrhs == 4 && (nlhs == 1 || nlhs == 2)
    ensures nrhs == 4 && (nlhs == 1 || nlhs == 2) && |p.fore| != |p.back| ==> r == Some(WeightLengths)
    ensures (nrhs == 4 && (nlhs == 1 || nlhs == 2) && |p.fore| == |p.back| &&
             p.indices.rows != |p.back|) ==> r == Some(EdgeRows)
    ensures (nrhs == 4 && (nlhs == 1 || nlhs == 2) && |p.fore| == |p.back| && p.indices.rows == |p.back| &&
             (p.indices.cols != p.weights.cols || p.indices.rows != p.weights.rows)) ==> r == Some(EdgeShape)
    ensures r != Some(IllegalEdgeIndex)
  {
    if nrhs != 4 then Some(NArgIn)
    else if nlhs != 1 && nlhs != 2 then Some(NArgOut)
    else if |p.fore| != |p.back| then Some(WeightLengths)
    else if p.indices.rows != |p.back| then Some(EdgeRows)
    else if p.indices.cols != p.weights.cols || p.indices.rows != p.weights.rows then Some(EdgeShape)
    else None
  }

  /** The node/slot loop: terminal weights for each node, then one symmetric edge for
      each slot naming a lower node. Stops at the first slot naming a node past the
      last, keeping the calls already made. */
  method BuildGraph(g: Recorder, p: Problem) returns (ok: bool)
    requires Shaped(p) && g.nodeCount == NumNodes(p)
    modifies g`log
    ensures ok <==> AllLegal(p)
    ensures ok ==> g.log == old(g.log) + Upto(p, NumNodes(p))
    ensures !ok ==> exists i, j :: FirstIllegal(p, i, j) && g.log == old(g.log) + Upto(p, i) + RowUpto(p, i, j)
  {
    var numNodes, numDirections := |p.back|, p.indices.cols;
    for i := 0 to numNodes
      invariant LegalBefore(p, i, 0)
      invariant g.log == old(g.log) + Upto(p, i)
    {
      g.AddTWeights(i, p.back[i], p.fore[i]);
      for j := 0 to numDirections
        invariant LegalBefore(p, i, j)
        invariant g.log == old(g.log) + Upto(p, i) + RowUpto(p, i, j)
      {
        SlotOffset(numNodes, numDirections, i, j);
        var edgeIndex := p.indices.data[numNodes * j + i] - 1;
        var edgeWeight := p.weights.data[numNodes * j + i];
        assert edgeIndex == Decoded(p, i, j) && edgeWeight == Weight(p, i, j);
        assert RowUpto(p, i, j + 1) == RowUpto(p, i, j) + SlotEvents(p, i, j);
        if edgeIndex < 0 {
          LegalBeforeNextSlot(p, i, j);
          continue;
        } else if edgeIndex >= numNodes {
          assert FirstIllegal(p, i, j);
          return false;
        } else if edgeIndex >= i {
          LegalBeforeNextSlot(p, i, j);
          continue;
        }
        g.AddEdge(edgeIndex, i, edgeWeight, edgeWeight);
        LegalBeforeNextSlot(p, i, j);
      }
      LegalBeforeNextNode(p, i);
    }
    LegalBeforeEnd(p);
    return true;
  }

  /** The output array: one entry per node, 1 for a node on the sink side, else 0. */
  method ExtractLabels(numNodes: nat, seg: int -> Segment) returns (labels: seq<real>)
    ensures |labels| == numNodes
    ensures forall i :: 0 <= i < numNodes ==> (labels[i] == 1.0 <==> seg(i) == Sink)
    ensures forall i :: 0 <= i < numNodes ==> (labels[i] == 0.0 <==> seg(i) != Sink)
  {
    var arr := new real[numNodes](_ => 0.0);
    for i := 0 to numNodes
      invariant forall k :: 0 <= k < i ==> arr[k] == if seg(k) == Sink then 1.0 else 0.0
    {
      arr[i] := if seg(i) == Sink then 1.0 else 0.0;
    }
    labels := arr[..];
  }

  /** One call of the entry point with `nlhs` outputs and `nrhs` inputs. */
  method MexFunction(nlhs: int, nrhs: int, p: Problem, seg: int -> Segment) returns (out: Outcome)
    ensures out.Rejected? <==> CheckArgs(nlhs, nrhs, p).Some?
    ensures out.Rejected? ==> out.error == CheckArgs(nlhs, nrhs, p).value
    ensures out.Aborted? ==>
      out.error == IllegalEdgeIndex && Shaped(p) && !AllLegal(p) &&
      exists i, j :: FirstIllegal(p, i, j) && out.log == Upto(p, i) + RowUpto(p, i, j)
    ensures out.Solved? ==>
      Shaped(p) && AllLegal(p) && out.log == Upto(p, NumNodes(p)) &&
      EdgeCount(out.log) <= NumNodes(p) * NumDirections(p) &&
      |out.labels| == NumNodes(p) &&
      forall i :: 0 <= i < NumNodes(p) ==>
        (out.labels[i] == 1.0 <==> seg(i) == Sink) && (out.labels[i] == 0.0 <==> seg(i) != Sink)
  {
    var err := CheckArgs(nlhs, nrhs, p);
    if err.Some? {
      return Rejected(err.value);
    }
    var numNodes, numDirections := |p.back|, p.indices.cols;
    var g := new Recorder(numNodes, numNodes * numDirections);
    var first := g.AddNodes(numNodes);
    var ok := BuildGraph(g, p);
    if !ok {
      return Aborted(IllegalEdgeIndex, g.log);
    }
    EdgeCountBound(p, numNodes);
    var labels := ExtractLabels(numNodes, seg);
    return Solved(g.log, labels);
  }
}
