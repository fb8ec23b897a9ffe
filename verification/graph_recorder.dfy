/** The part of the max-flow graph's interface that the MATLAB entry point uses.

    The solver itself is not part of this model: a `Recorder` stands in for the graph
    object and remembers, in order, every construction call made on it. What the solver
    later decides about each node is passed to the entry point as a `Segment`-valued
    function instead. */
module GraphRecorder {

  /** One construction call made on the graph. */
  datatype Event =
    | TWeights(node: int, toSource: real, toSink: real)         // add_tweights(node, toSource, toSink)
    | Edge(from: int, to: int, cap: real, revCap: real)       // add_edge(from, to, cap, revCap)

  /** Which terminal's side of the minimum cut a node ends up on. */
  datatype Segment = Source | Sink

  /** Number of `Edge` events in a log. */
  function EdgeCount(log: seq<Event>): (c: nat)
    ensures c <= |log|
  {
    if log == [] then 0 else (if log[0].Edge? then 1 else 0) + EdgeCount(log[1..])
  }

  /** The `TWeights` events of a log, in the order they were made. */
  function Terminals(log: seq<Event>): (t: seq<Event>)
    ensures |t| <= |log|
  {
    if log == [] then []
    else (if log[0].TWeights? then [log[0]] else []) + Terminals(log[1..])
  }

  /** True when `e` is an edge between `a` and `b`, in either direction. */
  predicate Joins(e: Event, a: int, b: int)
  {
    e.Edge? && ((e.from == a && e.to == b) || (e.from == b && e.to == a))
  }

  /** How many edges of a log join `a` and `b` (the unordered pair). */
  function PairCount(log: seq<Event>, a: int, b: int): (c: nat)
    ensures c <= EdgeCount(log)
  {
    if log == [] then 0 else (if Joins(log[0], a, b) then 1 else 0) + PairCount(log[1..], a, b)
  }

  lemma {:induction false} EdgeCountAppend(x: seq<Event>, y: seq<Event>)
    ensures EdgeCount(x + y) == EdgeCount(x) + EdgeCount(y)
  {
    if x != [] {
      assert (x + y)[1..] == x[1..] + y;
      EdgeCountAppend(x[1..], y);
    } else {
      assert x + y == y;
    }
  }

  lemma {:induction false} TerminalsAppend(x: seq<Event>, y: seq<Event>)
    ensures Terminals(x + y) == Terminals(x) + Terminals(y)
  {
    if x != [] {
      assert (x + y)[1..] == x[1..] + y;
      TerminalsAppend(x[1..], y);
    } else {
      assert x + y == y;
    }
  }

  lemma {:induction false} PairCountAppend(x: seq<Event>, y: seq<Event>, a: int, b: int)
    ensures PairCount(x + y, a, b) == PairCount(x, a, b) + PairCount(y, a, b)
  {
    if x != [] {
      assert (x + y)[1..] == x[1..] + y;
      PairCountAppend(x[1..], y, a, b);
    } else {
      assert x + y == y;
    }
  }

  /** The graph under construction, seen only through the calls made on it.
      `nodeHint` and `edgeHint` are the size hints given to the graph's constructor. */
  class Recorder {
    const nodeHint: int
    const edgeHint: int
    var nodeCount: nat
    var log: seq<Event>

    constructor (nodeHint: int, edgeHint: int)
      ensures this.nodeHint == nodeHint && this.edgeHint == edgeHint
      ensures nodeCount == 0 && log == []
    {
      this.nodeHint := nodeHint;
      this.edgeHint := edgeHint;
      nodeCount := 0;
      log := [];
    }

    /** add_node(count): appends `count` nodes and returns the index of the first. */
    method AddNodes(count: nat) returns (first: nat)
      modifies this`nodeCount
      ensures first == old(nodeCount) && nodeCount == old(nodeCount) + count
    {
      first := nodeCount;
      nodeCount := nodeCount + count;
    }

    /** add_tweights(i, toSource, toSink) on an existing node. */
    method AddTWeights(i: int, toSource: real, toSink: real)
      requires 0 <= i < nodeCount
      modifies this`log
      ensures log == old(log) + [TWeights(i, toSource, toSink)]
    {
      log := log + [TWeights(i, toSource, toSink)];
    }

    /** add_edge(u, v, capUV, capVU) between two distinct existing nodes. */
    method AddEdge(u: int, v: int, capUV: real, capVU: real)
      requires 0 <= u < nodeCount && 0 <= v < nodeCount && u != v
      modifies this`log
      ensures log == old(log) + [Edge(u, v, capUV, capVU)]
    {
      log := log + [Edge(u, v, capUV, capVU)];
    }
  }
}
