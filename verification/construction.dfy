/** How the MATLAB entry point turns its four input arrays into graph-construction
    calls, stated as functions of the inputs.

    Node `i` (0-based) first gets its terminal weights, then its `D` neighbour slots
    are read in order. Slot `(i, j)` lives at offset `N*j + i` of both the index matrix
    and the weight matrix (column-major, `N` rows). The index stored there is 1-based. */
module Construction {
  import opened GraphRecorder

  /** A MATLAB numeric array of `rows` by `cols` entries, stored column by column. */
  datatype Matrix<T> = Matrix(rows: nat, cols: nat, data: seq<T>)

  type MxArray<T> = m: Matrix<T> | |m.data| == m.rows * m.cols witness Matrix(0, 0, [])

  /** The four right-hand-side arguments: background (source) weights, foreground (sink)
      weights, the neighbour-index matrix and the neighbour-weight matrix. Indices are
      the stored 1-based values, already converted to integers. */
  datatype Problem = Problem(back: seq<real>, fore: seq<real>, indices: MxArray<int>, weights: MxArray<real>)

  function NumNodes(p: Problem): nat { |p.back| }

  function NumDirections(p: Problem): nat { p.indices.cols }

  /** The shapes the entry point insists on before it builds anything. */
  predicate Shaped(p: Problem)
  {
    |p.fore| == |p.back| && p.indices.rows == |p.back|
    && p.weights.cols == p.indices.cols && p.weights.rows == p.indices.rows
  }

  /** Column-major addressing: slot `(i, j)` of an `n`-row, `d`-column matrix is at
      offset `n*j + i`, which is in range, and the offset gives back the row and column. */
  lemma SlotOffset(n: nat, d: nat, i: nat, j: nat)
    requires i < n && j < d
    ensures n * j + i < n * d
    ensures (n * j + i) / n == j && (n * j + i) % n == i
  {
    MulMonotone(n, j + 1, d);
    assert n * (j + 1) == n * j + n;
    var x := n * j + i;
    var q, r := x / n, x % n;
    assert x == n * q + r && 0 <= r < n;
    if q > j {
      MulMonotone(n, j + 1, q);
      assert false;
    } else if q < j {
      MulMonotone(n, q + 1, j);
      assert false;
    }
  }

  lemma MulMonotone(n: nat, a: nat, b: nat)
    requires a <= b
    ensures n * a <= n * b
  {
  }

  /** The 0-based neighbour index held in slot `(i, j)`; negative means "no edge". */
  function Decoded(p: Problem, i: nat, j: nat): int
    requires Shaped(p) && i < NumNodes(p) && j < NumDirections(p)
  {
    SlotOffset(NumNodes(p), NumDirections(p), i, j);
    p.indices.data[NumNodes(p) * j + i] - 1
  }

  /** The weight held in slot `(i, j)`. */
  function Weight(p: Problem, i: nat, j: nat): real
    requires Shaped(p) && i < NumNodes(p) && j < NumDirections(p)
  {
    SlotOffset(NumNodes(p), NumDirections(p), i, j);
    p.weights.data[NumNodes(p) * j + i]
  }

  /** A slot is legal unless its index points past the last node. */
  predicate Legal(p: Problem, i: nat, j: nat)
    requires Shaped(p) && i < NumNodes(p) && j < NumDirections(p)
  {
    Decoded(p, i, j) < NumNodes(p)
  }

  /** Slot `(a, s)` is visited before slot `(i, j)`. */
  predicate Before(a: int, s: int, i: int, j: int)
  {
    a < i || (a == i && s < j)
  }

  predicate LegalBefore(p: Problem, i: int, j: int)
    requires Shaped(p)
  {
    forall a, s :: 0 <= a < NumNodes(p) && 0 <= s < NumDirections(p) && Before(a, s, i, j) ==> Legal(p, a, s)
  }

  predicate AllLegal(p: Problem)
    requires Shaped(p)
  {
    forall a, s :: 0 <= a < NumNodes(p) && 0 <= s < NumDirections(p) ==> Legal(p, a, s)
  }

  /** `(i, j)` is the first illegal slot in visiting order. */
  predicate FirstIllegal(p: Problem, i: int, j: int)
    requires Shaped(p)
  {
    0 <= i < NumNodes(p) && 0 <= j < NumDirections(p) && !Legal(p, i, j) && LegalBefore(p, i, j)
  }

  lemma LegalBeforeNextSlot(p: Problem, i: nat, j: nat)
    requires Shaped(p) && i < NumNodes(p) && j < NumDirections(p)
    requires LegalBefore(p, i, j) && Legal(p, i, j)
    ensures LegalBefore(p, i, j + 1)
  {
  }

  lemma LegalBeforeNextNode(p: Problem, i: nat)
    requires Shaped(p) && i < NumNodes(p)
    requires LegalBefore(p, i, NumDirections(p))
    ensures LegalBefore(p, i + 1, 0)
  {
  }

  lemma LegalBeforeEnd(p: Problem)
    requires Shaped(p) && LegalBefore(p, NumNodes(p), 0)
    ensures AllLegal(p)
  {
  }

  /** Node `v` lists node `u` in one of its first `j` slots. */
  predicate ListedUpTo(p: Problem, v: nat, u: int, j: nat)
    requires Shaped(p) && v < NumNodes(p) && j <= NumDirections(p)
  {
    exists s :: 0 <= s < j && Decoded(p, v, s) == u
  }

  /** Node `v` lists node `u` among its neighbours. */
  predicate Listed(p: Problem, v: nat, u: int)
    requires Shaped(p) && v < NumNodes(p)
  {
    ListedUpTo(p, v, u, NumDirections(p))
  }

  /** How many of the first `j` slots of node `v` hold node `u`. */
  function SlotCount(p: Problem, v: nat, u: int, j: nat): nat
    requires Shaped(p) && v < NumNodes(p) && j <= NumDirections(p)
  {
    if j == 0 then 0 else SlotCount(p, v, u, j - 1) + (if Decoded(p, v, j - 1) == u then 1 else 0)
  }

  /** Every node lists exactly the nodes that list it. */
  predicate Symmetric(p: Problem)
    requires Shaped(p)
  {
    forall a, b :: 0 <= a < NumNodes(p) && 0 <= b < NumNodes(p) ==> (Listed(p, a, b) <==> Listed(p, b, a))
  }

  /** No node lists the same neighbour twice. */
  predicate DuplicateFree(p: Problem)
    requires Shaped(p)
  {
    forall a, b :: 0 <= a < NumNodes(p) && 0 <= b < NumNodes(p) ==> SlotCount(p, a, b, NumDirections(p)) <= 1
  }

  /** The calls made for one legal slot: nothing for an empty slot or for a neighbour
      not below the current node, otherwise one symmetric edge. */
  function SlotEvents(p: Problem, i: nat, j: nat): seq<Event>
    requires Shaped(p) && i < NumNodes(p) && j < NumDirections(p)
  {
    var k := Decoded(p, i, j);
    if k < 0 then []
    else if k >= i then []
    else [Edge(k, i, Weight(p, i, j), Weight(p, i, j))]
  }

  /** The calls made for node `i` up to (not including) slot `j`. */
  function RowUpto(p: Problem, i: nat, j: nat): seq<Event>
    requires Shaped(p) && i < NumNodes(p) && j <= NumDirections(p)
  {
    if j == 0 then [TWeights(i, p.back[i], p.fore[i])]
    else RowUpto(p, i, j - 1) + SlotEvents(p, i, j - 1)
  }

  /** The calls made for nodes `0 .. i-1`. */
  function Upto(p: Problem, i: nat): seq<Event>
    requires Shaped(p) && i <= NumNodes(p)
  {
    if i == 0 then [] else Upto(p, i - 1) + RowUpto(p, i - 1, NumDirections(p))
  }

  // ---------------------------------------------------------------------------
  // Terminal weights

  lemma {:induction false} TerminalsOfRow(p: Problem, i: nat, j: nat)
    requires Shaped(p) && i < NumNodes(p) && j <= NumDirections(p)
    ensures Terminals(RowUpto(p, i, j)) == [TWeights(i, p.back[i], p.fore[i])]
  {
    var tw := TWeights(i, p.back[i], p.fore[i]);
    if j == 0 {
      assert Terminals([tw]) == [tw] + Terminals([]);
    } else {
      TerminalsOfRow(p, i, j - 1);
      var e := SlotEvents(p, i, j - 1);
      TerminalsAppend(RowUpto(p, i, j - 1), e);
      if e != [] {
        assert Terminals(e) == [] + Terminals([]);
      }
    }
  }

  /** Terminal weights are set once per node, in increasing node order, with the
      background weight as the source capacity and the foreground weight as the sink
      capacity. */
  lemma {:induction false} TerminalsInNodeOrder(p: Problem, i: nat)
    requires Shaped(p) && i <= NumNodes(p)
    ensures |Terminals(Upto(p, i))| == i
    ensures forall k :: 0 <= k < i ==> Terminals(Upto(p, i))[k] == TWeights(k, p.back[k], p.fore[k])
  {
    if i > 0 {
      var prev, row := Upto(p, i - 1), RowUpto(p, i - 1, NumDirections(p));
      assert Upto(p, i) == prev + row;
      TerminalsInNodeOrder(p, i - 1);
      TerminalsOfRow(p, i - 1, NumDirections(p));
      TerminalsAppend(prev, row);
      var t := Terminals(prev + row);
      assert t == Terminals(prev) + [TWeights(i - 1, p.back[i - 1], p.fore[i - 1])];
      forall k | 0 <= k < i
        ensures t[k] == TWeights(k, p.back[k], p.fore[k])
      {
        if k < i - 1 {
          assert t[k] == Terminals(prev)[k];
        }
      }
    }
  }

  // ---------------------------------------------------------------------------
  // Edges

  /** The edges made for node `i` are exactly those from its slots holding a lower
      node: endpoints `u < i`, the same capacity both ways, equal to the slot's weight. */
  lemma {:induction false} EdgeInRow(p: Problem, i: nat, j: nat, u: int, v: int, c: real, c': real)
    requires Shaped(p) && i < NumNodes(p) && j <= NumDirections(p)
    ensures Edge(u, v, c, c') in RowUpto(p, i, j) <==>
      v == i && 0 <= u < v && c == c' &&
      exists s :: 0 <= s < j && Decoded(p, i, s) == u && Weight(p, i, s) == c
  {
    var e := Edge(u, v, c, c');
    if j > 0 {
      EdgeInRow(p, i, j - 1, u, v, c, c');
      var rest := RowUpto(p, i, j - 1);
      assert RowUpto(p, i, j) == rest + SlotEvents(p, i, j - 1);
      assert e in RowUpto(p, i, j) <==> e in rest || e in SlotEvents(p, i, j - 1);
      if e in SlotEvents(p, i, j - 1) {
        assert Decoded(p, i, j - 1) == u && Weight(p, i, j - 1) == c;
      }
      if v == i && 0 <= u < v && c == c' && Decoded(p, i, j - 1) == u && Weight(p, i, j - 1) == c {
        assert e in SlotEvents(p, i, j - 1);
      }
    }
  }

  /** Every edge made for nodes below `i` has endpoints `0 <= u < v < i`, the same
      capacity both ways, and comes from a slot of `v` that holds `u` with that
      weight; and every such slot does make its edge. */
  lemma {:induction false} EdgeInUpto(p: Problem, i: nat, u: int, v: int, c: real, c': real)
    requires Shaped(p) && i <= NumNodes(p)
    ensures Edge(u, v, c, c') in Upto(p, i) <==>
      0 <= u < v < i && c == c' &&
      exists s :: 0 <= s < NumDirections(p) && Decoded(p, v, s) == u && Weight(p, v, s) == c
  {
    if i > 0 {
      EdgeInUpto(p, i - 1, u, v, c, c');
      EdgeInRow(p, i - 1, NumDirections(p), u, v, c, c');
    }
  }

  /** What was made before slot `(i, j)` is visited: terminal weights for nodes
      `0 .. i`, and an edge for exactly the slots visited earlier that hold a lower node. */
  lemma EdgesBeforeSlot(p: Problem, i: nat, j: nat, u: int, v: int, c: real, c': real)
    requires Shaped(p) && i < NumNodes(p) && j <= NumDirections(p)
    ensures |Terminals(Upto(p, i) + RowUpto(p, i, j))| == i + 1
    ensures forall k :: 0 <= k <= i ==> Terminals(Upto(p, i) + RowUpto(p, i, j))[k] == TWeights(k, p.back[k], p.fore[k])
    ensures Edge(u, v, c, c') in Upto(p, i) + RowUpto(p, i, j) <==>
      0 <= u < v < NumNodes(p) && c == c' &&
      exists s :: 0 <= s < NumDirections(p) && Before(v, s, i, j) && Decoded(p, v, s) == u && Weight(p, v, s) == c
  {
    var prev, row := Upto(p, i), RowUpto(p, i, j);
    TerminalsInNodeOrder(p, i);
    TerminalsOfRow(p, i, j);
    TerminalsAppend(prev, row);
    var t := Terminals(prev + row);
    assert t == Terminals(prev) + [TWeights(i, p.back[i], p.fore[i])];
    forall k | 0 <= k <= i
      ensures t[k] == TWeights(k, p.back[k], p.fore[k])
    {
      if k < i {
        assert t[k] == Terminals(prev)[k];
      }
    }
    EdgeInUpto(p, i, u, v, c, c');
    EdgeInRow(p, i, j, u, v, c, c');
    if 0 <= u < v < NumNodes(p) && c == c' && v == i {
      if exists s :: 0 <= s < NumDirections(p) && Before(v, s, i, j) && Decoded(p, v, s) == u && Weight(p, v, s) == c {
        var s :| 0 <= s < NumDirections(p) && Before(v, s, i, j) && Decoded(p, v, s) == u && Weight(p, v, s) == c;
        assert 0 <= s < j;
      }
    }
  }

  lemma {:induction false} EdgeCountOfRow(p: Problem, i: nat, j: nat)
    requires Shaped(p) && i < NumNodes(p) && j <= NumDirections(p)
    ensures EdgeCount(RowUpto(p, i, j)) <= j
  {
    if j == 0 {
      assert EdgeCount(RowUpto(p, i, 0)) == 0 + EdgeCount([]);
    } else {
      EdgeCountOfRow(p, i, j - 1);
      EdgeCountAppend(RowUpto(p, i, j - 1), SlotEvents(p, i, j - 1));
    }
  }

  /** At most `D` edges per node: the edge count never exceeds the hint `N*D` given
      to the graph's constructor. */
  lemma {:induction false} EdgeCountBound(p: Problem, i: nat)
    requires Shaped(p) && i <= NumNodes(p)
    ensures EdgeCount(Upto(p, i)) <= i * NumDirections(p)
    ensures |Upto(p, i)| <= i * (NumDirections(p) + 1)
  {
    var d := NumDirections(p);
    if i > 0 {
      EdgeCountBound(p, i - 1);
      EdgeCountOfRow(p, i - 1, d);
      EdgeCountAppend(Upto(p, i - 1), RowUpto(p, i - 1, d));
      RowLength(p, i - 1, d);
      MulSucc(i - 1, d);
      MulSucc(i - 1, d + 1);
    }
  }

  lemma MulSucc(a: nat, b: nat)
    ensures a * b + b == (a + 1) * b
  {
  }

  lemma {:induction false} RowLength(p: Problem, i: nat, j: nat)
    requires Shaped(p) && i < NumNodes(p) && j <= NumDirections(p)
    ensures |RowUpto(p, i, j)| <= j + 1
  {
    if j > 0 {
      RowLength(p, i, j - 1);
    }
  }

  // ---------------------------------------------------------------------------
  // One edge per unordered neighbour pair

  lemma {:induction false} SlotCountListed(p: Problem, v: nat, u: int, j: nat)
    requires Shaped(p) && v < NumNodes(p) && j <= NumDirections(p)
    ensures SlotCount(p, v, u, j) > 0 <==> ListedUpTo(p, v, u, j)
  {
    if j > 0 {
      SlotCountListed(p, v, u, j - 1);
      if ListedUpTo(p, v, u, j) && Decoded(p, v, j - 1) != u {
        var s :| 0 <= s < j && Decoded(p, v, s) == u;
        assert ListedUpTo(p, v, u, j - 1);
      }
    }
  }

  /** For `a < b`, the edges joining `a` and `b` made for node `i` number as many as
      the slots of `b` holding `a` when `i` is `b`, and none otherwise. */
  lemma {:induction false} PairCountOfRow(p: Problem, i: nat, j: nat, a: int, b: int)
    requires Shaped(p) && i < NumNodes(p) && j <= NumDirections(p)
    requires 0 <= a < b
    ensures PairCount(RowUpto(p, i, j), a, b) == if b == i then SlotCount(p, i, a, j) else 0
  {
    if j == 0 {
      assert PairCount(RowUpto(p, i, 0), a, b) == 0 + PairCount([], a, b);
    } else {
      PairCountOfRow(p, i, j - 1, a, b);
      var e := SlotEvents(p, i, j - 1);
      PairCountAppend(RowUpto(p, i, j - 1), e, a, b);
      if e != [] {
        assert PairCount(e, a, b) == (if Joins(e[0], a, b) then 1 else 0) + PairCount([], a, b);
      }
    }
  }

  /** For `0 <= a < b`, the edges joining `a` and `b` number exactly the slots of the
      higher node `b` that hold `a`; the lower node's slots add nothing. */
  lemma {:induction false} PairCountIsSlotCount(p: Problem, i: nat, a: int, b: int)
    requires Shaped(p) && i <= NumNodes(p)
    requires 0 <= a < b
    ensures PairCount(Upto(p, i), a, b) == if b < i then SlotCount(p, b, a, NumDirections(p)) else 0
  {
    if i > 0 {
      PairCountIsSlotCount(p, i - 1, a, b);
      PairCountOfRow(p, i - 1, NumDirections(p), a, b);
      PairCountAppend(Upto(p, i - 1), RowUpto(p, i - 1, NumDirections(p)), a, b);
    }
  }

  /** With a symmetric, duplicate-free adjacency, every pair of neighbours is joined by
      exactly one edge, and every other pair by none. */
  lemma EachNeighbourPairOnce(p: Problem, a: nat, b: nat)
    requires Shaped(p) && Symmetric(p) && DuplicateFree(p)
    requires a < b < NumNodes(p)
    ensures PairCount(Upto(p, NumNodes(p)), a, b) == if Listed(p, a, b) || Listed(p, b, a) then 1 else 0
  {
    PairCountIsSlotCount(p, NumNodes(p), a, b);
    SlotCountListed(p, b, a, NumDirections(p));
  }

  /** The deduplication rule relies on symmetry: a pair listed only by its lower node
      gets no edge at all. */
  lemma OneSidedListingDropped(p: Problem, a: nat, b: nat)
    requires Shaped(p) && a < b < NumNodes(p)
    requires Listed(p, a, b) && !Listed(p, b, a)
    ensures PairCount(Upto(p, NumNodes(p)), a, b) == 0
  {
    PairCountIsSlotCount(p, NumNodes(p), a, b);
    SlotCountListed(p, b, a, NumDirections(p));
  }

  /** The first illegal slot, where construction stops, is unique. */
  lemma FirstIllegalUnique(p: Problem, i: int, j: int, i': int, j': int)
    requires Shaped(p) && FirstIllegal(p, i, j) && FirstIllegal(p, i', j')
    ensures i == i' && j == j'
  {
  }
}
