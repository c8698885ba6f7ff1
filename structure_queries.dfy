/**
  The single-model structural queries: SELECTs over the `node` and `edge`
  relations that change nothing. They are modelled as functions of the two
  row sequences. Because `node.id` is the table's primary key, counting
  node rows and counting distinct node ids agree, so the row sets the
  queries count are sets of ids.

  `Layered` describes the shape the encoders produce: layers of consecutive
  ids, every edge joining a layer to the next, and every such pair of nodes
  joined. The results of the queries on that shape are proved in terms of
  the layer widths, and the encoders' output is shown to have that shape.
*/
module StructureQueries {
  import opened Common
  import opened Encoding

  function NodeIdSet(nodes: seq<Node>): set<int> { set n | n in nodes :: n.id }
  function Dsts(edges: seq<Edge>): set<int> { set e | e in edges :: e.dst }
  function Srcs(edges: seq<Edge>): set<int> { set e | e in edges :: e.src }

  /** `input_nodes`: the nodes that are no edge's `dst`. */
  function InputIds(nodes: seq<Node>, edges: seq<Edge>): set<int>
  {
    set n | n in nodes && n.id !in Dsts(edges) :: n.id
  }

  /** The nodes that are no edge's `src`. */
  function OutputIds(nodes: seq<Node>, edges: seq<Edge>): set<int>
  {
    set n | n in nodes && n.id !in Srcs(edges) :: n.id
  }

  // ---------------------------------------------------------------------------
  // query_layers_single
  // ---------------------------------------------------------------------------

  /**
    One round of the recursive part of `nodes_with_layer`: the nodes an edge
    reaches from the previous round's nodes; the GROUP BY keeps each once.
  */
  function Step(nodes: seq<Node>, edges: seq<Edge>, cur: set<int>): (next: set<int>)
    ensures next <= NodeIdSet(nodes) * Dsts(edges)
  {
    set n, e | n in nodes && e in edges && e.src in cur && e.dst == n.id :: n.id
  }

  /** The ids the recursive CTE tags with layer k. */
  function LayerSet(nodes: seq<Node>, edges: seq<Edge>, k: nat): set<int>
  {
    if k == 0 then InputIds(nodes, edges) else Step(nodes, edges, LayerSet(nodes, edges, k - 1))
  }

  /**
    Every layer holds ids of stored nodes; layer 0 holds exactly those no
    edge enters, every later layer only ids some edge enters.
  */
  lemma LayerSetWithin(nodes: seq<Node>, edges: seq<Edge>, k: nat)
    ensures LayerSet(nodes, edges, k) <= NodeIdSet(nodes)
    ensures k == 0 ==> LayerSet(nodes, edges, k) == NodeIdSet(nodes) - Dsts(edges)
    ensures k > 0 ==> LayerSet(nodes, edges, k) <= Dsts(edges)
  {
  }

  datatype LayerCount = LayerCount(layer: nat, numberOfNodes: nat)

  /**
    `SELECT layer, COUNT(id) ... GROUP BY layer ORDER BY layer` over the
    rounds k, k+1, ..., k+fuel-1 of the recursion: one row per layer that
    holds a node, in ascending layer order.
  */
  function LayerRows(nodes: seq<Node>, edges: seq<Edge>, k: nat, fuel: nat): (rows: seq<LayerCount>)
    ensures |rows| <= fuel
    decreases fuel
  {
    if fuel == 0 then []
    else
      var here := LayerSet(nodes, edges, k);
      (if here == {} then [] else [LayerCount(k, |here|)]) + LayerRows(nodes, edges, k + 1, fuel - 1)
  }

  /**
    `query_layers_single`. The recursive CTE runs until a round adds no row;
    the model runs |nodes| rounds, which an acyclic graph never exceeds.
  */
  function LayersQuery(nodes: seq<Node>, edges: seq<Edge>): (rows: seq<LayerCount>)
    ensures |rows| <= |nodes|
    ensures forall i | 0 <= i < |rows| :: rows[i].layer < |nodes| && rows[i].numberOfNodes > 0
    ensures forall i, j | 0 <= i < j < |rows| :: rows[i].layer < rows[j].layer
  {
    LayerRowsShape(nodes, edges, 0, |nodes|);
    LayerRows(nodes, edges, 0, |nodes|)
  }

  // ---------------------------------------------------------------------------
  // query_parameters_single and the hidden-node count
  // ---------------------------------------------------------------------------

  /** `num_biases`: the nodes that are not input nodes. */
  function NonInputCount(nodes: seq<Node>, edges: seq<Edge>): (c: nat)
    ensures c <= |nodes|
  {
    IdSetCard(nodes);
    CardMono(NodeIdSet(nodes) - InputIds(nodes, edges), NodeIdSet(nodes));
    |NodeIdSet(nodes) - InputIds(nodes, edges)|
  }

  /** `query_parameters_single`: one bias per non-input node plus one weight per edge. */
  function ParameterCount(nodes: seq<Node>, edges: seq<Edge>): (c: nat)
    ensures |edges| <= c <= |nodes| + |edges|
  {
    NonInputCount(nodes, edges) + |edges|
  }

  /**
    `num_hidden_nodes` of one model: total nodes minus input nodes minus
    output nodes. When no node is both (an isolated node would be), it is
    the number of nodes that are neither.
  */
  function HiddenCount(nodes: seq<Node>, edges: seq<Edge>): (h: int)
    ensures InputIds(nodes, edges) * OutputIds(nodes, edges) == {} ==>
      h == |NodeIdSet(nodes) - InputIds(nodes, edges) - OutputIds(nodes, edges)|
  {
    var all, ins, outs := NodeIdSet(nodes), InputIds(nodes, edges), OutputIds(nodes, edges);
    DisjointDiffCard(all, ins, outs);
    |all| - |ins| - |outs|
  }

  lemma DisjointDiffCard(all: set<int>, ins: set<int>, outs: set<int>)
    requires ins <= all && outs <= all
    ensures ins * outs == {} ==> |all - ins - outs| == |all| - |ins| - |outs|
  {
    if ins * outs == {} {
      assert all == (all - ins - outs) + ins + outs;
    assert (all - ins - outs) * ins == {};
      assert ((all - ins - outs) + ins) * outs == {};
    }
  }

  // ---------------------------------------------------------------------------
  // query_pruning_single
  // ---------------------------------------------------------------------------

  /** The largest entry of a sequence; None for an empty one (SQL's MAX over no rows). */
  function MaxOf(xs: seq<real>): (m: Option<real>)
    ensures m.None? <==> xs == []
    ensures m.Some? ==> (forall i | 0 <= i < |xs| :: xs[i] <= m.value) && (exists i | 0 <= i < |xs| :: xs[i] == m.value)
  {
    if xs == [] then None
    else
      var init, last := xs[..|xs| - 1], xs[|xs| - 1];
      var m := MaxOf(init);
      if m.None? then Some(last)
      else if last > m.value then Some(last)
      else assert init[0] == xs[0]; m
  }

  /** `ABS(weight)` of every edge in the group `src = s`, in row order. */
  function OutgoingAbs(edges: seq<Edge>, s: int): (ws: seq<real>)
    ensures |ws| <= |edges|
    ensures forall x | x in ws :: x >= 0.0
  {
    if edges == [] then []
    else
      var init, last := edges[..|edges| - 1], edges[|edges| - 1];
      OutgoingAbs(init, s) + (if last.src == s then [Abs(last.weight)] else [])
  }

  /** `GROUP BY src HAVING MAX(ABS(weight)) <= threshold`: every source whose largest outgoing |weight| is within the threshold. */
  function PrunableSrcs(edges: seq<Edge>, threshold: real): (srcs: set<int>)
    ensures srcs <= Srcs(edges)
  {
    set e | e in edges && MaxOf(OutgoingAbs(edges, e.src)).Some? && MaxOf(OutgoingAbs(edges, e.src)).value <= threshold :: e.src
  }

  /** The threshold written into `query_pruning_single`. */
  const PruningThreshold: real := 0.01

  /** `query_pruning_single`: the sources whose outgoing |weight| never exceeds 0.01. */
  function PruningQuery(edges: seq<Edge>): (srcs: set<int>)
    ensures srcs <= Srcs(edges)
    ensures forall s | s in srcs :: forall e | e in edges && e.src == s :: Abs(e.weight) <= PruningThreshold
  {
    PrunableWithin(edges, PruningThreshold);
    PrunableSrcs(edges, PruningThreshold)
  }

  lemma PrunableWithin(edges: seq<Edge>, threshold: real)
    ensures forall s | s in PrunableSrcs(edges, threshold) :: forall e | e in edges && e.src == s :: Abs(e.weight) <= threshold
  {
    forall s | s in PrunableSrcs(edges, threshold)
      ensures forall e | e in edges && e.src == s :: Abs(e.weight) <= threshold
    {
      PrunableIff(edges, threshold, s);
    }
  }

  lemma {:induction false} OutgoingAbsMember(edges: seq<Edge>, s: int, x: real)
    ensures x in OutgoingAbs(edges, s) <==> exists e | e in edges :: e.src == s && Abs(e.weight) == x
    decreases |edges|
  {
    if edges != [] {
      var init, last := edges[..|edges| - 1], edges[|edges| - 1];
      OutgoingAbsMember(init, s, x);
      assert edges == init + [last];
      if exists e | e in edges :: e.src == s && Abs(e.weight) == x {
        var e :| e in edges && e.src == s && Abs(e.weight) == x;
        if e != last {
          assert e in init;
        }
      }
    }
  }

  /**
    A node is a pruning candidate exactly when it is the source of at least
    one edge and every edge leaving it has |weight| within the threshold;
    nodes without outgoing edges never appear.
  */
  lemma PrunableIff(edges: seq<Edge>, threshold: real, s: int)
    ensures s in PrunableSrcs(edges, threshold) <==>
      s in Srcs(edges) && forall e | e in edges && e.src == s :: Abs(e.weight) <= threshold
  {
    var ws := OutgoingAbs(edges, s);
    if s in Srcs(edges) {
      var e0 :| e0 in edges && e0.src == s;
      OutgoingAbsMember(edges, s, Abs(e0.weight));
      var m := MaxOf(ws);
      assert m.Some?;
      if m.value <= threshold {
        forall e | e in edges && e.src == s ensures Abs(e.weight) <= threshold {
          OutgoingAbsMember(edges, s, Abs(e.weight));
          var i :| 0 <= i < |ws| && ws[i] == Abs(e.weight);
        }
        assert s in PrunableSrcs(edges, threshold);
      } else {
        var i :| 0 <= i < |ws| && ws[i] == m.value;
        assert ws[i] in ws;
        OutgoingAbsMember(edges, s, m.value);
        assert s !in PrunableSrcs(edges, threshold);
      }
    }
  }

  /** Raising the threshold never removes a pruning candidate. */
  lemma PrunableMonotone(edges: seq<Edge>, t1: real, t2: real)
    requires t1 <= t2
    ensures PrunableSrcs(edges, t1) <= PrunableSrcs(edges, t2)
  {
    forall s | s in PrunableSrcs(edges, t1) ensures s in PrunableSrcs(edges, t2) {
      PrunableIff(edges, t1, s);
      PrunableIff(edges, t2, s);
    }
  }

  // ---------------------------------------------------------------------------
  // The layered shape
  // ---------------------------------------------------------------------------

  /** The ids lo+1 .. lo+n. */
  function Interval(lo: int, n: nat): (r: set<int>)
    ensures forall x :: x in r <==> lo < x <= lo + n
    ensures |r| == n
  {
    if n == 0 then {} else Interval(lo, n - 1) + {lo + n}
  }

  /** `id` belongs to layer l: the ws[l] ids after the Start(ws, l) ids of the earlier layers. */
  predicate InLayer(ws: seq<nat>, l: int, id: int)
  {
    0 <= l < |ws| && Start(ws, l) < id <= Start(ws, l) + ws[l]
  }

  /** `a` is in layer l and `b` in layer l+1. */
  predicate Adjacent(ws: seq<nat>, l: int, a: int, b: int)
  {
    InLayer(ws, l, a) && InLayer(ws, l + 1, b)
  }

  /**
    The shape the encoders produce for layer widths `ws`: no empty layer, the
    node ids are 1 .. Sum(ws) with layer l holding its own consecutive block,
    every edge joins layer l to layer l+1, and every such pair is joined.
  */
  ghost predicate Layered(nodes: seq<Node>, edges: seq<Edge>, ws: seq<nat>)
  {
    && |ws| > 0
    && (forall l | 0 <= l < |ws| :: ws[l] > 0)
    && NodeIdSet(nodes) == Interval(0, Sum(ws))
    && (forall e | e in edges :: exists l :: Adjacent(ws, l, e.src, e.dst))
    && (forall l, a, b | Adjacent(ws, l, a, b) :: exists e | e in edges :: e.src == a && e.dst == b)
  }

  lemma {:induction false} IdSetCard(nodes: seq<Node>)
    ensures |NodeIdSet(nodes)| <= |nodes|
    decreases |nodes|
  {
    if nodes != [] {
      var init, last := nodes[..|nodes| - 1], nodes[|nodes| - 1];
      IdSetCard(init);
      assert nodes == init + [last];
      assert NodeIdSet(nodes) == NodeIdSet(init) + {last.id};
    }
  }

  lemma {:induction false} SumAtLeastLength(ws: seq<nat>)
    requires forall l | 0 <= l < |ws| :: ws[l] > 0
    ensures Sum(ws) >= |ws|
    decreases |ws|
  {
    if ws != [] {
      SumAtLeastLength(ws[..|ws| - 1]);
    }
  }

  /** A layer's block lies inside 1 .. Sum(ws). */
  lemma LayerInside(ws: seq<nat>, l: nat)
    requires l < |ws|
    ensures 0 <= Start(ws, l) && Start(ws, l) + ws[l] <= Sum(ws)
  {
    PrefixSumStep(ws, l);
    PrefixSumMono(ws, l + 1, |ws|);
    assert ws[..|ws|] == ws;
  }

  /** No id belongs to two layers. */
  lemma LayersDisjoint(ws: seq<nat>, a: int, b: int, x: int)
    ensures InLayer(ws, a, x) && InLayer(ws, b, x) ==> a == b
  {
    if InLayer(ws, a, x) && InLayer(ws, b, x) {
      if a < b {
        PrefixSumStep(ws, a);
        PrefixSumMono(ws, a + 1, b);
      } else if b < a {
        PrefixSumStep(ws, b);
        PrefixSumMono(ws, b + 1, a);
      }
    }
  }

  /** Every id in 1 .. Sum(ws) belongs to some layer. */
  lemma {:induction false} LayerOf(ws: seq<nat>, x: int) returns (l: nat)
    requires 0 < x <= Sum(ws)
    ensures InLayer(ws, l, x)
    decreases |ws|
  {
    var n := |ws| - 1;
    var init := ws[..n];
    if x > Sum(init) {
      l := n;
    } else {
      l := LayerOf(init, x);
      assert init[..l] == ws[..l];
    }
  }

  lemma LayerNonEmpty(nodes: seq<Node>, edges: seq<Edge>, ws: seq<nat>, l: nat)
    requires Layered(nodes, edges, ws) && l < |ws|
    ensures InLayer(ws, l, Start(ws, l) + 1)
  {
  }

  /** An id of layer l is a node id. */
  lemma LayerIdIsNode(nodes: seq<Node>, edges: seq<Edge>, ws: seq<nat>, l: nat, x: int)
    requires Layered(nodes, edges, ws) && InLayer(ws, l, x)
    ensures x in NodeIdSet(nodes)
  {
    LayerInside(ws, l);
  }

  /** On the layered shape, every node of a later layer is some edge's dst. */
  lemma LaterLayerIsDst(nodes: seq<Node>, edges: seq<Edge>, ws: seq<nat>, l: int, x: int)
    requires Layered(nodes, edges, ws)
    ensures l > 0 && InLayer(ws, l, x) ==> x in Dsts(edges)
  {
    if l > 0 && InLayer(ws, l, x) {
      LayerNonEmpty(nodes, edges, ws, l - 1);
      assert Adjacent(ws, l - 1, Start(ws, l - 1) + 1, x);
      var e :| e in edges && e.src == Start(ws, l - 1) + 1 && e.dst == x;
      assert x in Dsts(edges);
    }
  }

  /** On the layered shape, no node of layer 0 is an edge's dst. */
  lemma FirstLayerNotDst(nodes: seq<Node>, edges: seq<Edge>, ws: seq<nat>, x: int)
    requires Layered(nodes, edges, ws)
    ensures InLayer(ws, 0, x) ==> x !in Dsts(edges)
  {
    forall e | e in edges ensures !InLayer(ws, 0, e.dst) {
      var l :| Adjacent(ws, l, e.src, e.dst);
      LayersDisjoint(ws, 0, l + 1, e.dst);
    }
  }

  /** On the layered shape, the nodes that are no edge's dst are exactly layer 0. */
  lemma LayeredInputs(nodes: seq<Node>, edges: seq<Edge>, ws: seq<nat>, x: int)
    requires Layered(nodes, edges, ws)
    ensures x in InputIds(nodes, edges) <==> InLayer(ws, 0, x)
  {
    FirstLayerNotDst(nodes, edges, ws, x);
    if x in InputIds(nodes, edges) {
      assert x in NodeIdSet(nodes);
      var l := LayerOf(ws, x);
      LaterLayerIsDst(nodes, edges, ws, l, x);
    }
    if InLayer(ws, 0, x) {
      LayerIdIsNode(nodes, edges, ws, 0, x);
    }
  }

  /** On the layered shape, one round of the recursion moves from layer k-1 to layer k. */
  lemma LayeredStep(nodes: seq<Node>, edges: seq<Edge>, ws: seq<nat>, k: nat, prev: set<int>, x: int)
    requires Layered(nodes, edges, ws) && k > 0
    requires forall y :: y in prev <==> InLayer(ws, k - 1, y)
    ensures x in Step(nodes, edges, prev) <==> InLayer(ws, k, x)
  {
    if x in Step(nodes, edges, prev) {
      var n, e :| n in nodes && e in edges && e.src in prev && e.dst == n.id && n.id == x;
      var l :| Adjacent(ws, l, e.src, e.dst);
      LayersDisjoint(ws, l, k - 1, e.src);
    }
    if InLayer(ws, k, x) {
      LayerNonEmpty(nodes, edges, ws, k - 1);
      var a := Start(ws, k - 1) + 1;
      assert Adjacent(ws, k - 1, a, x);
      var e :| e in edges && e.src == a && e.dst == x;
      LayerIdIsNode(nodes, edges, ws, k, x);
      var n :| n in nodes && n.id == x;
      assert x in Step(nodes, edges, prev);
    }
  }

  /** On the layered shape, round k of the recursion tags exactly layer k, and no round after the last layer tags anything. */
  lemma {:induction false} LayeredLayerSet(nodes: seq<Node>, edges: seq<Edge>, ws: seq<nat>, k: nat)
    requires Layered(nodes, edges, ws)
    ensures forall x :: x in LayerSet(nodes, edges, k) <==> InLayer(ws, k, x)
    decreases k
  {
    if k == 0 {
      forall x ensures x in InputIds(nodes, edges) <==> InLayer(ws, 0, x) {
        LayeredInputs(nodes, edges, ws, x);
      }
    } else {
      LayeredLayerSet(nodes, edges, ws, k - 1);
      var prev := LayerSet(nodes, edges, k - 1);
      forall x ensures x in Step(nodes, edges, prev) <==> InLayer(ws, k, x) {
        LayeredStep(nodes, edges, ws, k, prev, x);
      }
    }
  }

  /** The rows `query_layers_single` should give for layers k.. of widths ws. */
  function ExpectedCounts(ws: seq<nat>, k: nat): seq<LayerCount>
    requires k <= |ws|
    decreases |ws| - k
  {
    if k == |ws| then [] else [LayerCount(k, ws[k])] + ExpectedCounts(ws, k + 1)
  }

  lemma {:induction false} ExpectedCountsAt(ws: seq<nat>, k: nat)
    requires k <= |ws|
    ensures |ExpectedCounts(ws, k)| == |ws| - k
    ensures forall i | 0 <= i < |ws| - k :: ExpectedCounts(ws, k)[i] == LayerCount(k + i, ws[k + i])
    decreases |ws| - k
  {
    if k < |ws| {
      var tail := ExpectedCounts(ws, k + 1);
      ExpectedCountsAt(ws, k + 1);
      assert ExpectedCounts(ws, k) == [LayerCount(k, ws[k])] + tail;
      forall i | 0 <= i < |ws| - k ensures ExpectedCounts(ws, k)[i] == LayerCount(k + i, ws[k + i]) {
        if i > 0 {
          assert ExpectedCounts(ws, k)[i] == tail[i - 1];
        }
      }
    }
  }

  /** Layer k of the layered shape, as the recursion tags it: its ids, or none past the last layer. */
  lemma LayeredLayerSetIs(nodes: seq<Node>, edges: seq<Edge>, ws: seq<nat>, k: nat)
    requires Layered(nodes, edges, ws)
    ensures LayerSet(nodes, edges, k) == if k < |ws| then Interval(Start(ws, k), ws[k]) else {}
  {
    LayeredLayerSet(nodes, edges, ws, k);
  }

  /**
    Each row of rounds k .. k+fuel-1 names a layer among them that holds
    nodes and counts exactly that layer's nodes.
  */
  predicate CountsExact(rows: seq<LayerCount>, nodes: seq<Node>, edges: seq<Edge>, k: nat, fuel: nat)
  {
    forall i | 0 <= i < |rows| ::
      k <= rows[i].layer < k + fuel && 0 < rows[i].numberOfNodes == |LayerSet(nodes, edges, rows[i].layer)|
  }

  /** The rows come in strictly ascending layer order. */
  predicate LayersAscend(rows: seq<LayerCount>)
  {
    forall i, j | 0 <= i < j < |rows| :: rows[i].layer < rows[j].layer
  }

  /** The GROUP BY layer ORDER BY layer shape of the layer rows. */
  lemma {:induction false} LayerRowsShape(nodes: seq<Node>, edges: seq<Edge>, k: nat, fuel: nat)
    ensures CountsExact(LayerRows(nodes, edges, k, fuel), nodes, edges, k, fuel)
    ensures LayersAscend(LayerRows(nodes, edges, k, fuel))
    decreases fuel
  {
    if fuel > 0 {
      var here := LayerSet(nodes, edges, k);
      var tail := LayerRows(nodes, edges, k + 1, fuel - 1);
      LayerRowsShape(nodes, edges, k + 1, fuel - 1);
      assert LayerRows(nodes, edges, k, fuel) == (if here == {} then [] else [LayerCount(k, |here|)]) + tail by {
        LayerRowsUnfold(nodes, edges, k, fuel, here);
      }
      if here == {} {
        assert [] + tail == tail;
        CountsWiden(tail, nodes, edges, k, fuel);
      } else {
        CountsCons(LayerCount(k, |here|), tail, nodes, edges, k, fuel);
        AscendCons(LayerCount(k, |here|), tail);
      }
    }
  }

  lemma CountsWiden(tail: seq<LayerCount>, nodes: seq<Node>, edges: seq<Edge>, k: nat, fuel: nat)
    requires fuel > 0 && CountsExact(tail, nodes, edges, k + 1, fuel - 1)
    ensures CountsExact(tail, nodes, edges, k, fuel)
    ensures forall i | 0 <= i < |tail| :: k < tail[i].layer
  {
  }

  lemma CountsCons(row: LayerCount, tail: seq<LayerCount>, nodes: seq<Node>, edges: seq<Edge>, k: nat, fuel: nat)
    requires fuel > 0 && CountsExact(tail, nodes, edges, k + 1, fuel - 1)
    requires row.layer == k && 0 < row.numberOfNodes == |LayerSet(nodes, edges, k)|
    ensures CountsExact([row] + tail, nodes, edges, k, fuel)
    ensures forall i | 0 <= i < |tail| :: row.layer < tail[i].layer
  {
    var rows := [row] + tail;
    forall i | 0 <= i < |rows|
      ensures k <= rows[i].layer < k + fuel && 0 < rows[i].numberOfNodes == |LayerSet(nodes, edges, rows[i].layer)|
    {
      if i > 0 { assert rows[i] == tail[i - 1]; }
    }
  }

  lemma AscendCons(row: LayerCount, tail: seq<LayerCount>)
    requires LayersAscend(tail) && forall i | 0 <= i < |tail| :: row.layer < tail[i].layer
    ensures LayersAscend([row] + tail)
  {
    var rows := [row] + tail;
    forall i, j | 0 <= i < j < |rows|
      ensures rows[i].layer < rows[j].layer
    {
      assert rows[j] == tail[j - 1];
      if i > 0 { assert rows[i] == tail[i - 1]; }
    }
  }

  /** One round of the row output: a non-empty layer adds its row, an empty one adds none. */
  lemma LayerRowsUnfold(nodes: seq<Node>, edges: seq<Edge>, k: nat, fuel: nat, here: set<int>)
    requires fuel > 0 && here == LayerSet(nodes, edges, k)
    ensures LayerRows(nodes, edges, k, fuel)
      == (if here == {} then [] else [LayerCount(k, |here|)]) + LayerRows(nodes, edges, k + 1, fuel - 1)
  {
  }

  lemma {:induction false} LayeredRows(nodes: seq<Node>, edges: seq<Edge>, ws: seq<nat>, k: nat, fuel: nat)
    requires Layered(nodes, edges, ws) && k <= |ws| <= k + fuel
    ensures LayerRows(nodes, edges, k, fuel) == ExpectedCounts(ws, k)
    decreases fuel
  {
    if k == |ws| {
      LayerRowsEmptyTail(nodes, edges, ws, k, fuel);
    } else {
      var here := Interval(Start(ws, k), ws[k]);
      LayeredLayerSetIs(nodes, edges, ws, k);
      LayerRowsUnfold(nodes, edges, k, fuel, here);
      assert here != {} by {
        assert Start(ws, k) + 1 in here;
      }
      LayeredRows(nodes, edges, ws, k + 1, fuel - 1);
    }
  }

  /** Past the last layer, the recursion tags nothing. */
  lemma {:induction false} LayerRowsEmptyTail(nodes: seq<Node>, edges: seq<Edge>, ws: seq<nat>, k: nat, fuel: nat)
    requires Layered(nodes, edges, ws) && k >= |ws|
    ensures LayerRows(nodes, edges, k, fuel) == []
    decreases fuel
  {
    if fuel > 0 {
      LayeredLayerSetIs(nodes, edges, ws, k);
      LayerRowsUnfold(nodes, edges, k, fuel, {});
      LayerRowsEmptyTail(nodes, edges, ws, k + 1, fuel - 1);
    }
  }

  /**
    On the layered shape, `query_layers_single` returns one row per layer,
    in ascending order, counting exactly that layer's width.
  */
  lemma LayeredLayersQuery(nodes: seq<Node>, edges: seq<Edge>, ws: seq<nat>)
    requires Layered(nodes, edges, ws)
    ensures |LayersQuery(nodes, edges)| == |ws|
    ensures forall k | 0 <= k < |ws| :: LayersQuery(nodes, edges)[k] == LayerCount(k, ws[k])
  {
    IdSetCard(nodes);
    SumAtLeastLength(ws);
    LayeredRows(nodes, edges, ws, 0, |nodes|);
    ExpectedCountsAt(ws, 0);
  }

  /** On the layered shape, the input nodes are exactly layer 0. */
  lemma LayeredInputIds(nodes: seq<Node>, edges: seq<Edge>, ws: seq<nat>)
    requires Layered(nodes, edges, ws)
    ensures InputIds(nodes, edges) == Interval(0, ws[0])
  {
    assert ws[..0] == [];
    forall x ensures x in InputIds(nodes, edges) <==> 0 < x <= ws[0] {
      LayeredInputs(nodes, edges, ws, x);
    }
  }

  /** On the layered shape, every node of a layer before the last is some edge's src. */
  lemma EarlierLayerIsSrc(nodes: seq<Node>, edges: seq<Edge>, ws: seq<nat>, l: int, x: int)
    requires Layered(nodes, edges, ws)
    ensures l + 1 < |ws| && InLayer(ws, l, x) ==> x in Srcs(edges)
  {
    if l + 1 < |ws| && InLayer(ws, l, x) {
      LayerNonEmpty(nodes, edges, ws, l + 1);
      assert Adjacent(ws, l, x, Start(ws, l + 1) + 1);
      var e :| e in edges && e.src == x && e.dst == Start(ws, l + 1) + 1;
      assert x in Srcs(edges);
    }
  }

  /** On the layered shape, no node of the last layer is an edge's src. */
  lemma LastLayerNotSrc(nodes: seq<Node>, edges: seq<Edge>, ws: seq<nat>, x: int)
    requires Layered(nodes, edges, ws)
    ensures InLayer(ws, |ws| - 1, x) ==> x !in Srcs(edges)
  {
    forall e | e in edges ensures !InLayer(ws, |ws| - 1, e.src) {
      var l :| Adjacent(ws, l, e.src, e.dst);
      LayersDisjoint(ws, |ws| - 1, l, e.src);
    }
  }

  /** On the layered shape, the output nodes (no edge's src) are exactly the last layer. */
  lemma LayeredOutputIds(nodes: seq<Node>, edges: seq<Edge>, ws: seq<nat>)
    requires Layered(nodes, edges, ws)
    ensures OutputIds(nodes, edges) == Interval(Start(ws, |ws| - 1), ws[|ws| - 1])
  {
    var last := |ws| - 1;
    forall x ensures x in OutputIds(nodes, edges) <==> InLayer(ws, last, x) {
      LastLayerNotSrc(nodes, edges, ws, x);
      if x in OutputIds(nodes, edges) {
        assert x in NodeIdSet(nodes);
        var l := LayerOf(ws, x);
        EarlierLayerIsSrc(nodes, edges, ws, l, x);
      }
      if InLayer(ws, last, x) {
        LayerIdIsNode(nodes, edges, ws, last, x);
      }
    }
  }

  /** The non-input nodes of the layered shape: every id past layer 0. */
  lemma LayeredNonInputs(nodes: seq<Node>, edges: seq<Edge>, ws: seq<nat>)
    requires Layered(nodes, edges, ws)
    ensures ws[0] <= Sum(ws)
    ensures NodeIdSet(nodes) - InputIds(nodes, edges) == Interval(ws[0], Sum(ws) - ws[0])
  {
    assert ws[0] <= Sum(ws) by {
      LayerInside(ws, 0);
      assert ws[..0] == [];
    }
    assert InputIds(nodes, edges) == Interval(0, ws[0]) by {
      LayeredInputIds(nodes, edges, ws);
    }
    assert NodeIdSet(nodes) == Interval(0, Sum(ws));
    IntervalDifference(0, ws[0], Sum(ws) - ws[0]);
  }

  /** Removing the first a ids of an interval leaves the rest. */
  lemma IntervalDifference(lo: int, a: nat, b: nat)
    ensures Interval(lo, a + b) - Interval(lo, a) == Interval(lo + a, b)
  {
  }

  /**
    On the layered shape, `query_parameters_single` counts one bias per unit
    past the input layer and one weight per edge.
  */
  lemma LayeredParameterCount(nodes: seq<Node>, edges: seq<Edge>, ws: seq<nat>)
    requires Layered(nodes, edges, ws)
    ensures ws[0] <= Sum(ws)
    ensures ParameterCount(nodes, edges) == Sum(ws) - ws[0] + |edges|
  {
    LayeredNonInputs(nodes, edges, ws);
  }

  /** On the layered shape, the hidden-node count is the total minus the first and last layer widths. */
  lemma LayeredHiddenCount(nodes: seq<Node>, edges: seq<Edge>, ws: seq<nat>)
    requires Layered(nodes, edges, ws)
    ensures HiddenCount(nodes, edges) == Sum(ws) - ws[0] - ws[|ws| - 1]
  {
    LayeredInputIds(nodes, edges, ws);
    LayeredOutputIds(nodes, edges, ws);
  }

  // ---------------------------------------------------------------------------
  // The encoders' output has the layered shape
  // ---------------------------------------------------------------------------

  /** Every layer of the state dict has at least one unit. */
  predicate NoEmptyLayer(sd: StateDict)
    requires HasInputWidth(sd)
  {
    forall l | 0 <= l < |Widths(sd)| :: Widths(sd)[l] > 0
  }

  lemma {:induction false} NodeIdSetOfRows(rows: seq<Node>)
    requires forall p | 0 <= p < |rows| :: rows[p].id == p + 1
    ensures NodeIdSet(rows) == Interval(0, |rows|)
  {
    forall x ensures x in NodeIdSet(rows) <==> 0 < x <= |rows| {
      if 0 < x <= |rows| {
        assert rows[x - 1] in rows;
      }
    }
  }

  /** An encoded edge joins layer k to layer k+1. */
  lemma EncodedEdgeAdjacent(sd: StateDict, e: Edge)
    requires WellFormed(sd) && e in EdgesOf(sd)
    ensures exists l :: Adjacent(Widths(sd), l, e.src, e.dst)
  {
    var ws := Widths(sd);
    EdgesOfMember(sd, e);
    var k, f, t :| IsBoundaryEdge(WeightParams(sd), NodeIds(sd), k, f, t, e);
    LayerIdsSpan(ws, k, f);
    LayerIdsSpan(ws, k + 1, t);
    assert Adjacent(ws, k, e.src, e.dst);
  }

  /** The weight tensor between layers l and l+1 is shaped [width l+1, width l]. */
  lemma WeightShapeAt(sd: StateDict, l: nat)
    requires WellFormed(sd) && l + 1 < |Widths(sd)|
    ensures l < |WeightParams(sd)|
    ensures ShapeIs(WeightParams(sd)[l].values, Widths(sd)[l + 1], Widths(sd)[l])
  {
  }

  /** Unit f of layer l and unit t of layer l+1 are joined by an encoded edge carrying `weight_tensor[t][f]`. */
  lemma EncodedEdgeAt(sd: StateDict, l: nat, f: nat, t: nat)
    requires WellFormed(sd) && l + 1 < |Widths(sd)| && f < Widths(sd)[l] && t < Widths(sd)[l + 1]
    ensures l < |WeightParams(sd)|
    ensures WeightParams(sd)[l].values.Matrix?
    ensures t < |WeightParams(sd)[l].values.rows| && f < |WeightParams(sd)[l].values.rows[t]|
    ensures Edge(NodeIds(sd)[l][f], NodeIds(sd)[l + 1][t], WeightAt(WeightParams(sd)[l], t, f)) in EdgesOf(sd)
  {
    WeightShapeAt(sd, l);
    var wp := WeightParams(sd);
    var w := wp[l].values.rows;
    assert t < |w| && f < |w[t]|;
    var e := Edge(NodeIds(sd)[l][f], NodeIds(sd)[l + 1][t], WeightAt(wp[l], t, f));
    assert IsBoundaryEdge(wp, NodeIds(sd), l, f, t, e);
    EdgesOfMember(sd, e);
  }

  /** A pair of units of consecutive layers is joined by an encoded edge. */
  lemma EncodedPairJoined(sd: StateDict, l: int, a: int, b: int)
    requires WellFormed(sd) && Adjacent(Widths(sd), l, a, b)
    ensures exists e | e in EdgesOf(sd) :: e.src == a && e.dst == b
  {
    var ws := Widths(sd);
    var f, t := a - Start(ws, l) - 1, b - Start(ws, l + 1) - 1;
    LayerIdsSpan(ws, l, f);
    LayerIdsSpan(ws, l + 1, t);
    EncodedEdgeAt(sd, l, f, t);
  }

  /** An encoded edge leaving unit f of layer l goes to some unit t of layer l+1 and carries `weight_tensor[t][f]`. */
  lemma EncodedEdgeFrom(sd: StateDict, e: Edge, l: nat, f: nat)
    requires WellFormed(sd) && e in EdgesOf(sd) && l < |Widths(sd)| && f < Widths(sd)[l]
    requires e.src == NodeIds(sd)[l][f]
    ensures l < |WeightParams(sd)| && WeightParams(sd)[l].values.Matrix?
    ensures exists t | 0 <= t < Widths(sd)[l + 1] ::
      t < |WeightParams(sd)[l].values.rows| && f < |WeightParams(sd)[l].values.rows[t]|
      && e.weight == WeightAt(WeightParams(sd)[l], t, f)
  {
    var ws, wp := Widths(sd), WeightParams(sd);
    EdgesOfMember(sd, e);
    var k, f', t :| IsBoundaryEdge(wp, LayerIds(ws), k, f', t, e);
    SameUnit(ws, k, f', l, f);
    assert 0 <= t < ws[l + 1] && t < |wp[l].values.rows| && f < |wp[l].values.rows[t]|;
  }

  /** One id names one unit: the same id in two layers is the same unit of the same layer. */
  lemma SameUnit(ws: seq<nat>, k: nat, f': nat, l: nat, f: nat)
    requires k < |ws| && f' < ws[k] && l < |ws| && f < ws[l]
    requires LayerIds(ws)[k][f'] == LayerIds(ws)[l][f]
    ensures k == l && f' == f
  {
    var x := LayerIds(ws)[l][f];
    LayerIdsSpan(ws, k, f');
    LayerIdsSpan(ws, l, f);
    LayersDisjoint(ws, k, l, x);
    assert InLayer(ws, k, x) && InLayer(ws, l, x);
  }

  /** What the loaders store for a state dict without empty layers has the layered shape of its widths. */
  lemma EncoderLayered(sd: StateDict)
    requires WellFormed(sd) && NoEmptyLayer(sd)
    ensures Layered(NodeRows(sd), EdgesOf(sd), Widths(sd))
  {
    var ws := Widths(sd);
    NodeRowIds(sd);
    NodeIdSetOfRows(NodeRows(sd));
    forall e | e in EdgesOf(sd) ensures exists l :: Adjacent(ws, l, e.src, e.dst) {
      EncodedEdgeAdjacent(sd, e);
    }
    forall l, a, b | Adjacent(ws, l, a, b) ensures exists e | e in EdgesOf(sd) :: e.src == a && e.dst == b {
      EncodedPairJoined(sd, l, a, b);
    }
  }

  /** `query_layers_single` on what the loaders store: one row per layer, counting its width. */
  lemma EncoderLayerCounts(sd: StateDict)
    requires WellFormed(sd) && NoEmptyLayer(sd)
    ensures |LayersQuery(NodeRows(sd), EdgesOf(sd))| == |Widths(sd)|
    ensures forall k | 0 <= k < |Widths(sd)| :: LayersQuery(NodeRows(sd), EdgesOf(sd))[k] == LayerCount(k, Widths(sd)[k])
  {
    EncoderLayered(sd);
    LayeredLayersQuery(NodeRows(sd), EdgesOf(sd), Widths(sd));
  }

  /**
    `query_parameters_single` on what the loaders store equals the network's
    learnable parameters: every bias entry plus every weight entry.
  */
  lemma EncoderParameterCount(sd: StateDict)
    requires WellFormed(sd) && NoEmptyLayer(sd)
    ensures ParameterCount(NodeRows(sd), EdgesOf(sd))
         == Sum(LayerWidths(BiasParams(sd))) + Products(Widths(sd), |Widths(sd)| - 1)
  {
    EncoderLayered(sd);
    LayeredParameterCount(NodeRows(sd), EdgesOf(sd), Widths(sd));
    SumPrepend(InputWidth(sd), LayerWidths(BiasParams(sd)));
  }

  /** The hidden-node count on what the loaders store: every unit outside the first and last layers. */
  lemma EncoderHiddenCount(sd: StateDict)
    requires WellFormed(sd) && NoEmptyLayer(sd)
    ensures HiddenCount(NodeRows(sd), EdgesOf(sd)) == Sum(Widths(sd)) - Widths(sd)[0] - Widths(sd)[|Widths(sd)| - 1]
  {
    EncoderLayered(sd);
    LayeredHiddenCount(NodeRows(sd), EdgesOf(sd), Widths(sd));
  }

  /**
    The pruning candidates among what the loaders store: unit f of a layer
    l before the last is a candidate exactly when every entry in column f of
    the weight tensor leaving layer l is within the threshold. Layer 0 is
    included, so input units can be candidates.
  */
  lemma EncoderPrunable(sd: StateDict, threshold: real, l: nat, f: nat)
    requires WellFormed(sd) && NoEmptyLayer(sd) && l + 1 < |Widths(sd)| && f < Widths(sd)[l]
    ensures l < |WeightParams(sd)| && ShapeIs(WeightParams(sd)[l].values, Widths(sd)[l + 1], Widths(sd)[l])
    ensures NodeIds(sd)[l][f] in PrunableSrcs(EdgesOf(sd), threshold) <==>
      forall t | 0 <= t < Widths(sd)[l + 1] :: Abs(WeightAt(WeightParams(sd)[l], t, f)) <= threshold
  {
    var ws, edges, x := Widths(sd), EdgesOf(sd), NodeIds(sd)[l][f];
    WeightShapeAt(sd, l);
    PrunableIff(edges, threshold, x);
    EncodedEdgeAt(sd, l, f, 0);
    assert x in Srcs(edges);
    if forall t | 0 <= t < ws[l + 1] :: Abs(WeightAt(WeightParams(sd)[l], t, f)) <= threshold {
      forall e | e in edges && e.src == x ensures Abs(e.weight) <= threshold {
        EncodedEdgeFrom(sd, e, l, f);
      }
    } else {
      var t :| 0 <= t < ws[l + 1] && Abs(WeightAt(WeightParams(sd)[l], t, f)) > threshold;
      EncodedEdgeAt(sd, l, f, t);
    }
  }

  /** Units of the last layer are never pruning candidates: they have no outgoing edge. */
  lemma EncoderLastLayerNotPrunable(sd: StateDict, threshold: real, f: nat)
    requires WellFormed(sd) && f < Widths(sd)[|Widths(sd)| - 1]
    ensures NodeIds(sd)[|Widths(sd)| - 1][f] !in PrunableSrcs(EdgesOf(sd), threshold)
  {
    var ws, edges := Widths(sd), EdgesOf(sd);
    var last := |ws| - 1;
    var x := NodeIds(sd)[last][f];
    LayerIdsSpan(ws, last, f);
    PrunableIff(edges, threshold, x);
    forall e | e in edges ensures e.src != x {
      EdgeEndpoints(sd, e);
    }
  }
}
