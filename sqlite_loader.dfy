/**
  The SQLite loader: the same two passes as the DuckDB loader, but every
  row is a separate INSERT, node ids come from the `AUTOINCREMENT` primary
  key (`RETURNING (id)`), and the inserts are made durable by one commit at
  the end.

  `SqliteDb` holds the connection's working tables, the AUTOINCREMENT
  counter of `node` (its `sqlite_sequence` entry), and the committed tables
  another connection would read.
*/
module SqliteLoader {
  import opened Common
  import opened Encoding

  class SqliteDb {
    var node: seq<Node>
    var edge: seq<Edge>
    /** The largest id AUTOINCREMENT has handed out for `node`; 0 when the table is new. */
    var nodeSeq: nat
    /** An implicit transaction is open (DML statements open one; commit closes it). */
    var pending: bool
    var committedNode: seq<Node>
    var committedEdge: seq<Edge>

    /** AUTOINCREMENT never hands out an id at or below one already used. */
    predicate Valid()
      reads this
    {
      forall i | 0 <= i < |node| :: node[i].id <= nodeSeq
    }

    /** `sqlite3.connect(...)` on a database file holding the given committed tables. */
    constructor (nodes: seq<Node>, edges: seq<Edge>, seqValue: nat)
      requires forall i | 0 <= i < |nodes| :: nodes[i].id <= seqValue
      ensures Valid() && !pending
      ensures node == nodes && edge == edges && nodeSeq == seqValue
      ensures committedNode == nodes && committedEdge == edges
    {
      node, edge, nodeSeq := nodes, edges, seqValue;
      committedNode, committedEdge := nodes, edges;
      pending := false;
    }

    /**
      `DROP TABLE IF EXISTS edge / node` and the two `CREATE TABLE`s.
      Dropping `node` removes its `sqlite_sequence` entry, so ids restart at
      1. Outside a transaction the statements take effect at once; inside
      one they wait for its commit.
    */
    method RecreateTables()
      modifies this
      ensures Valid()
      ensures node == [] && edge == [] && nodeSeq == 0 && pending == old(pending)
      ensures committedNode == (if pending then old(committedNode) else [])
      ensures committedEdge == (if pending then old(committedEdge) else [])
    {
      edge := [];
      node := [];
      nodeSeq := 0;
      if !pending {
        committedNode, committedEdge := [], [];
      }
    }

    /**
      `INSERT INTO node (bias, name) VALUES (...) RETURNING (id)`: the new
      row gets one more than the largest id ever used in the table, which
      `nodeSeq` records and `Valid` keeps at or above every id present.
    */
    method InsertNode(bias: real, name: string) returns (id: int)
      requires Valid()
      modifies this
      ensures Valid() && pending
      ensures id == old(nodeSeq) + 1 && nodeSeq == id
      ensures node == old(node) + [Node(id, bias, name)] && edge == old(edge)
      ensures committedNode == old(committedNode) && committedEdge == old(committedEdge)
    {
      id := nodeSeq + 1;
      node := node + [Node(id, bias, name)];
      nodeSeq := id;
      pending := true;
    }

    /**
      `INSERT INTO edge (src, dst, weight) VALUES (...)`. Foreign keys are
      declared but SQLite does not enforce them unless asked to, so any ids
      are accepted.
    */
    method InsertEdge(src: int, dst: int, weight: real)
      modifies this
      ensures pending
      ensures edge == old(edge) + [Edge(src, dst, weight)]
      ensures node == old(node) && nodeSeq == old(nodeSeq)
      ensures committedNode == old(committedNode) && committedEdge == old(committedEdge)
    {
      edge := edge + [Edge(src, dst, weight)];
      pending := true;
    }

    /** `con.commit()`: the working tables become the committed ones. */
    method Commit()
      modifies this
      ensures !pending && committedNode == node && committedEdge == edge
      ensures node == old(node) && edge == old(edge) && nodeSeq == old(nodeSeq)
    {
      committedNode, committedEdge := node, edge;
      pending := false;
    }

    /**
      `load_pytorch_model_into_db`: recreate the tables, insert the input
      nodes and every bias layer, then every weight tensor's edges, and
      commit. The committed tables then hold this state dict's encoding, the
      same rows the DuckDB loader produces.
    */
    method LoadPytorchModel(sd: StateDict)
      requires WellFormed(sd)
      modifies this
      ensures Valid() && !pending
      ensures node == NodeRows(sd) && edge == EdgesOf(sd)
      ensures committedNode == node && committedEdge == edge
      ensures nodeSeq == |node|
    {
      RecreateTables();
      var inputWeights := sd[0].values.rows;
      var numInputNodes := |inputWeights[0]|;
      var inputIds := InsertInputNodes(numInputNodes);
      var nodeIds := InsertBiasLayers(sd, numInputNodes, inputIds);
      NodeIdsFit(sd);
      InsertEdges(sd, nodeIds);
      Commit();
    }

    /** The first loop: one node `input.<i>` with bias 0 per input feature. */
    method InsertInputNodes(n: nat) returns (ids: seq<int>)
      requires Valid() && node == [] && nodeSeq == 0
      modifies this
      ensures Valid()
      ensures node == InputNodeRows(n) && ids == IdRange(0, n) && nodeSeq == n
      ensures edge == old(edge)
      ensures pending == (old(pending) || n > 0)
      ensures committedNode == old(committedNode) && committedEdge == old(committedEdge)
    {
      ids := [];
      for i := 0 to n
        invariant Valid()
        invariant node == InputNodeRows(i) && ids == IdRange(0, i) && nodeSeq == i
        invariant edge == old(edge)
        invariant pending == (old(pending) || i > 0)
        invariant committedNode == old(committedNode) && committedEdge == old(committedEdge)
      {
        var insertedId := InsertNode(0.0, Label("input", i));
        ids := ids + [insertedId];
      }
    }

    /**
      The second loop: every parameter whose name contains "bias" adds a
      layer, one node per entry, and the returned ids are collected per layer.
    */
    method InsertBiasLayers(sd: StateDict, w0: nat, inputIds: seq<int>) returns (nodeIds: seq<seq<int>>)
      requires Valid() && AllVectors(BiasParams(sd)) && inputIds == IdRange(0, w0)
      requires node == InputNodeRows(w0) && nodeSeq == w0
      modifies this
      ensures Valid()
      ensures node == InputNodeRows(w0) + HiddenNodeRows(BiasParams(sd), w0)
      ensures nodeIds == LayerIds([w0] + LayerWidths(BiasParams(sd)))
      ensures nodeSeq == w0 + Sum(LayerWidths(BiasParams(sd)))
      ensures edge == old(edge)
      ensures pending == (old(pending) || nodeSeq > old(nodeSeq))
      ensures committedNode == old(committedNode) && committedEdge == old(committedEdge)
    {
      nodeIds := [inputIds];
      assert LayerIds([w0]) == [IdRange(0, w0)] by {
        assert [w0][..0] == [];
      }
      assert sd[..0] == [];
      ghost var inputRows := node;
      var layer := 0;
      for k := 0 to |sd|
        invariant Valid()
        invariant AllVectors(BiasParams(sd[..k]))
        invariant layer == |BiasParams(sd[..k])|
        invariant nodeSeq == w0 + Sum(LayerWidths(BiasParams(sd[..k])))
        invariant node == inputRows + HiddenNodeRows(BiasParams(sd[..k]), w0)
        invariant nodeIds == LayerIds([w0] + LayerWidths(BiasParams(sd[..k])))
        invariant edge == old(edge)
        invariant pending == (old(pending) || nodeSeq > old(nodeSeq))
        invariant committedNode == old(committedNode) && committedEdge == old(committedEdge)
      {
        nodeIds, layer := BiasLoopPass(sd, k, w0, inputRows, nodeIds, layer);
      }
      assert sd[..|sd|] == sd;
    }

    /** One pass of the bias loop: a bias item adds its layer, any other item is skipped. */
    method BiasLoopPass(sd: StateDict, k: nat, w0: nat, ghost inputRows: seq<Node>, nodeIds: seq<seq<int>>, layer: nat)
        returns (nodeIds': seq<seq<int>>, layer': nat)
      requires k < |sd| && Valid() && AllVectors(BiasParams(sd)) && AllVectors(BiasParams(sd[..k]))
      requires layer == |BiasParams(sd[..k])|
      requires nodeSeq == w0 + Sum(LayerWidths(BiasParams(sd[..k])))
      requires node == inputRows + HiddenNodeRows(BiasParams(sd[..k]), w0)
      requires nodeIds == LayerIds([w0] + LayerWidths(BiasParams(sd[..k])))
      modifies this
      ensures Valid() && AllVectors(BiasParams(sd[..k + 1])) && layer' == |BiasParams(sd[..k + 1])|
      ensures nodeSeq == w0 + Sum(LayerWidths(BiasParams(sd[..k + 1])))
      ensures node == inputRows + HiddenNodeRows(BiasParams(sd[..k + 1]), w0)
      ensures nodeIds' == LayerIds([w0] + LayerWidths(BiasParams(sd[..k + 1])))
      ensures edge == old(edge) && nodeSeq >= old(nodeSeq)
      ensures pending == (old(pending) || nodeSeq > old(nodeSeq))
      ensures committedNode == old(committedNode) && committedEdge == old(committedEdge)
    {
      if IsBias(sd[k]) {
        BiasStep(sd, k);
        nodeIds' := AppendBiasLayer(sd[k], BiasParams(sd[..k]), w0, inputRows, nodeIds);
        layer' := layer + 1;
      } else {
        NonBiasStep(sd, k);
        nodeIds', layer' := nodeIds, layer;
      }
    }

    /** One pass of the bias loop: the layer's nodes follow those of the bias tensors before it. */
    method AppendBiasLayer(p: Param, ghost bs: seq<Param>, w0: nat, ghost inputRows: seq<Node>, nodeIds: seq<seq<int>>)
        returns (nodeIds': seq<seq<int>>)
      requires Valid() && AllVectors(bs) && p.values.Vector?
      requires nodeSeq == w0 + Sum(LayerWidths(bs))
      requires node == inputRows + HiddenNodeRows(bs, w0)
      requires nodeIds == LayerIds([w0] + LayerWidths(bs))
      modifies this
      ensures Valid() && AllVectors(bs + [p])
      ensures nodeSeq == w0 + Sum(LayerWidths(bs + [p]))
      ensures node == inputRows + HiddenNodeRows(bs + [p], w0)
      ensures nodeIds' == LayerIds([w0] + LayerWidths(bs + [p]))
      ensures edge == old(edge) && nodeSeq >= old(nodeSeq)
      ensures pending == (old(pending) || nodeSeq > old(nodeSeq))
      ensures committedNode == old(committedNode) && committedEdge == old(committedEdge)
    {
      ghost var id0 := nodeSeq;
      BiasLayerAppend(bs, p, w0, id0);
      var layerIds := InsertBiasLayer(p);
      assert node == inputRows + (HiddenNodeRows(bs, w0) + BiasLayerRows(p, id0));
      nodeIds' := nodeIds + [layerIds];
    }

    /** The inner loop for one bias tensor: node `<name>.<i>` carrying entry i. */
    method InsertBiasLayer(p: Param) returns (ids: seq<int>)
      requires Valid() && p.values.Vector?
      modifies this
      ensures Valid()
      ensures node == old(node) + BiasLayerRows(p, old(nodeSeq))
      ensures ids == IdRange(old(nodeSeq), |p.values.entries|)
      ensures nodeSeq == old(nodeSeq) + |p.values.entries|
      ensures edge == old(edge)
      ensures pending == (old(pending) || |p.values.entries| > 0)
      ensures committedNode == old(committedNode) && committedEdge == old(committedEdge)
    {
      var name, entries := p.name, p.values.entries;
      ghost var id0 := nodeSeq;
      ids := [];
      for i := 0 to |entries|
        invariant Valid()
        invariant nodeSeq == id0 + i
        invariant node == old(node) + BiasLayerRows(p, id0)[..i]
        invariant ids == IdRange(id0, i)
        invariant edge == old(edge)
        invariant pending == (old(pending) || i > 0)
        invariant committedNode == old(committedNode) && committedEdge == old(committedEdge)
      {
        var insertedId := InsertNode(entries[i], Label(name, i));
        ids := ids + [insertedId];
        assert BiasLayerRows(p, id0)[..i + 1] == BiasLayerRows(p, id0)[..i] + [Node(insertedId, entries[i], Label(name, i))];
      }
      assert BiasLayerRows(p, id0)[..|entries|] == BiasLayerRows(p, id0);
    }

    /** The edge pass: every weight tensor's block of edges, in order. */
    method InsertEdges(sd: StateDict, nodeIds: seq<seq<int>>)
      requires IdsFit(WeightParams(sd), nodeIds)
      modifies this
      ensures edge == old(edge) + EdgeRows(WeightParams(sd), nodeIds)
      ensures node == old(node) && nodeSeq == old(nodeSeq)
      ensures pending == (old(pending) || |edge| > |old(edge)|)
      ensures committedNode == old(committedNode) && committedEdge == old(committedEdge)
    {
      var layer := 0;
      assert sd[..0] == [];
      for k := 0 to |sd|
        invariant IdsFit(WeightParams(sd[..k]), nodeIds)
        invariant layer == |WeightParams(sd[..k])|
        invariant edge == old(edge) + EdgeRows(WeightParams(sd[..k]), nodeIds)
        invariant node == old(node) && nodeSeq == old(nodeSeq)
        invariant pending == (old(pending) || |edge| > |old(edge)|)
        invariant committedNode == old(committedNode) && committedEdge == old(committedEdge)
      {
        if IsWeight(sd[k]) {
          AppendWeightEdges(sd, k, nodeIds, layer, old(edge));
          layer := layer + 1;
        } else {
          NonWeightStep(sd, k);
        }
      }
      assert sd[..|sd|] == sd;
    }

    /** One pass of the edge loop: the tensor's edges follow those of the weight tensors before it. */
    method AppendWeightEdges(sd: StateDict, k: nat, nodeIds: seq<seq<int>>, layer: nat, ghost before: seq<Edge>)
      requires k < |sd| && IsWeight(sd[k]) && IdsFit(WeightParams(sd), nodeIds)
      requires IdsFit(WeightParams(sd[..k]), nodeIds) && layer == |WeightParams(sd[..k])|
      requires edge == before + EdgeRows(WeightParams(sd[..k]), nodeIds)
      modifies this
      ensures IdsFit(WeightParams(sd[..k + 1]), nodeIds) && layer + 1 == |WeightParams(sd[..k + 1])|
      ensures edge == before + EdgeRows(WeightParams(sd[..k + 1]), nodeIds)
      ensures node == old(node) && nodeSeq == old(nodeSeq)
      ensures pending == (old(pending) || |edge| > |old(edge)|)
      ensures committedNode == old(committedNode) && committedEdge == old(committedEdge)
    {
      WeightEdgesStep(sd, k, nodeIds, before);
      InsertBoundary(sd[k].values.rows, nodeIds[layer], nodeIds[layer + 1]);
    }

    /** The edge relation after item k is the one before it followed by item k's block. */
    static lemma WeightEdgesStep(sd: StateDict, k: nat, nodeIds: seq<seq<int>>, before: seq<Edge>)
      requires k < |sd| && IsWeight(sd[k]) && IdsFit(WeightParams(sd), nodeIds)
      ensures IdsFit(WeightParams(sd[..k]), nodeIds) && IdsFit(WeightParams(sd[..k + 1]), nodeIds)
      ensures |WeightParams(sd[..k + 1])| == |WeightParams(sd[..k])| + 1
      ensures var l := |WeightParams(sd[..k])|;
        l + 1 < |nodeIds| && sd[k].values.Matrix? && Covers(sd[k].values.rows, |nodeIds[l + 1]|, |nodeIds[l]|) &&
        before + EdgeRows(WeightParams(sd[..k + 1]), nodeIds)
        == (before + EdgeRows(WeightParams(sd[..k]), nodeIds)) + BoundaryEdges(sd[k].values.rows, nodeIds[l], nodeIds[l + 1])
    {
      WeightStep(sd, k, nodeIds);
      var l := |WeightParams(sd[..k])|;
      var seen := EdgeRows(WeightParams(sd[..k]), nodeIds);
      var block := BoundaryEdges(sd[k].values.rows, nodeIds[l], nodeIds[l + 1]);
      assert (before + seen) + block == before + (seen + block);
    }

    /** The two inner loops for one weight tensor: edge (from, to) with weight `w[to][from]`. */
    method InsertBoundary(w: seq<seq<real>>, srcs: seq<int>, dsts: seq<int>)
      requires Covers(w, |dsts|, |srcs|)
      modifies this
      ensures edge == old(edge) + BoundaryEdges(w, srcs, dsts)
      ensures node == old(node) && nodeSeq == old(nodeSeq)
      ensures pending == (old(pending) || |edge| > |old(edge)|)
      ensures committedNode == old(committedNode) && committedEdge == old(committedEdge)
    {
      for f := 0 to |srcs|
        invariant edge == old(edge) + BoundaryEdges(w, srcs[..f], dsts)
        invariant node == old(node) && nodeSeq == old(nodeSeq)
        invariant pending == (old(pending) || |edge| > |old(edge)|)
        invariant committedNode == old(committedNode) && committedEdge == old(committedEdge)
      {
        ghost var mid := edge;
        ghost var fromEdges := FromNodeEdges(w, f, srcs[f], dsts);
        for t := 0 to |dsts|
          invariant edge == mid + fromEdges[..t]
          invariant node == old(node) && nodeSeq == old(nodeSeq)
          invariant |mid| >= |old(edge)|
          invariant pending == (old(pending) || |edge| > |old(edge)|)
          invariant committedNode == old(committedNode) && committedEdge == old(committedEdge)
        {
          InsertEdge(srcs[f], dsts[t], w[t][f]);
          assert fromEdges[..t + 1] == fromEdges[..t] + [fromEdges[t]];
        }
        assert srcs[..f + 1][..f] == srcs[..f];
        assert fromEdges[..|dsts|] == fromEdges;
      }
      assert srcs[..|srcs|] == srcs;
    }
  }
}
