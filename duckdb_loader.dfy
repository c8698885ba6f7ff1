/**
  The DuckDB loader: it resets the schema, walks the state dict twice (a node
  pass that numbers the units and records `node_ids`, then an edge pass that
  reads them back) and inserts both row streams in bounded batches.

  The tables of the connection are fields of `Database`; `batch_insert` is
  modelled on the rows of the table it appends to.
*/
module DuckDbLoader {
  import opened Common
  import opened Encoding

  /** The default `batch_size` of `batch_insert`. */
  const DefaultBatchSize: nat := 8_000_000

  function Min(a: nat, b: nat): nat { if a < b then a else b }

  /**
    The chunks `itertools.islice` cuts from a row stream: each holds the next
    `batchSize` rows, or what is left; the first empty chunk ends the loop.
  */
  function Chunks<R>(rows: seq<R>, batchSize: nat): seq<seq<R>>
    decreases |rows|
  {
    if batchSize == 0 || rows == [] then []
    else
      var n := Min(batchSize, |rows|);
      [rows[..n]] + Chunks(rows[n..], batchSize)
  }

  /** Concatenating the chunks gives back the stream, unless the batch size is 0. */
  lemma {:induction false} ChunksCover<R>(rows: seq<R>, batchSize: nat)
    ensures Flatten(Chunks(rows, batchSize)) == if batchSize == 0 then [] else rows
    decreases |rows|
  {
    if batchSize > 0 && rows != [] {
      var n := Min(batchSize, |rows|);
      ChunksCover(rows[n..], batchSize);
      FlattenPrepend(rows[..n], Chunks(rows[n..], batchSize));
      assert rows[..n] + rows[n..] == rows;
    } else if batchSize > 0 {
      assert Flatten<R>([]) == [];
    }
  }

  /** No chunk is empty and none exceeds the batch size. */
  lemma {:induction false} ChunksBounded<R>(rows: seq<R>, batchSize: nat, i: nat)
    requires i < |Chunks(rows, batchSize)|
    ensures 0 < |Chunks(rows, batchSize)[i]| <= batchSize
    decreases |rows|
  {
    var n := Min(batchSize, |rows|);
    if i > 0 {
      ChunksBounded(rows[n..], batchSize, i - 1);
    }
  }

  /** Every chunk but the last is full. */
  lemma {:induction false} ChunksFull<R>(rows: seq<R>, batchSize: nat, i: nat)
    requires i + 1 < |Chunks(rows, batchSize)|
    ensures |Chunks(rows, batchSize)[i]| == batchSize
    decreases |rows|
  {
    var n := Min(batchSize, |rows|);
    assert Chunks(rows, batchSize) == [rows[..n]] + Chunks(rows[n..], batchSize);
    assert rows[n..] != [];
    if i > 0 {
      ChunksFull(rows[n..], batchSize, i - 1);
    }
  }

  /**
    `batch_insert`: repeatedly take the next chunk of at most `batchSize`
    rows and append it to the table; stop at the first empty chunk.
    `inserts` lists the rows of each INSERT statement issued, in order.
  */
  method BatchInsert<R>(table: seq<R>, generator: seq<R>, batchSize: nat) returns (table': seq<R>, inserts: seq<seq<R>>)
    ensures inserts == Chunks(generator, batchSize)
    ensures table' == table + Flatten(inserts)
    ensures table' == table + (if batchSize == 0 then [] else generator)
  {
    table' := table;
    inserts := [];
    var consumed := 0;
    ghost var all := Chunks(generator, batchSize);
    while true
      invariant 0 <= consumed <= |generator|
      invariant inserts + Chunks(generator[consumed..], batchSize) == all
      invariant table' == table + Flatten(inserts)
      decreases |generator| - consumed
    {
      var n := Min(batchSize, |generator| - consumed);
      var chunk := generator[consumed..consumed + n];
      if chunk == [] {
        ChunksEmpty(generator[consumed..], batchSize, inserts, all);
        break;
      }
      ChunkStep(generator, consumed, batchSize, n, chunk, inserts, all);
      inserts := inserts + [chunk];
      table' := table' + chunk;
      consumed := consumed + n;
    }
    ChunksCover(generator, batchSize);
  }

  /** A chunk cut from the stream is empty only when nothing is left to cut. */
  lemma ChunksEmpty<R>(rest: seq<R>, batchSize: nat, inserts: seq<seq<R>>, all: seq<seq<R>>)
    requires Min(batchSize, |rest|) == 0 && inserts + Chunks(rest, batchSize) == all
    ensures inserts == all
  {
    assert Chunks(rest, batchSize) == [];
    assert inserts + [] == inserts;
  }

  /** Cutting the next chunk from position `consumed` moves it from the stream to the inserts. */
  lemma ChunkStep<R>(generator: seq<R>, consumed: nat, batchSize: nat, n: nat, chunk: seq<R>, inserts: seq<seq<R>>, all: seq<seq<R>>)
    requires consumed <= |generator| && n == Min(batchSize, |generator| - consumed)
    requires chunk == generator[consumed..consumed + n] && chunk != []
    requires inserts + Chunks(generator[consumed..], batchSize) == all
    ensures (inserts + [chunk]) + Chunks(generator[consumed + n..], batchSize) == all
    ensures Flatten(inserts + [chunk]) == Flatten(inserts) + chunk
  {
    var rest := generator[consumed..];
    assert rest[..n] == chunk;
    assert rest[n..] == generator[consumed + n..];
    assert Chunks(rest, batchSize) == [rest[..n]] + Chunks(rest[n..], batchSize);
    assert (inserts + [chunk]) + Chunks(rest[n..], batchSize) == inserts + ([chunk] + Chunks(rest[n..], batchSize));
    FlattenAppend(inserts, chunk);
  }

  /**
    The node pass (`nodes()`): one row per input feature, then one row per
    bias entry of every bias tensor, numbered by a running counter; the ids
    of each layer are recorded in `nodeIds`.
  */
  method NodePass(sd: StateDict) returns (rows: seq<Node>, nodeIds: seq<seq<int>>)
    requires WellFormed(sd)
    ensures rows == NodeRows(sd) && nodeIds == NodeIds(sd)
  {
    var inputWeights := sd[0].values.rows;
    var numInputNodes := |inputWeights[0]|;
    var inputRows, inputIds := InputLayerPass(numInputNodes);
    var hiddenRows;
    hiddenRows, nodeIds := BiasLayersPass(sd, numInputNodes, inputIds);
    rows := inputRows + hiddenRows;
  }

  /**
    The second loop of the node pass: every bias tensor in order, the
    counter continuing from the `w0` input nodes.
  */
  method BiasLayersPass(sd: StateDict, w0: nat, inputIds: seq<int>) returns (rows: seq<Node>, nodeIds: seq<seq<int>>)
    requires AllVectors(BiasParams(sd)) && inputIds == IdRange(0, w0)
    ensures rows == HiddenNodeRows(BiasParams(sd), w0)
    ensures nodeIds == LayerIds([w0] + LayerWidths(BiasParams(sd)))
  {
    rows, nodeIds := [], [inputIds];
    var id := w0;
    assert LayerIds([w0]) == [IdRange(0, w0)] by {
      assert [w0][..0] == [];
    }
    assert sd[..0] == [];
    var layer := 0;
    for k := 0 to |sd|
      invariant AllVectors(BiasParams(sd[..k]))
      invariant layer == |BiasParams(sd[..k])|
      invariant id == w0 + Sum(LayerWidths(BiasParams(sd[..k])))
      invariant rows == HiddenNodeRows(BiasParams(sd[..k]), w0)
      invariant nodeIds == LayerIds([w0] + LayerWidths(BiasParams(sd[..k])))
    {
      if IsBias(sd[k]) {
        BiasStep(sd, k);
        ghost var bs := BiasParams(sd[..k]);
        BiasLayerAppend(bs, sd[k], w0, id);
        var layerRows, layerIds := BiasLayerPass(sd[k], id);
        rows := rows + layerRows;
        nodeIds := nodeIds + [layerIds];
        id := id + |sd[k].values.entries|;
        layer := layer + 1;
      } else {
        NonBiasStep(sd, k);
      }
    }
    assert sd[..|sd|] == sd;
  }

  /** The first loop of the node pass: the input layer, ids 1 .. n, bias 0. */
  method InputLayerPass(n: nat) returns (rows: seq<Node>, ids: seq<int>)
    ensures rows == InputNodeRows(n) && ids == IdRange(0, n)
  {
    rows, ids := [], [];
    var id := 0;
    for i := 0 to n
      invariant id == i
      invariant rows == InputNodeRows(i)
      invariant ids == IdRange(0, i)
    {
      id := id + 1;
      rows := rows + [Node(id, 0.0, Label("input", i))];
      ids := ids + [id];
    }
  }

  /** The inner loop of the node pass for one bias tensor, continuing the counter from `id0`. */
  method BiasLayerPass(p: Param, id0: int) returns (rows: seq<Node>, ids: seq<int>)
    requires p.values.Vector?
    ensures rows == BiasLayerRows(p, id0)
    ensures ids == IdRange(id0, |p.values.entries|)
  {
    var name, entries := p.name, p.values.entries;
    rows, ids := [], [];
    var id := id0;
    for i := 0 to |entries|
      invariant id == id0 + i
      invariant rows == BiasLayerRows(p, id0)[..i]
      invariant ids == IdRange(id0, i)
    {
      id := id + 1;
      rows := rows + [Node(id, entries[i], Label(name, i))];
      ids := ids + [id];
      assert BiasLayerRows(p, id0)[..i + 1]
          == BiasLayerRows(p, id0)[..i] + [Node(id, entries[i], Label(name, i))];
      assert IdRange(id0, i + 1) == IdRange(id0, i) + [id];
    }
    assert BiasLayerRows(p, id0)[..|entries|] == BiasLayerRows(p, id0);
  }

  /**
    The edge pass (`edges()`): for every weight tensor in order, the complete
    bipartite product of `nodeIds[layer]` and `nodeIds[layer + 1]`,
    from-major, with weight `weight_tensor[to][from]`. It reads `nodeIds`, so
    the node pass must have filled it first.
  */
  method EdgePass(sd: StateDict, nodeIds: seq<seq<int>>) returns (rows: seq<Edge>)
    requires IdsFit(WeightParams(sd), nodeIds)
    ensures rows == EdgeRows(WeightParams(sd), nodeIds)
  {
    rows := [];
    var layer := 0;
    for k := 0 to |sd|
      invariant IdsFit(WeightParams(sd[..k]), nodeIds)
      invariant layer == |WeightParams(sd[..k])|
      invariant rows == EdgeRows(WeightParams(sd[..k]), nodeIds)
    {
      if IsWeight(sd[k]) {
        WeightStep(sd, k, nodeIds);
        var boundary := BoundaryPass(sd[k].values.rows, nodeIds[layer], nodeIds[layer + 1]);
        rows := rows + boundary;
        layer := layer + 1;
      } else {
        NonWeightStep(sd, k);
      }
    }
    assert sd[..|sd|] == sd;
  }

  /**
    The two inner loops of the edge pass for one weight tensor: every source
    in order, and for each every destination in order.
  */
  method BoundaryPass(weightTensor: seq<seq<real>>, srcs: seq<int>, dsts: seq<int>) returns (rows: seq<Edge>)
    requires Covers(weightTensor, |dsts|, |srcs|)
    ensures rows == BoundaryEdges(weightTensor, srcs, dsts)
  {
    rows := [];
    for f := 0 to |srcs|
      invariant rows == BoundaryEdges(weightTensor, srcs[..f], dsts)
    {
      ghost var mid := rows;
      ghost var fromEdges := FromNodeEdges(weightTensor, f, srcs[f], dsts);
      for t := 0 to |dsts|
        invariant rows == mid + fromEdges[..t]
      {
        rows := rows + [Edge(srcs[f], dsts[t], weightTensor[t][f])];
        assert fromEdges[..t + 1] == fromEdges[..t] + [fromEdges[t]];
      }
      assert srcs[..f + 1][..f] == srcs[..f];
      assert fromEdges[..|dsts|] == fromEdges;
    }
    assert srcs[..|srcs|] == srcs;
  }

  /** A DuckDB connection holding the encoding's three tables. */
  class Database {
    var node: seq<Node>
    var edge: seq<Edge>
    var input: seq<InputRow>

    /** `duckdb.connect()`: an in-memory database without rows. */
    constructor ()
      ensures node == [] && edge == [] && input == []
    {
      node, edge, input := [], [], [];
    }

    /**
      `_initialize_database`: drop and recreate `node`, `edge` and `input`
      (and the id sequence), whatever they held before.
    */
    method InitializeDatabase()
      modifies this
      ensures node == [] && edge == [] && input == []
    {
      edge := [];
      node := [];
      input := [];
    }

    /**
      `load_state_dict_into_db`: reset the schema, insert the node stream in
      batches, then the edge stream; afterwards the tables hold exactly this
      state dict's encoding.
    */
    method LoadStateDict(sd: StateDict)
      requires WellFormed(sd)
      modifies this
      ensures node == NodeRows(sd) && edge == EdgesOf(sd) && input == []
    {
      InitializeDatabase();
      // The node stream is consumed completely (the batch size is positive)
      // before the edge stream starts, so node_ids is filled when read.
      var nodeRows, nodeIds := NodePass(sd);
      var nodeInserts;
      node, nodeInserts := BatchInsert(node, nodeRows, DefaultBatchSize);
      NodeIdsFit(sd);
      var edgeRows := EdgePass(sd, nodeIds);
      var edgeInserts;
      edge, edgeInserts := BatchInsert(edge, edgeRows, DefaultBatchSize);
    }
  }
}
