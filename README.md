# sql4nn in Dafny

sql4nn stores a ReLU feed-forward network in a relational database and
queries it with SQL. This project models the core of that system in Dafny:

- **Encoding.** A PyTorch state dict becomes rows of a `node(id, bias, name)`
  table and an `edge(src, dst, weight)` table. The encoding has two loaders,
  DuckDB and SQLite. Both number the input units first, then the units of
  every bias tensor in state-dict order. Both then emit one edge per pair of
  units in consecutive layers, with weight `weight_tensor[to][from]`.
- **Structural queries.** These are the queries the demo app runs over those
  tables: layer counts through a recursive CTE, learnable parameters, and
  pruning candidates. Each has a single-model form and a multi-model form
  where every row carries a `model_id`.
- **Piecewise-linear view.** The loop that rebuilds the plotted polyline from
  the (x, y, slope) breakpoints, and the windowed integral query.
- **Evaluation driver.** It turns an image into `input` rows inside a
  transaction, runs the forward-pass query and takes the first maximal
  log-softmax as the digit. It also covers batches of images, the zipcode
  read-out, and the multi-model prediction table with its pivot.
- **Layer stack.** The stack of the `ReLUFNN` class whose widths the encoding
  stores.

Code that works in place is imperative Dafny:

- The loaders are classes whose table fields their methods extend.
- The connection holding the `input` table is a class.
- `batch_insert`, the encoding generators and the row-building loops are
  methods with loop invariants.

Each method is proved against a specification function (`NodeRows`,
`EdgesOf`, `BatchRows`, `PlotY`, …). The properties the system relies on
are lemmas about those functions:

- Ids are consecutive per layer.
- The edge relation is the complete bipartite graph between consecutive
  layers, with the transposed weight entry.
- On what the loaders store, the layer query returns the layer widths.
- The parameter count is biases plus weights.
- The hidden count is the total minus the first and the last width.
- A unit is a pruning candidate exactly when every weight leaving it is
  within the threshold.
- On tables that hold several models, each model's row of a multi-model
  query equals the single-model query run on that model's rows alone.

Floating-point values are modelled as `real`. SQL `NULL`, and the errors
that `idxmax` and `randint` raise on empty input, are modelled as `Option`.
On a malformed state dict the loaders either raise or store a partial
encoding; the model requires a well-formed one (`Encoding.WellFormed`).
When the INSERT of an image without pixels or the evaluation query fails,
the driver returns `None`. The single-model drivers run inside a
transaction, which such a failure leaves open as in the source; the
multi-model driver opens none, so its TRUNCATE and INSERT stay in effect.

Module layout, one file each:

| module | file |
|---|---|
| `Common` | `common.dfy` |
| `Encoding` | `encoding.dfy` |
| `DuckDbLoader` | `duckdb_loader.dfy` |
| `SqliteLoader` | `sqlite_loader.dfy` |
| `StructureQueries` | `structure_queries.dfy` |
| `MultiModelQueries` | `multi_model_queries.dfy` |
| `Sorting` | `sorting.dfy` |
| `Pwl` | `pwl.dfy` |
| `EvalDriver` | `eval_driver.dfy` |
| `MultimodelEval` | `multimodel_eval.dfy` |
| `ReluFnn` | `relu_fnn.dfy` |

## Model

| member | source | states |
|---|---|---|
| Common.NatToString | docs/_downloads/7b5706f896b93d5441732ba0aa0f6663/duckdb.py:96 | the index in a node name is a non-empty string of decimal digits, which starts with 0 only for the index 0 itself |
| Common.NatToStringValue | docs/_downloads/7b5706f896b93d5441732ba0aa0f6663/duckdb.py:96 | read back as a base-10 numeral, the string is the index it was made from |
| Common.NatToStringInjective | docs/_downloads/7b5706f896b93d5441732ba0aa0f6663/duckdb.py:96 | distinct indices give distinct strings, so the names of one layer's units are distinct |
| Encoding.ParamsStep | docs/_downloads/7b5706f896b93d5441732ba0aa0f6663/duckdb.py:101-104 | visiting one more state-dict item adds it to the bias tensors exactly when its name contains "bias", and to the weight tensors exactly when it contains "weight" |
| Encoding.ParamsPrefix | docs/_downloads/7b5706f896b93d5441732ba0aa0f6663/duckdb.py:118-121 | the bias and weight tensors seen after the first k items are a prefix of those of the whole state dict |
| Encoding.BiasStep | docs/_downloads/7b5706f896b93d5441732ba0aa0f6663/duckdb.py:101-112 | a bias item is a vector and is appended to the bias layers seen so far |
| Encoding.NonBiasStep | docs/_downloads/7b5706f896b93d5441732ba0aa0f6663/duckdb.py:103-104 | an item whose name lacks "bias" is skipped by the node pass |
| Encoding.WeightStep | docs/_downloads/7b5706f896b93d5441732ba0aa0f6663/duckdb.py:118-131 | a weight item is appended to the weight tensors and advances the layer counter, and node_ids still fits every weight tensor seen |
| Encoding.NonWeightStep | docs/_downloads/7b5706f896b93d5441732ba0aa0f6663/duckdb.py:120-121 | an item whose name lacks "weight" is skipped by the edge pass |
| Encoding.BiasLayerAppend | docs/_downloads/7b5706f896b93d5441732ba0aa0f6663/duckdb.py:106-112 | one more bias layer appends that layer's rows, numbered after every unit so far, and appends its id range to node_ids |
| Encoding.HiddenNodeRowsAt | docs/_downloads/7b5706f896b93d5441732ba0aa0f6663/duckdb.py:101-112 | entry i of bias tensor j is emitted at position (units of earlier bias layers) + i, as row (that position + 1, the entry, "<name>.i") |
| Encoding.HiddenNodeRowIds | docs/_downloads/7b5706f896b93d5441732ba0aa0f6663/duckdb.py:109-111 | the bias-layer rows carry ids id0 + 1, id0 + 2, … in emission order |
| Encoding.NodeRows | docs/_downloads/7b5706f896b93d5441732ba0aa0f6663/duckdb.py:86-112 | the node relation has one row per unit of every layer: Σ widths rows |
| Encoding.NodeRowIds | docs/_downloads/7b5706f896b93d5441732ba0aa0f6663/duckdb.py:93-112 | node ids are 1, 2, 3, … in emission order |
| Encoding.NodeRowAt | docs/_downloads/7b5706f896b93d5441732ba0aa0f6663/duckdb.py:90-112 | the row of unit i of layer l is "input.i" with bias 0 for l = 0, otherwise "<tensor name>.i" with entry i of the l-th bias tensor |
| Encoding.LayerIdsSpan | docs/_downloads/7b5706f896b93d5441732ba0aa0f6663/duckdb.py:93-112 | the ids of layer l are consecutive from Start(l) + 1 and lie within 1 … total units |
| Encoding.LayerIdsOrdered | docs/_downloads/7b5706f896b93d5441732ba0aa0f6663/duckdb.py:93-112 | every id of an earlier layer is below every id of a later layer |
| Encoding.NodeIdsMatchRows | docs/_downloads/7b5706f896b93d5441732ba0aa0f6663/duckdb.py:96-112 | node_ids[l][i] is the id of the row emitted for unit i of layer l |
| Encoding.NodeIdsFit | docs/_downloads/7b5706f896b93d5441732ba0aa0f6663/duckdb.py:126-128 | on a well-formed state dict, node_ids fits every weight tensor's shape, so the edge pass indexes in range |
| Encoding.BoundaryEdges | docs/_downloads/7b5706f896b93d5441732ba0aa0f6663/duckdb.py:126-129 | the nested loops between two layers emit exactly |from layer| · |to layer| edges |
| Encoding.BoundaryEdgeAt | docs/_downloads/7b5706f896b93d5441732ba0aa0f6663/duckdb.py:126-129 | position f·|next layer| + t holds (from f, to t, weight_tensor[t][f]), in from-major, to-minor order |
| Encoding.BoundaryEdgeMember | docs/_downloads/7b5706f896b93d5441732ba0aa0f6663/duckdb.py:126-129 | an edge is emitted between two layers iff it is (srcs[f], dsts[t], w[t][f]) for some f and t |
| Encoding.EdgeRowsMember | docs/_downloads/7b5706f896b93d5441732ba0aa0f6663/duckdb.py:114-131 | an edge is in the edge relation iff it joins unit f of some layer k to unit t of layer k+1 with weight entry [t][f] of tensor k |
| Encoding.EdgeRows | docs/_downloads/7b5706f896b93d5441732ba0aa0f6663/duckdb.py:114-131 | the edge relation has Σ |layer k|·|layer k+1| rows |
| Encoding.EdgeRowAt | docs/_downloads/7b5706f896b93d5441732ba0aa0f6663/duckdb.py:114-131 | the edge of (k, f, t) sits at position Products(k) + f·|layer k+1| + t, with weight entry [t][f] |
| Encoding.EdgesOf | docs/_downloads/7b5706f896b93d5441732ba0aa0f6663/duckdb.py:118-131 | a state dict yields Σ width(k)·width(k+1) edges |
| Encoding.EdgesOfMember | docs/_downloads/7b5706f896b93d5441732ba0aa0f6663/duckdb.py:118-131 | on a well-formed state dict, an edge is stored iff it is a boundary edge of node_ids and the weight tensors |
| Encoding.EdgeEndpoints | docs/_downloads/7b5706f896b93d5441732ba0aa0f6663/duckdb.py:126-129 | no edge ends at an input unit, and none starts at a unit of the last layer |
| DuckDbLoader.ChunksCover | docs/_downloads/7b5706f896b93d5441732ba0aa0f6663/duckdb.py:66-77 | the chunks concatenate back to the generator's rows whenever the batch size is positive |
| DuckDbLoader.ChunksBounded | docs/_downloads/7b5706f896b93d5441732ba0aa0f6663/duckdb.py:72-74 | every inserted chunk is non-empty and holds at most batch_size rows |
| DuckDbLoader.ChunksFull | docs/_downloads/7b5706f896b93d5441732ba0aa0f6663/duckdb.py:72 | every chunk but the last holds exactly batch_size rows |
| DuckDbLoader.BatchInsert | docs/_downloads/7b5706f896b93d5441732ba0aa0f6663/duckdb.py:66-77 | the INSERT statements issued are exactly the chunks of the stream, which ChunksBounded and ChunksFull show are non-empty, at most batch_size rows and full but for the last; the table gains their rows in order, and nothing for batch size 0 |
| DuckDbLoader.NodePass | docs/_downloads/7b5706f896b93d5441732ba0aa0f6663/duckdb.py:86-112 | the node generator yields exactly the node relation and leaves node_ids equal to the per-layer id ranges |
| DuckDbLoader.InputLayerPass | docs/_downloads/7b5706f896b93d5441732ba0aa0f6663/duckdb.py:93-97 | the input loop yields rows (i+1, 0, "input.i") and records ids 1 … n |
| DuckDbLoader.BiasLayersPass | docs/_downloads/7b5706f896b93d5441732ba0aa0f6663/duckdb.py:99-112 | the bias loop yields the bias-layer rows and appends one id list per bias tensor |
| DuckDbLoader.BiasLayerPass | docs/_downloads/7b5706f896b93d5441732ba0aa0f6663/duckdb.py:106-112 | one bias tensor yields one row per entry, numbered after the previous id |
| DuckDbLoader.EdgePass | docs/_downloads/7b5706f896b93d5441732ba0aa0f6663/duckdb.py:114-131 | the edge generator yields exactly the edge relation of the weight tensors over node_ids |
| DuckDbLoader.BoundaryPass | docs/_downloads/7b5706f896b93d5441732ba0aa0f6663/duckdb.py:125-129 | the nested from/to loops yield the complete bipartite block with transposed weights |
| DuckDbLoader.Database.constructor | docs/_downloads/7b5706f896b93d5441732ba0aa0f6663/duckdb.py:8 | a fresh connection holds empty tables |
| DuckDbLoader.Database.InitializeDatabase | docs/_downloads/7b5706f896b93d5441732ba0aa0f6663/duckdb.py:13-48 | dropping and recreating leaves node, edge and input empty |
| DuckDbLoader.Database.LoadStateDict | docs/_downloads/7b5706f896b93d5441732ba0aa0f6663/duckdb.py:80-135 | after loading, node holds exactly the node relation, edge exactly the edge relation, and input is empty |
| SqliteLoader.SqliteDb.constructor | notebooks/utils/sqlite.py:4 | a connection over existing tables and a sequence value at least every id |
| SqliteLoader.SqliteDb.RecreateTables | notebooks/utils/sqlite.py:8-28 | both tables are empty and AUTOINCREMENT restarts at 1; inside an open transaction the committed state is untouched |
| SqliteLoader.SqliteDb.InsertNode | notebooks/utils/sqlite.py:42-47 | RETURNING (id) gives the previous sequence value + 1, and the row is appended under that id |
| SqliteLoader.SqliteDb.InsertEdge | notebooks/utils/sqlite.py:84-99 | the edge row is appended; nodes and the sequence are unchanged |
| SqliteLoader.SqliteDb.Commit | notebooks/utils/sqlite.py:103 | the committed tables become the working tables |
| SqliteLoader.SqliteDb.LoadPytorchModel | notebooks/utils/sqlite.py:7-103 | the SQLite loader stores the same node and edge relations as the DuckDB loader, committed, and the AUTOINCREMENT counter ends at the number of nodes |
| SqliteLoader.SqliteDb.InsertInputNodes | notebooks/utils/sqlite.py:41-48 | the input loop stores "input.i" rows with ids 1 … n and records those ids; every insert stays uncommitted (pending is set once a row is inserted) and the committed tables are unchanged |
| SqliteLoader.SqliteDb.InsertBiasLayers | notebooks/utils/sqlite.py:50-67 | the bias loop stores the bias-layer rows after the inputs, the counter advances by their number, and node_ids is the per-layer id ranges; every insert stays uncommitted (pending is set once a row is inserted) and the committed tables are unchanged |
| SqliteLoader.SqliteDb.AppendBiasLayer | notebooks/utils/sqlite.py:52-67 | one loop pass over a bias item appends its layer's rows and id list; every insert stays uncommitted (pending is set once a row is inserted) and the committed tables are unchanged |
| SqliteLoader.SqliteDb.BiasLoopPass | notebooks/utils/sqlite.py:52-67 | one pass of the bias loop adds a bias item's layer and skips any other item (the `continue`); every insert stays uncommitted (pending is set once a row is inserted) and the committed tables are unchanged |
| SqliteLoader.SqliteDb.InsertBiasLayer | notebooks/utils/sqlite.py:60-67 | one bias tensor's rows get the next consecutive ids; every insert stays uncommitted (pending is set once a row is inserted) and the committed tables are unchanged |
| SqliteLoader.SqliteDb.InsertEdges | notebooks/utils/sqlite.py:71-101 | the edge loop appends the edge relation of the weight tensors over node_ids; every insert stays uncommitted (pending is set once a row is inserted) and the committed tables are unchanged |
| SqliteLoader.SqliteDb.AppendWeightEdges | notebooks/utils/sqlite.py:72-101 | one loop pass over a state-dict item appends its bipartite block when it is a weight tensor; every insert stays uncommitted (pending is set once a row is inserted) and the committed tables are unchanged |
| SqliteLoader.SqliteDb.WeightEdgesStep | notebooks/utils/sqlite.py:72-101 | the edges stored after weight item k are those stored before it followed by item k's bipartite block, and node_ids fits that block |
| SqliteLoader.SqliteDb.InsertBoundary | notebooks/utils/sqlite.py:80-99 | the from/to loops append the complete bipartite block with transposed weights; every insert stays uncommitted (pending is set once a row is inserted) and the committed tables are unchanged |
| StructureQueries.NonInputCount | demo-app/page_model_queries_basic.py:79-83 | the nodes counted for biases are at most all nodes |
| StructureQueries.ParameterCount | demo-app/page_model_queries_basic.py:73-90 | the learnable-parameter count lies between the number of edges and nodes + edges |
| StructureQueries.HiddenCount | demo-app/page_model_queries_basic.py:146-154 | when no node is both an input and an output, total − inputs − outputs is the number of nodes that are neither |
| StructureQueries.OutgoingAbs | demo-app/page_model_queries_basic.py:122-125 | the ABS(weight) values grouped under a src are at most one per edge, all non-negative |
| StructureQueries.PrunableSrcs | demo-app/page_model_queries_basic.py:121-126 | every pruning candidate is the src of some edge |
| StructureQueries.PruningQuery | demo-app/page_model_queries_basic.py:121-126 | every returned src leaves some edge, and every edge leaving it has ABS(weight) ≤ 0.01 |
| StructureQueries.Step | demo-app/page_model_queries_basic.py:18-26 | one round of the recursion reaches only stored nodes that some edge enters |
| StructureQueries.LayerSetWithin | demo-app/page_model_queries_basic.py:6-26 | every layer holds stored node ids; layer 0 is exactly the ids no edge enters, and later layers hold only ids some edge enters |
| StructureQueries.LayerRows | demo-app/page_model_queries_basic.py:28-31 | n rounds of the recursion give at most n result rows |
| StructureQueries.LayersQuery | demo-app/page_model_queries_basic.py:6-31 | at most |nodes| rows, each a layer below |nodes| with a positive node count, strictly ascending by layer |
| StructureQueries.MaxOf | demo-app/page_model_queries_basic.py:125 | MAX over a group is None exactly on an empty group, bounds every value and is attained |
| StructureQueries.OutgoingAbsMember | demo-app/page_model_queries_basic.py:122-125 | the group of src s holds exactly the ABS(weight) of edges leaving s |
| StructureQueries.PrunableIff | demo-app/page_model_queries_basic.py:121-126 | s is returned iff it is the source of some edge and every edge leaving s has ABS(weight) ≤ threshold |
| StructureQueries.PrunableMonotone | demo-app/page_model_queries_basic.py:155-162 | raising the threshold never removes a candidate |
| StructureQueries.LayeredInputs | demo-app/page_model_queries_basic.py:6-11 | on the layered shape, input_nodes (ids that are no dst) is exactly layer 0 |
| StructureQueries.LayeredStep | demo-app/page_model_queries_basic.py:18-26 | on the layered shape, one recursive step from layer k-1 reaches exactly layer k |
| StructureQueries.LayeredLayerSet | demo-app/page_model_queries_basic.py:6-27 | on the layered shape, nodes_with_layer tags exactly layer k's ids with k |
| StructureQueries.LayerRowsShape | demo-app/page_model_queries_basic.py:28-31 | every result row has a non-empty layer with its node count, and the rows ascend by layer |
| StructureQueries.LayeredRows | demo-app/page_model_queries_basic.py:12-31 | on the layered shape, enough rounds of the recursion yield (k, width k) for the remaining layers |
| StructureQueries.LayerRowsEmptyTail | demo-app/page_model_queries_basic.py:18-26 | past the last layer the recursion reaches no node and adds no row |
| StructureQueries.LayeredLayersQuery | demo-app/page_model_queries_basic.py:6-31 | on the layered shape, query_layers_single returns one row (k, width k) per layer |
| StructureQueries.LayeredInputIds | demo-app/page_model_queries_basic.py:6-11 | the input ids are 1 … width 0 |
| StructureQueries.LayeredOutputIds | demo-app/page_model_queries_basic.py:135-140 | the ids that are no src are exactly the last layer |
| StructureQueries.LayeredNonInputs | demo-app/page_model_queries_basic.py:79-83 | the nodes counted for biases are every node past layer 0 |
| StructureQueries.LayeredParameterCount | demo-app/page_model_queries_basic.py:73-90 | learnable parameters = units outside layer 0 + number of edges |
| StructureQueries.LayeredHiddenCount | demo-app/page_model_queries_basic.py:141-154 | hidden nodes = all units − first width − last width |
| StructureQueries.EncodedEdgeAdjacent | docs/_downloads/7b5706f896b93d5441732ba0aa0f6663/duckdb.py:118-131 | every stored edge joins two adjacent layers |
| StructureQueries.EncodedEdgeAt | docs/_downloads/7b5706f896b93d5441732ba0aa0f6663/duckdb.py:126-129 | the edge from unit f of layer l to unit t of layer l+1 is stored with weight entry [t][f] |
| StructureQueries.EncodedPairJoined | docs/_downloads/7b5706f896b93d5441732ba0aa0f6663/duckdb.py:126-129 | every pair of units in adjacent layers is joined by some stored edge |
| StructureQueries.EncodedEdgeFrom | docs/_downloads/7b5706f896b93d5441732ba0aa0f6663/duckdb.py:126-129 | an edge leaving unit f of layer l goes to some unit t of layer l+1 with weight entry [t][f] |
| StructureQueries.EncoderLayered | docs/_downloads/7b5706f896b93d5441732ba0aa0f6663/duckdb.py:80-134 | what the loaders store for a state dict without empty layers has the layered shape of its widths |
| StructureQueries.EncoderLayerCounts | demo-app/page_model_queries_basic.py:6-31 | on what the loaders store, the layer query returns (k, width k) for every layer |
| StructureQueries.EncoderParameterCount | demo-app/page_model_queries_basic.py:73-90 | on what the loaders store, the parameter query returns biases plus weights of the state dict |
| StructureQueries.EncoderHiddenCount | demo-app/page_model_queries_basic.py:141-154 | on what the loaders store, hidden nodes = total − input width − output width |
| StructureQueries.EncoderPrunable | demo-app/page_model_queries_basic.py:121-126 | a unit of layer l is a pruning candidate iff every weight in its column of tensor l is within the threshold |
| StructureQueries.EncoderLastLayerNotPrunable | demo-app/page_model_queries_basic.py:121-126 | output units are never pruning candidates |
| MultiModelQueries.ModelNodesMember | demo-app/page_model_queries_basic.py:92-104 | a model's rows are exactly the shared node rows tagged with its model_id |
| MultiModelQueries.ModelEdgesMember | demo-app/page_model_queries_basic.py:106-109 | a model's edges are exactly the shared edge rows tagged with its model_id |
| MultiModelQueries.DstWithinModel | demo-app/page_model_queries_basic.py:39-40 | on consistent tables, `id NOT IN (SELECT dst FROM edge)` over all models agrees with the test on the node's own model |
| MultiModelQueries.SrcWithinModel | demo-app/page_model_queries_basic.py:135-140 | the same for `id NOT IN (SELECT src FROM edge)` |
| MultiModelQueries.MultiLayerSetRestricts | demo-app/page_model_queries_basic.py:34-61 | on consistent tables, the ids the multi-model recursion tags with (m, k) are model m's single-model layer k |
| MultiModelQueries.MultiLayerSetWithin | demo-app/page_model_queries_basic.py:34-61 | every (model_id, id) the recursion tags is a stored node; at layer 0 no edge enters it, at later layers some edge does |
| MultiModelQueries.InputRestricts | demo-app/page_model_queries_basic.py:34-41 | the multi-model input_nodes of model m are the single-model input nodes of m's rows |
| MultiModelQueries.StepRestricts | demo-app/page_model_queries_basic.py:49-60 | one recursive step joined on model_id restricts to the single-model step |
| MultiModelQueries.ModelLayerRowsShape | demo-app/page_model_queries_basic.py:62-70 | model m's rows all carry m and ascend by layer |
| MultiModelQueries.ModelLayerRowsRestrict | demo-app/page_model_queries_basic.py:34-70 | model m's rows are the single-model layer rows of m's tables, tagged with m's id and name |
| MultiModelQueries.MultiLayersRestrict | demo-app/page_model_queries_basic.py:34-70 | query_layers_multi is, model by model, the single-model query on that model's rows |
| MultiModelQueries.MultiLayersOfLayeredModel | demo-app/page_model_queries_basic.py:34-70 | for a model of layered shape, its rows are (id, name, k, width k) for every layer |
| MultiModelQueries.MultiLayersQuery | demo-app/page_model_queries_basic.py:34-70 | with the model table keyed by id, the result is ordered by model id, then layer |
| MultiModelQueries.ModelBiasCount | demo-app/page_model_queries_basic.py:100-105 | on consistent tables, num_biases of a model is the single-model non-input count on its own rows |
| MultiModelQueries.ModelWeightCount | demo-app/page_model_queries_basic.py:106-110 | num_weights of a model is at most the edge count, and is 0 exactly when no edge row carries its model_id |
| MultiModelQueries.ParameterRowFor | demo-app/page_model_queries_basic.py:92-119 | on consistent tables, a model's row is its single-model parameter count, and the inner joins drop it exactly when it has no non-input node or no edge |
| MultiModelQueries.MultiParametersQuery | demo-app/page_model_queries_basic.py:92-119 | every row is the parameter row of the model it names, and every model that has one is listed |
| MultiModelQueries.Round2 | demo-app/page_model_queries_basic.py:178 | ROUND(x, 2) is a whole number of hundredths within (x − 0.005, x + 0.005] for x ≥ 0 and within [x − 0.005, x + 0.005) for x < 0 |
| MultiModelQueries.Round2Unique | demo-app/page_model_queries_basic.py:178 | that window holds no other hundredth: the result is the nearest hundredth, with ties rounded away from zero |
| MultiModelQueries.Percentage | demo-app/page_model_queries_basic.py:178 | absent exactly when the count total − inputs − outputs is 0; otherwise prunable·100 over that count, rounded half away from zero to whole hundredths, for a negative count as well |
| MultiModelQueries.ModelCountsRestrict | demo-app/page_model_queries_basic.py:128-145 | a model's total, input and output counts are those of its own rows |
| MultiModelQueries.PruningRowOf | demo-app/page_model_queries_basic.py:128-182 | no row exactly when the inputs, outputs or candidates are zero (an inner join finds no group); otherwise hidden = total − inputs − outputs, and the percentage is missing exactly when that is 0 |
| MultiModelQueries.PruningRowFor | demo-app/page_model_queries_basic.py:128-182 | on consistent tables, a model's pruning row is built from its own total, input, output and candidate counts |
| MultiModelQueries.MultiPruningQuery | demo-app/page_model_queries_basic.py:128-182 | every row is the pruning row of the model it names, every model that has one is listed, and with the model table keyed by id the rows ascend by model id |
| MultiModelQueries.MultiPrunableMonotone | demo-app/page_model_queries_basic.py:155-162 | per model, raising the threshold never lowers the number of candidates |
| MultiModelQueries.ChainHidden | demo-app/page_model_queries_basic.py:146-154 | the chain 1→2→3 has one hidden node |
| MultiModelQueries.ChainPrunable | demo-app/page_model_queries_basic.py:155-162 | with zero weights, both sources 1 and 2 of the chain are candidates |
| MultiModelQueries.PrunablePercentageExceeds100 | demo-app/page_model_queries_basic.py:155-178 | as written, the chain's percentage_prunable is 200 |
| MultiModelQueries.PercentageOfPart | demo-app/page_model_queries_basic.py:178 | a part over a whole, rounded, lies within [0, 100] |
| MultiModelQueries.PrunablePercentage | demo-app/page_model_queries_basic.py:155-178 | the percentage as written is absent exactly when the count total − inputs − outputs is 0, non-negative when that count is positive and non-positive when it is negative |
| MultiModelQueries.HiddenPrunablePercentage | demo-app/page_model_queries_basic.py:146-178 | counting only hidden candidates, the percentage exists iff there is a hidden node and lies within [0, 100] |
| Sorting.SortByKey | demo-app/multimodel.py:68-70 | sorting is a permutation |
| Sorting.SortByKeySorted | demo-app/multimodel.py:68-70 | the sorted rows ascend by key |
| Sorting.SortByKeyKeepsSorted | demo-app/page_model_queries_pwl.py:154 | rows already in key order are left as they are |
| Pwl.PlotLength | demo-app/page_model_queries_pwl.py:113-116 | one plotted point per slope, and at least the first breakpoint |
| Pwl.PlotYAccumulates | demo-app/page_model_queries_pwl.py:113-123 | the i-th plotted y is the first y plus the summed slope·run of the first i segments |
| Pwl.Reconstruct | demo-app/page_model_queries_pwl.py:113-123 | the plotted x are the first x values and every plotted y is the first y plus the accumulated slope·run |
| Pwl.PlotYMatchesBreakpoints | demo-app/page_model_queries_pwl.py:116-123 | when the breakpoints lie on their polyline, the rebuilt y values equal the queried ones |
| Pwl.PlotSegments | demo-app/page_model_queries_pwl.py:117-123 | consecutive plotted points differ by slope × run |
| Pwl.Trapezoid | demo-app/page_model_queries_pwl.py:158 | the summed trapezoid is the exact area y·d + slope·d²/2 under the segment |
| Pwl.WindowTermsEmpty | demo-app/page_model_queries_pwl.py:157-161 | there is no term exactly when no row with a successor has x in [start, end] |
| Pwl.WindowTerms | demo-app/page_model_queries_pwl.py:157-161 | at most one term per row that has a successor |
| Pwl.ByX | demo-app/page_model_queries_pwl.py:154 | ORDER BY x keeps the rows (a permutation) |
| Pwl.Integral | demo-app/page_model_queries_pwl.py:149-161 | the integral is NULL iff no row with a successor in x order lies in the window, and otherwise the sum of the exact areas under the counted segments |
| Pwl.IntegralEmptyWindow | demo-app/page_model_queries_pwl.py:161 | a window with start > end gives NULL |
| Pwl.LastRowAddsNothing | demo-app/page_model_queries_pwl.py:154-161 | the last breakpoint's y and slope never affect the integral |
| Pwl.SegmentMayPassEnd | demo-app/page_model_queries_pwl.py:158-161 | a row counts by its own x, so the whole segment is integrated even past end |
| Pwl.WindowTermsAreSegmentAreas | demo-app/page_model_queries_pwl.py:158 | the integral sums the exact areas under the counted segments |
| EvalDriver.Connection.Begin | demo-app/image.py:28 | BEGIN fails inside an open transaction and otherwise opens one; the tables are unchanged |
| EvalDriver.Connection.Rollback | demo-app/image.py:30 | ROLLBACK restores the committed input table and closes the transaction |
| EvalDriver.Connection.BeginRetrying | demo-app/image.py:27-31 | after the try/except a transaction is open, and a stale one has been rolled back |
| EvalDriver.Connection.Truncate | demo-app/image.py:33 | TRUNCATE empties input; outside a transaction that is committed at once |
| EvalDriver.Connection.Insert | demo-app/image.py:39-40 | INSERT appends the rows to input; a data frame built from no rows has no columns, and the statement fails and changes nothing |
| EvalDriver.Connection.Commit | demo-app/image.py:44 | COMMIT makes the working input the committed one |
| EvalDriver.ImageRows | demo-app/image.py:35-37 | one row per pixel, each in the given input set, whose 1-based input id names its pixel |
| EvalDriver.BatchRows | demo-app/page_eval.py:157-160 | every row names an image of the batch as its input set and a pixel of that image, carrying that pixel's value |
| EvalDriver.BuildImageRows | demo-app/image.py:35-37 | pixel i becomes row (set id, i + 1, pixel) |
| EvalDriver.BuildBatchRows | demo-app/page_eval.py:157-160 | the nested loops build the batch rows, image k as input set k |
| EvalDriver.BatchRowsCount | demo-app/page_eval.py:157-160 | the batch has as many rows as the images have pixels |
| EvalDriver.BatchRowAt | demo-app/page_eval.py:157-160 | pixel i of image k is row (k, i + 1, pixel), after all pixels of earlier images |
| EvalDriver.BatchRowsOrdered | demo-app/page_eval.py:158-160 | input set ids never decrease along the batch and lie within 0 … images − 1 |
| EvalDriver.FirstArgMax | demo-app/image.py:46 | idxmax is None on an empty series, else the first position of a maximal value |
| EvalDriver.FirstArgMaxUnique | demo-app/image.py:46 | that position is the only one that is maximal with nothing maximal before it |
| EvalDriver.EvalImageSql | demo-app/image.py:26-48 | input holds exactly the image's rows, committed, and the digit is idxmax of the query's log-softmax column; when the image has no pixels (the INSERT raises) or the query fails, the transaction stays open and the committed input is unchanged |
| EvalDriver.EvalMultipleImages | demo-app/page_eval.py:148-169 | input holds exactly the batch rows, committed, and the query runs over them; when the batch has no pixels (the INSERT raises) or the query fails, the transaction stays open and the committed input is unchanged |
| EvalDriver.GroupValuesEmpty | demo-app/page_eval.py:218-220 | an input set's group is empty iff no result row carries that id |
| EvalDriver.GroupValues | demo-app/page_eval.py:218-220 | every value of an input set's group is the log-softmax of a result row of that set |
| EvalDriver.SetIds | demo-app/page_eval.py:220 | the groups are exactly the input set ids present in the results |
| EvalDriver.SetIdsAscending | demo-app/page_eval.py:220-221 | groupby visits the input set ids in ascending order |
| EvalDriver.Zipcode | demo-app/page_eval.py:218-221 | one digit per input set |
| EvalDriver.ZipcodeDigits | demo-app/page_eval.py:218-221 | digit k is the first maximal position within the k-th smallest input set |
| EvalDriver.RandomImage | demo-app/page_eval.py:20-23 | randint(0, len − 1) picks an element of the dataset, and fails on an empty dataset |
| EvalDriver.RandomImageReachesAll | demo-app/page_eval.py:21 | every element can be drawn |
| MultimodelEval.Names | demo-app/multimodel.py:58 | the groups are the distinct model names present, each once |
| MultimodelEval.GroupRows | demo-app/multimodel.py:58 | a group holds only its name's rows and is empty iff the name is absent |
| MultimodelEval.PredictionOf | demo-app/multimodel.py:59-66 | a group's report row carries the group's model id and name, and the first maximal log-softmax position |
| MultimodelEval.PredictionsAt | demo-app/multimodel.py:57-66 | report row k is the report of the k-th name group |
| MultimodelEval.Predictions | demo-app/multimodel.py:57-66 | one report row per name group |
| MultimodelEval.BuildPredictions | demo-app/multimodel.py:57-66 | the loop builds one report row per name group, in group order |
| MultimodelEval.PredictionPerName | demo-app/multimodel.py:57-66 | every model name present gets a report row holding its own group's prediction |
| MultimodelEval.PredictionNamesDistinct | demo-app/multimodel.py:58 | no two report rows share a model name |
| MultimodelEval.ByModelId | demo-app/multimodel.py:68-70 | sort_values by Model ID is a permutation into ascending model id |
| MultimodelEval.EvalImageSql | demo-app/multimodel.py:37-72 | input holds exactly the image's rows (committed when no transaction is open), the results are the query's over them, and the predictions are the per-name reports sorted by model id; for an image with no pixels the INSERT raises after the TRUNCATE took effect, and a failing query raises after both, with neither results nor predictions |
| MultimodelEval.Pivot | demo-app/multimodel.py:75-89 | the pivot exists exactly when the model ids are distinct |
| MultimodelEval.PivotDefined | demo-app/multimodel.py:83-85 | the pivot is defined iff no Model ID repeats |
| MultimodelEval.PivotCell | demo-app/multimodel.py:77-86 | each model's column holds its prediction and confidence |
| MultimodelEval.PivotColumnsAscending | demo-app/multimodel.py:76-86 | one column per model, named by model name, in ascending model id |
| ReluFnn.BuildStack | demo-app/model.py:39-50 | Linear and ReLU alternate, Linear shapes chain, and the stack has 2·(repeats) + 3 layers |
| ReluFnn.StackWidths | demo-app/model.py:41-48 | the widths are input, hidden repeated max(1, num_hidden_layers) times, output |
| ReluFnn.Stack | docs/_downloads/5edbcae9605809231fee409ed58e398b/nn.py:12-21 | the stack has 2·repeats + 3 entries, opens with Linear(input, hidden) and closes with Linear(hidden, output) |
| ReluFnn.StackShape | docs/_downloads/5edbcae9605809231fee409ed58e398b/nn.py:12-21 | the layer stack alternates Linear and ReLU, and the Linear shapes chain |
| ReluFnn.DefaultStackShape | docs/_downloads/5edbcae9605809231fee409ed58e398b/nn.py:8-10 | with the default arguments the stack has 21 entries, from Linear(1, 4) to Linear(4, 1), with widths 1, ten times 4, then 1 |
| ReluFnn.ShallowStack | docs/_downloads/5edbcae9605809231fee409ed58e398b/nn.py:17-19 | for num_hidden_layers ≤ 1 the loop adds nothing: Linear, ReLU, Linear |
| ReluFnn.StackLength | docs/_downloads/5edbcae9605809231fee409ed58e398b/nn.py:12-21 | for num_hidden_layers ≥ 1 the stack has 2·num_hidden_layers + 1 layers |

## Left out

- Torch and the numerics of `nn.Linear`/`ReLU`: the stack is modelled as layer descriptors only. The forward pass is left out as well.
- Floating point: weights, biases, pixels and results are `real`. The DuckDB tables declare `bias` and `weight` as `REAL` (duckdb.py, lines 27 and 37), a 32-bit float, and that rounding is not modelled; it can move a stored weight across the 0.01 pruning threshold.
- The forward-pass SQL, the piecewise-linear breakpoint SQL and the saliency queries are not part of this model. The evaluation query is a function parameter, and the breakpoints are input rows.
- `log_softmax`, `np.exp` and the confidence (`probabilities.max()`) in multimodel.py are function parameters: no transcendental functions.
- `random.randint` is the `draw` parameter of `RandomImage`. A draw outside the range is taken modulo the dataset size.
- `idxmax` on an empty series and `randint` on an empty range raise in Python. Both are modelled as `None`.
- MultiModelQueries.Percentage: a zero hidden-node count is modelled as `None`. The query leaves this case to the engine.
- MultiModelQueries.MultiParametersQuery: the query has no ORDER BY, so its rows are listed in model-table order.
- MultimodelEval.Names: `groupby("name")` visits names in sorted order, but the model uses first appearance. Only the order before the sort by Model ID differs.
- MultimodelEval.ByModelId: `sort_values` is not guaranteed stable, but the model sorts stably. Ties only arise for a repeated Model ID.
- MultimodelEval.EvalImageSql: the `log_softmax` column added to `results_df` is not returned.
- StructureQueries.LayerRows: the recursive CTE runs for at most |nodes| rounds. On the layered shape that is enough, as LayeredLayersQuery proves.
- EXPORT DATABASE and the removal of the export directory in duckdb.py are left out (file-system I/O).
- The DuckDB sequence `seq_node` is left out: the generator supplies the ids explicitly.
- SQLite does not enforce the declared foreign keys by default, so the model does not enforce them either.
- Pwl.WindowTerms: only the count of terms is stated on the function. Which rows contribute is given by WindowTermsEmpty and WindowTermsAreSegmentAreas.
- Pwl.ByX: `ORDER BY x` leaves the order of rows with equal x to the engine; the model breaks ties stably with Sorting.SortByKey.
- MultiModelQueries: the multi-model queries are proved on tables where every edge joins two nodes of its own model and node ids are unique across models (`Consistent`). The loaders here restart ids at 1 on every load and store no model_id; the code that builds the shared multi-model database is not part of this model, so that property is assumed of it. `id` is also assumed to be a key of the shared node table: `COUNT(id)` in the total, input, output and layer-0 counts counts rows, and the model counts distinct ids, which agree only when no id repeats within a model.
- StructureQueries.NonInputCount: `COUNT(bias)` is modelled as the number of distinct non-input ids, which agrees because `id` is the primary key and `bias` is never NULL in what the loaders store. Likewise `COUNT(weight)` in StructureQueries.ParameterCount and MultiModelQueries.ModelWeightCount is modelled as the number of edge rows, because `weight` is never NULL in what the loaders store.
- Malformed state dicts are not modelled: the model requires `Encoding.WellFormed` of every input. On such input the loaders behave in two ways. Some raise an IndexError: a weight tensor smaller than the layers it joins, or more weight tensors than bias tensors. Others are stored partially without an error: a weight tensor larger than its layers has its surplus entries ignored, and with more bias tensors than weight tensors the last bias layers are stored without incoming edges.
- EvalDriver.EvalImageSql: a failing evaluation query, and the failing INSERT of an image without pixels, are modelled as `None` with the transaction left open; the Python exception raised is not. The same holds for EvalDriver.EvalMultipleImages.
- MultimodelEval.EvalImageSql: the same two failures are modelled as `None` for both results and predictions; no transaction is involved, so the TRUNCATE and the INSERT stay in effect. The Python exception raised is not modelled.
- The Streamlit pages, plotting and caching are left out (UI).

## Findings

| source | as written | input that shows it | evidently intended | confidence | as-written member | corrected member |
|---|---|---|---|---|---|---|
| demo-app/page_model_queries_basic.py:155-178 | `prunable_nodes` counts every edge source, input nodes included. `percentage_prunable` divides that count by the number of hidden nodes only. | Chain input 1 → hidden 2 → output 3 with both weights 0: two candidates (1 and 2) over one hidden node give 200 | The percentage of hidden nodes that are pruning candidates, within [0, 100] | medium, not executed | MultiModelQueries.PrunablePercentageExceeds100 | MultiModelQueries.HiddenPrunablePercentage |

`MultiModelQueries.PruningRowFor` keeps the query as written, so the model
stays faithful to what the page shows. `MultiModelQueries.HiddenPrunablePercentage`
is the corrected definition. It intersects the candidates with the hidden
nodes, and its bound is proved.
