/**
  The multi-model structural queries. Several networks share one `node`
  and one `edge` table; every row carries the `model_id` of its network,
  and a `model` table names the networks.

  The queries join on `id` alone where they look for a node among the
  edges, so they rely on the shared tables being consistent: a node id
  belongs to one model only, and both ends of an edge are nodes of the
  edge's own model (`Consistent`). That is an assumption about how the
  shared database was built, not something the queries check. Under it,
  each query is shown to give, per model, what the single-model query
  gives on that model's rows alone.
*/
module MultiModelQueries {
  import opened Common
  import opened Encoding
  import opened StructureQueries

  datatype MNode = MNode(modelId: int, id: int, bias: real, name: string)
  datatype MEdge = MEdge(modelId: int, src: int, dst: int, weight: real)
  datatype Model = Model(id: int, name: string)

  /** The `model` table, listed by its primary key: ids strictly ascending. */
  predicate ModelTable(models: seq<Model>)
  {
    forall i, j | 0 <= i < j < |models| :: models[i].id < models[j].id
  }

  /** Model m's node rows, without the model column. */
  function ModelNodes(nodes: seq<MNode>, m: int): (r: seq<Node>)
    ensures |r| <= |nodes|
  {
    if nodes == [] then []
    else
      var init, last := nodes[..|nodes| - 1], nodes[|nodes| - 1];
      ModelNodes(init, m) + (if last.modelId == m then [Node(last.id, last.bias, last.name)] else [])
  }

  /** Model m's edge rows, without the model column. */
  function ModelEdges(edges: seq<MEdge>, m: int): (r: seq<Edge>)
    ensures |r| <= |edges|
  {
    if edges == [] then []
    else
      var init, last := edges[..|edges| - 1], edges[|edges| - 1];
      ModelEdges(init, m) + (if last.modelId == m then [Edge(last.src, last.dst, last.weight)] else [])
  }

  lemma {:induction false} ModelNodesMember(nodes: seq<MNode>, m: int, n: Node)
    ensures n in ModelNodes(nodes, m) <==> MNode(m, n.id, n.bias, n.name) in nodes
    decreases |nodes|
  {
    if nodes != [] {
      var init, last := nodes[..|nodes| - 1], nodes[|nodes| - 1];
      ModelNodesMember(init, m, n);
      assert nodes == init + [last];
    }
  }

  lemma {:induction false} ModelEdgesMember(edges: seq<MEdge>, m: int, e: Edge)
    ensures e in ModelEdges(edges, m) <==> MEdge(m, e.src, e.dst, e.weight) in edges
    decreases |edges|
  {
    if edges != [] {
      var init, last := edges[..|edges| - 1], edges[|edges| - 1];
      ModelEdgesMember(init, m, e);
      assert edges == init + [last];
    }
  }

  function AllDsts(edges: seq<MEdge>): set<int> { set e | e in edges :: e.dst }
  function AllSrcs(edges: seq<MEdge>): set<int> { set e | e in edges :: e.src }

  /** `id` is the id of a node row of model m. */
  predicate NodeOf(nodes: seq<MNode>, m: int, id: int)
  {
    exists n | n in nodes :: n.modelId == m && n.id == id
  }

  /**
    The shape the shared tables have: a node id belongs to one model only,
    and both ends of an edge are nodes of the edge's own model.
  */
  ghost predicate Consistent(nodes: seq<MNode>, edges: seq<MEdge>)
  {
    IdsOwned(nodes) && EdgesOwned(nodes, edges)
  }

  /** A node id belongs to one model only. */
  ghost predicate IdsOwned(nodes: seq<MNode>)
  {
    forall n1, n2 | n1 in nodes && n2 in nodes && n1.id == n2.id :: n1.modelId == n2.modelId
  }

  /** Both ends of an edge are nodes of the edge's own model. */
  ghost predicate EdgesOwned(nodes: seq<MNode>, edges: seq<MEdge>)
  {
    forall e | e in edges :: NodeOf(nodes, e.modelId, e.src) && NodeOf(nodes, e.modelId, e.dst)
  }

  /** On consistent tables, a node of model m is a dst of some edge exactly when it is one of m's own edges. */
  lemma DstWithinModel(nodes: seq<MNode>, edges: seq<MEdge>, n: MNode)
    requires Consistent(nodes, edges) && n in nodes
    ensures n.id in AllDsts(edges) <==> n.id in Dsts(ModelEdges(edges, n.modelId))
  {
    if n.id in AllDsts(edges) {
      var e :| e in edges && e.dst == n.id;
      assert NodeOf(nodes, e.modelId, e.dst);
      ModelEdgesMember(edges, n.modelId, Edge(e.src, e.dst, e.weight));
    }
    if n.id in Dsts(ModelEdges(edges, n.modelId)) {
      var e :| e in ModelEdges(edges, n.modelId) && e.dst == n.id;
      ModelEdgesMember(edges, n.modelId, e);
    }
  }

  /** On consistent tables, a node of model m is a src of some edge exactly when it is one of m's own edges. */
  lemma SrcWithinModel(nodes: seq<MNode>, edges: seq<MEdge>, n: MNode)
    requires Consistent(nodes, edges) && n in nodes
    ensures n.id in AllSrcs(edges) <==> n.id in Srcs(ModelEdges(edges, n.modelId))
  {
    if n.id in AllSrcs(edges) {
      var e :| e in edges && e.src == n.id;
      assert NodeOf(nodes, e.modelId, e.src);
      ModelEdgesMember(edges, n.modelId, Edge(e.src, e.dst, e.weight));
    }
    if n.id in Srcs(ModelEdges(edges, n.modelId)) {
      var e :| e in ModelEdges(edges, n.modelId) && e.src == n.id;
      ModelEdgesMember(edges, n.modelId, e);
    }
  }

  lemma ModelNodeIds(nodes: seq<MNode>, m: int, x: int)
    ensures x in NodeIdSet(ModelNodes(nodes, m)) <==> NodeOf(nodes, m, x)
  {
    if x in NodeIdSet(ModelNodes(nodes, m)) {
      var n :| n in ModelNodes(nodes, m) && n.id == x;
      ModelNodesMember(nodes, m, n);
    }
    if NodeOf(nodes, m, x) {
      var n :| n in nodes && n.modelId == m && n.id == x;
      ModelNodesMember(nodes, m, Node(n.id, n.bias, n.name));
    }
  }

  // ---------------------------------------------------------------------------
  // query_layers_multi
  // ---------------------------------------------------------------------------

  /** The (model_id, id) pairs the recursive CTE tags with layer k. */
  function MultiLayerSet(nodes: seq<MNode>, edges: seq<MEdge>, k: nat): set<(int, int)>
  {
    if k == 0 then
      set n | n in nodes && n.id !in AllDsts(edges) :: (n.modelId, n.id)
    else
      var prev := MultiLayerSet(nodes, edges, k - 1);
      set n, e | n in nodes && e in edges && (e.modelId, e.src) in prev && e.dst == n.id :: (n.modelId, n.id)
  }

  /** The (model_id, id) pairs of the stored nodes. */
  function NodePairs(nodes: seq<MNode>): set<(int, int)>
  {
    set n | n in nodes :: (n.modelId, n.id)
  }

  /**
    Every tagged pair is a stored node; layer 0 holds only ids no edge
    enters, every later layer only ids some edge enters.
  */
  lemma MultiLayerSetWithin(nodes: seq<MNode>, edges: seq<MEdge>, k: nat)
    ensures MultiLayerSet(nodes, edges, k) <= NodePairs(nodes)
    ensures forall p | p in MultiLayerSet(nodes, edges, k) :: (p.1 in AllDsts(edges) <==> k > 0)
  {
  }

  /** The ids a set of (model_id, id) pairs holds for model m. */
  function ForModel(s: set<(int, int)>, m: int): set<int>
  {
    set p | p in s && p.0 == m :: p.1
  }

  /**
    On consistent tables, the multi-model recursion tags model m's nodes
    with the layers the single-model recursion gives on m's rows alone.
  */
  lemma {:induction false} MultiLayerSetRestricts(nodes: seq<MNode>, edges: seq<MEdge>, m: int, k: nat)
    requires Consistent(nodes, edges)
    ensures ForModel(MultiLayerSet(nodes, edges, k), m) == LayerSet(ModelNodes(nodes, m), ModelEdges(edges, m), k)
    decreases k
  {
    var mn, me := ModelNodes(nodes, m), ModelEdges(edges, m);
    if k == 0 {
      forall x ensures x in ForModel(MultiLayerSet(nodes, edges, 0), m) <==> x in InputIds(mn, me) {
        InputRestricts(nodes, edges, m, x);
      }
    } else {
      MultiLayerSetRestricts(nodes, edges, m, k - 1);
      forall x ensures x in ForModel(MultiLayerSet(nodes, edges, k), m) <==> x in LayerSet(mn, me, k) {
        StepRestricts(nodes, edges, m, k, x);
      }
    }
  }

  lemma InputRestricts(nodes: seq<MNode>, edges: seq<MEdge>, m: int, x: int)
    requires Consistent(nodes, edges)
    ensures x in ForModel(MultiLayerSet(nodes, edges, 0), m) <==> x in InputIds(ModelNodes(nodes, m), ModelEdges(edges, m))
  {
    var mn, me := ModelNodes(nodes, m), ModelEdges(edges, m);
    if x in ForModel(MultiLayerSet(nodes, edges, 0), m) {
      var n :| n in nodes && n.id !in AllDsts(edges) && n.modelId == m && n.id == x;
      DstWithinModel(nodes, edges, n);
      ModelNodesMember(nodes, m, Node(n.id, n.bias, n.name));
    }
    if x in InputIds(mn, me) {
      var n :| n in mn && n.id !in Dsts(me) && n.id == x;
      ModelNodesMember(nodes, m, n);
      var n' := MNode(m, n.id, n.bias, n.name);
      DstWithinModel(nodes, edges, n');
      assert (n'.modelId, n'.id) in MultiLayerSet(nodes, edges, 0);
    }
  }

  lemma StepRestricts(nodes: seq<MNode>, edges: seq<MEdge>, m: int, k: nat, x: int)
    requires Consistent(nodes, edges) && k > 0
    requires ForModel(MultiLayerSet(nodes, edges, k - 1), m) == LayerSet(ModelNodes(nodes, m), ModelEdges(edges, m), k - 1)
    ensures x in ForModel(MultiLayerSet(nodes, edges, k), m) <==> x in LayerSet(ModelNodes(nodes, m), ModelEdges(edges, m), k)
  {
    var mn, me := ModelNodes(nodes, m), ModelEdges(edges, m);
    var prev := MultiLayerSet(nodes, edges, k - 1);
    var single := LayerSet(mn, me, k - 1);
    if x in ForModel(MultiLayerSet(nodes, edges, k), m) {
      var n, e :| n in nodes && e in edges && (e.modelId, e.src) in prev && e.dst == n.id && n.modelId == m && n.id == x;
      assert NodeOf(nodes, e.modelId, e.dst);
      var e' := Edge(e.src, e.dst, e.weight);
      ModelEdgesMember(edges, m, e');
      ModelNodesMember(nodes, m, Node(n.id, n.bias, n.name));
      assert e.src in ForModel(prev, m);
      assert x in Step(mn, me, single);
    }
    if x in LayerSet(mn, me, k) {
      var n, e :| n in mn && e in me && e.src in single && e.dst == n.id && n.id == x;
      ModelNodesMember(nodes, m, n);
      ModelEdgesMember(edges, m, e);
      var p :| p in prev && p.0 == m && p.1 == e.src;
      var n', e' := MNode(m, n.id, n.bias, n.name), MEdge(m, e.src, e.dst, e.weight);
      assert (e'.modelId, e'.src) in prev;
      assert (n'.modelId, n'.id) in MultiLayerSet(nodes, edges, k);
    }
  }

  datatype MultiLayerCount = MultiLayerCount(modelId: int, name: string, layer: nat, numberOfNodes: nat)

  /** Model m's rows of the final GROUP BY, for rounds k .. k+fuel-1 of the recursion. */
  function ModelLayerRows(nodes: seq<MNode>, edges: seq<MEdge>, m: Model, k: nat, fuel: nat): (rows: seq<MultiLayerCount>)
    decreases fuel
  {
    if fuel == 0 then []
    else
      var here := ForModel(MultiLayerSet(nodes, edges, k), m.id);
      (if here == {} then [] else [MultiLayerCount(m.id, m.name, k, |here|)]) + ModelLayerRows(nodes, edges, m, k + 1, fuel - 1)
  }

  /** Rows of model `id`, at layers from k on, strictly ascending by layer. */
  predicate RowsFrom(rows: seq<MultiLayerCount>, id: int, k: nat)
  {
    && (forall i | 0 <= i < |rows| :: rows[i].modelId == id && k <= rows[i].layer)
    && (forall i, j | 0 <= i < j < |rows| :: rows[i].layer < rows[j].layer)
  }

  /** Model m's rows carry m's id and come in strictly ascending layer order, from layer k on. */
  lemma {:induction false} ModelLayerRowsShape(nodes: seq<MNode>, edges: seq<MEdge>, m: Model, k: nat, fuel: nat)
    ensures RowsFrom(ModelLayerRows(nodes, edges, m, k, fuel), m.id, k)
    decreases fuel
  {
    if fuel > 0 {
      var here := ForModel(MultiLayerSet(nodes, edges, k), m.id);
      var tail := ModelLayerRows(nodes, edges, m, k + 1, fuel - 1);
      ModelLayerRowsShape(nodes, edges, m, k + 1, fuel - 1);
      ModelLayerRowsUnfold(nodes, edges, m, k, fuel, here);
      RowsFromPrepend(tail, m, k, here);
    }
  }

  lemma RowsFromPrepend(tail: seq<MultiLayerCount>, m: Model, k: nat, here: set<int>)
    requires RowsFrom(tail, m.id, k + 1)
    ensures RowsFrom((if here == {} then [] else [MultiLayerCount(m.id, m.name, k, |here|)]) + tail, m.id, k)
  {
  }

  /** A single-model row, tagged with its model. */
  function Tagged(m: Model, rows: seq<LayerCount>): seq<MultiLayerCount>
  {
    if rows == [] then []
    else [MultiLayerCount(m.id, m.name, rows[0].layer, rows[0].numberOfNodes)] + Tagged(m, rows[1..])
  }

  lemma {:induction false} TaggedAt(m: Model, rows: seq<LayerCount>)
    ensures |Tagged(m, rows)| == |rows|
    ensures forall i | 0 <= i < |rows| :: Tagged(m, rows)[i] == MultiLayerCount(m.id, m.name, rows[i].layer, rows[i].numberOfNodes)
  {
    if rows != [] {
      TaggedAt(m, rows[1..]);
    }
  }

  /**
    `query_layers_multi`: the rows of each model in turn (ORDER BY m.id,
    n.layer); the recursion runs |nodes| rounds.
  */
  function MultiLayersQuery(models: seq<Model>, nodes: seq<MNode>, edges: seq<MEdge>): (rows: seq<MultiLayerCount>)
    ensures ModelTable(models) ==> SortedBy(rows, LayerOrder)
  {
    LayerBlocksOrdered(models, nodes, edges);
    Flatten(seq(|models|, i requires 0 <= i < |models| => ModelLayerRows(nodes, edges, models[i], 0, |nodes|)))
  }

  lemma ModelLayerRowsUnfold(nodes: seq<MNode>, edges: seq<MEdge>, m: Model, k: nat, fuel: nat, here: set<int>)
    requires fuel > 0 && here == ForModel(MultiLayerSet(nodes, edges, k), m.id)
    ensures ModelLayerRows(nodes, edges, m, k, fuel)
      == (if here == {} then [] else [MultiLayerCount(m.id, m.name, k, |here|)]) + ModelLayerRows(nodes, edges, m, k + 1, fuel - 1)
  {
  }

  /** One round of both row outputs: the multi-model rows are the tagged single-model rows. */
  lemma TaggedStep(m: Model, k: nat, here: set<int>, multi: seq<MultiLayerCount>, multiTail: seq<MultiLayerCount>,
                   single: seq<LayerCount>, singleTail: seq<LayerCount>)
    requires multi == (if here == {} then [] else [MultiLayerCount(m.id, m.name, k, |here|)]) + multiTail
    requires single == (if here == {} then [] else [LayerCount(k, |here|)]) + singleTail
    requires multiTail == Tagged(m, singleTail)
    ensures multi == Tagged(m, single)
  {
    if here != {} {
      assert single[0] == LayerCount(k, |here|);
      assert single[1..] == singleTail;
      assert Tagged(m, single) == [MultiLayerCount(m.id, m.name, k, |here|)] + Tagged(m, singleTail);
    } else {
      assert single == singleTail && multi == multiTail;
    }
  }

  lemma RestrictStep(nodes: seq<MNode>, edges: seq<MEdge>, m: Model, k: nat, fuel: nat)
    requires Consistent(nodes, edges) && fuel > 0
    requires ModelLayerRows(nodes, edges, m, k + 1, fuel - 1)
          == Tagged(m, LayerRows(ModelNodes(nodes, m.id), ModelEdges(edges, m.id), k + 1, fuel - 1))
    ensures ModelLayerRows(nodes, edges, m, k, fuel) == Tagged(m, LayerRows(ModelNodes(nodes, m.id), ModelEdges(edges, m.id), k, fuel))
  {
    var mn, me := ModelNodes(nodes, m.id), ModelEdges(edges, m.id);
    var here := LayerSet(mn, me, k);
    MultiLayerSetRestricts(nodes, edges, m.id, k);
    ModelLayerRowsUnfold(nodes, edges, m, k, fuel, here);
    LayerRowsUnfold(mn, me, k, fuel, here);
    TaggedStep(m, k, here, ModelLayerRows(nodes, edges, m, k, fuel), ModelLayerRows(nodes, edges, m, k + 1, fuel - 1),
      LayerRows(mn, me, k, fuel), LayerRows(mn, me, k + 1, fuel - 1));
  }

  lemma {:induction false} ModelLayerRowsRestrict(nodes: seq<MNode>, edges: seq<MEdge>, m: Model, k: nat, fuel: nat)
    requires Consistent(nodes, edges)
    ensures ModelLayerRows(nodes, edges, m, k, fuel) == Tagged(m, LayerRows(ModelNodes(nodes, m.id), ModelEdges(edges, m.id), k, fuel))
    decreases fuel
  {
    if fuel == 0 {
      assert LayerRows(ModelNodes(nodes, m.id), ModelEdges(edges, m.id), k, fuel) == [];
    } else {
      ModelLayerRowsRestrict(nodes, edges, m, k + 1, fuel - 1);
      RestrictStep(nodes, edges, m, k, fuel);
    }
  }

  /**
    For each model, `query_layers_multi` lists exactly the rows the
    single-model recursion gives on that model's rows, tagged with the model.
  */
  lemma MultiLayersRestrict(models: seq<Model>, nodes: seq<MNode>, edges: seq<MEdge>)
    requires Consistent(nodes, edges)
    ensures MultiLayersQuery(models, nodes, edges)
         == Flatten(seq(|models|, i requires 0 <= i < |models| =>
              Tagged(models[i], LayerRows(ModelNodes(nodes, models[i].id), ModelEdges(edges, models[i].id), 0, |nodes|))))
  {
    var multi := seq(|models|, i requires 0 <= i < |models| => ModelLayerRows(nodes, edges, models[i], 0, |nodes|));
    var single := seq(|models|, i requires 0 <= i < |models| =>
      Tagged(models[i], LayerRows(ModelNodes(nodes, models[i].id), ModelEdges(edges, models[i].id), 0, |nodes|)));
    forall i | 0 <= i < |models| ensures multi[i] == single[i] {
      ModelLayerRowsRestrict(nodes, edges, models[i], 0, |nodes|);
    }
    assert multi == single;
  }

  lemma TaggedExpected(m: Model, ws: seq<nat>)
    ensures |Tagged(m, ExpectedCounts(ws, 0))| == |ws|
    ensures forall k | 0 <= k < |ws| :: Tagged(m, ExpectedCounts(ws, 0))[k] == MultiLayerCount(m.id, m.name, k, ws[k])
  {
    ExpectedCountsAt(ws, 0);
    TaggedAt(m, ExpectedCounts(ws, 0));
  }

  /** On the layered shape, the single-model recursion run for `fuel` rounds, fuel at least the row count, yields the widths. */
  lemma LayeredRowsWithFuel(nodes: seq<Node>, edges: seq<Edge>, ws: seq<nat>, fuel: nat)
    requires Layered(nodes, edges, ws) && |nodes| <= fuel
    ensures LayerRows(nodes, edges, 0, fuel) == ExpectedCounts(ws, 0)
  {
    IdSetCard(nodes);
    SumAtLeastLength(ws);
    LayeredRows(nodes, edges, ws, 0, fuel);
  }

  /** A model whose own rows have the layered shape gets one row per layer, counting its width. */
  lemma MultiLayersOfLayeredModel(nodes: seq<MNode>, edges: seq<MEdge>, m: Model, ws: seq<nat>)
    requires Consistent(nodes, edges) && Layered(ModelNodes(nodes, m.id), ModelEdges(edges, m.id), ws)
    ensures |ModelLayerRows(nodes, edges, m, 0, |nodes|)| == |ws|
    ensures forall k | 0 <= k < |ws| :: ModelLayerRows(nodes, edges, m, 0, |nodes|)[k] == MultiLayerCount(m.id, m.name, k, ws[k])
  {
    ModelLayerRowsRestrict(nodes, edges, m, 0, |nodes|);
    LayeredRowsWithFuel(ModelNodes(nodes, m.id), ModelEdges(edges, m.id), ws, |nodes|);
    TaggedExpected(m, ws);
  }

  /** The order of `ORDER BY m.id, n.layer`. */
  predicate LayerOrder(a: MultiLayerCount, b: MultiLayerCount)
  {
    a.modelId < b.modelId || (a.modelId == b.modelId && a.layer < b.layer)
  }

  /** Listed by the model table's key, the per-model blocks of layer rows concatenate in model, then layer order. */
  lemma LayerBlocksOrdered(models: seq<Model>, nodes: seq<MNode>, edges: seq<MEdge>)
    ensures ModelTable(models) ==>
      SortedBy(Flatten(seq(|models|, i requires 0 <= i < |models| => ModelLayerRows(nodes, edges, models[i], 0, |nodes|))), LayerOrder)
  {
    if ModelTable(models) {
      var blocks := seq(|models|, i requires 0 <= i < |models| => ModelLayerRows(nodes, edges, models[i], 0, |nodes|));
      forall b | 0 <= b < |blocks| ensures SortedBy(blocks[b], LayerOrder)
        && forall x: MultiLayerCount | x in blocks[b] :: x.modelId == models[b].id
      {
        ModelLayerRowsShape(nodes, edges, models[b], 0, |nodes|);
      }
      FlattenSorted(blocks, LayerOrder);
    }
  }

  // ---------------------------------------------------------------------------
  // query_parameters_multi
  // ---------------------------------------------------------------------------

  datatype ParameterRow = ParameterRow(modelId: int, name: string, learnableParameters: nat)

  /**
    `num_biases` of model m: its nodes whose id some edge enters, that is,
    the nodes outside `input_nodes`. On consistent tables that is the
    single-model count on m's own rows.
  */
  function ModelBiasCount(nodes: seq<MNode>, edges: seq<MEdge>, m: int): (c: nat)
    ensures Consistent(nodes, edges) ==> c == NonInputCount(ModelNodes(nodes, m), ModelEdges(edges, m))
  {
    BiasedRestricts(nodes, edges, m);
    |set n | n in nodes && n.modelId == m && n.id in AllDsts(edges) :: n.id|
  }

  lemma BiasedRestricts(nodes: seq<MNode>, edges: seq<MEdge>, m: int)
    ensures var mn, me := ModelNodes(nodes, m), ModelEdges(edges, m);
      Consistent(nodes, edges) ==>
        (set n | n in nodes && n.modelId == m && n.id in AllDsts(edges) :: n.id) == NodeIdSet(mn) - InputIds(mn, me)
  {
    if Consistent(nodes, edges) {
      var mn, me := ModelNodes(nodes, m), ModelEdges(edges, m);
      var biased := set n | n in nodes && n.modelId == m && n.id in AllDsts(edges) :: n.id;
      forall x ensures x in biased <==> x in NodeIdSet(mn) - InputIds(mn, me) {
        ModelNodeIds(nodes, m, x);
        if x in biased {
          var n :| n in nodes && n.modelId == m && n.id in AllDsts(edges) && n.id == x;
          DstWithinModel(nodes, edges, n);
        }
        if x in NodeIdSet(mn) - InputIds(mn, me) {
          var n :| n in nodes && n.modelId == m && n.id == x;
          ModelNodesMember(nodes, m, Node(n.id, n.bias, n.name));
          DstWithinModel(nodes, edges, n);
        }
      }
      assert biased == NodeIdSet(mn) - InputIds(mn, me);
    }
  }

  /** `num_weights` of model m: zero exactly when no edge row carries m. */
  function ModelWeightCount(edges: seq<MEdge>, m: int): (c: nat)
    ensures c <= |edges|
    ensures c == 0 <==> forall e | e in edges :: e.modelId != m
  {
    ModelEdgesNone(edges, m);
    |ModelEdges(edges, m)|
  }

  lemma ModelEdgesNone(edges: seq<MEdge>, m: int)
    ensures ModelEdges(edges, m) == [] <==> forall e | e in edges :: e.modelId != m
  {
    if ModelEdges(edges, m) != [] {
      var e := ModelEdges(edges, m)[0];
      ModelEdgesMember(edges, m, e);
    }
    if e :| e in edges && e.modelId == m {
      ModelEdgesMember(edges, m, Edge(e.src, e.dst, e.weight));
    }
  }

  /**
    Model m's row of `query_parameters_multi`. The inner joins drop a
    model that has no non-input node or no edge (its GROUP BY yields no
    row). On consistent tables a present row carries the single-model
    parameter count of the model's own rows.
  */
  function ParameterRowFor(nodes: seq<MNode>, edges: seq<MEdge>, m: Model): (r: Option<ParameterRow>)
    ensures var mn, me := ModelNodes(nodes, m.id), ModelEdges(edges, m.id);
      Consistent(nodes, edges) ==>
        r == if NonInputCount(mn, me) == 0 || me == [] then None
             else Some(ParameterRow(m.id, m.name, ParameterCount(mn, me)))
  {
    var nb, nw := ModelBiasCount(nodes, edges, m.id), ModelWeightCount(edges, m.id);
    if nb == 0 || nw == 0 then None else Some(ParameterRow(m.id, m.name, nb + nw))
  }

  function Present<T>(o: Option<T>): seq<T>
  {
    if o.Some? then [o.value] else []
  }

  /**
    `query_parameters_multi`, listed in model order (the query sets no
    order): a row is the parameter row of the model it names, and every
    model with a parameter row has it listed.
  */
  function MultiParametersQuery(models: seq<Model>, nodes: seq<MNode>, edges: seq<MEdge>): (rows: seq<ParameterRow>)
    ensures forall r | r in rows :: ParameterRowFor(nodes, edges, Model(r.modelId, r.name)) == Some(r)
    ensures forall i | 0 <= i < |models| && ParameterRowFor(nodes, edges, models[i]).Some? ::
      ParameterRowFor(nodes, edges, models[i]).value in rows
  {
    var blocks := seq(|models|, i requires 0 <= i < |models| => Present(ParameterRowFor(nodes, edges, models[i])));
    ParameterBlocks(models, nodes, edges, blocks);
    Flatten(blocks)
  }

  lemma ParameterBlocks(models: seq<Model>, nodes: seq<MNode>, edges: seq<MEdge>, blocks: seq<seq<ParameterRow>>)
    requires blocks == seq(|models|, i requires 0 <= i < |models| => Present(ParameterRowFor(nodes, edges, models[i])))
    ensures forall r | r in Flatten(blocks) :: ParameterRowFor(nodes, edges, Model(r.modelId, r.name)) == Some(r)
    ensures forall i | 0 <= i < |models| && ParameterRowFor(nodes, edges, models[i]).Some? ::
      ParameterRowFor(nodes, edges, models[i]).value in Flatten(blocks)
  {
    forall r | r in Flatten(blocks) ensures ParameterRowFor(nodes, edges, Model(r.modelId, r.name)) == Some(r) {
      FlattenMember(blocks, r);
      var b :| 0 <= b < |blocks| && r in blocks[b];
      assert models[b] == Model(r.modelId, r.name);
    }
    forall i | 0 <= i < |models| && ParameterRowFor(nodes, edges, models[i]).Some?
      ensures ParameterRowFor(nodes, edges, models[i]).value in Flatten(blocks)
    {
      FlattenMember(blocks, ParameterRowFor(nodes, edges, models[i]).value);
      assert ParameterRowFor(nodes, edges, models[i]).value in blocks[i];
    }
  }

  // ---------------------------------------------------------------------------
  // query_pruning_multi
  // ---------------------------------------------------------------------------

  datatype PruningRow = PruningRow(modelId: int, name: string, numHiddenNodes: int, numPrunableNodes: nat, percentage: Option<real>)

  /** k hundredths. */
  function Cents(k: int): real
  {
    k as real / 100.0
  }

  /** A whole number of hundredths. */
  ghost predicate Hundredths(r: real)
  {
    exists k: int :: r == Cents(k)
  }

  /**
    `ROUND(x, 2)`: the nearest whole number of hundredths, a tie going away
    from zero. The model works on exact reals; the engine's floating-point
    arithmetic is not modelled.
  */
  function Round2(x: real): (r: real)
    ensures Hundredths(r)
    ensures x >= 0.0 ==> x - 0.005 < r <= x + 0.005
    ensures x < 0.0 ==> x - 0.005 <= r < x + 0.005
  {
    if x >= 0.0 then
      var k := (x * 100.0 + 0.5).Floor;
      assert k as real / 100.0 == Cents(k);
      k as real / 100.0
    else
      var k := (-x * 100.0 + 0.5).Floor;
      assert -(k as real) / 100.0 == Cents(-k);
      -(k as real) / 100.0
  }

  /**
    Round2's window holds one whole number of hundredths only, so the
    rounding is determined: the nearest hundredth, a tie going away from zero.
  */
  lemma Round2Unique(x: real, r: real)
    requires Hundredths(r)
    requires if x >= 0.0 then x - 0.005 < r <= x + 0.005 else x - 0.005 <= r < x + 0.005
    ensures r == Round2(x)
  {
    var k :| r == Cents(k);
    var j :| Round2(x) == Cents(j);
    assert (k - j) as real / 100.0 == r - Round2(x);
    assert -1 < k - j < 1;
  }

  /**
    `ROUND(num_prunable_nodes * 100 / num_hidden_nodes, 2)`; `/` on two
    integers divides exactly. None stands for a zero denominator, a case the
    query leaves to the engine.
  */
  function Percentage(prunable: nat, hidden: int): (p: Option<real>)
    ensures p.None? <==> hidden == 0
    ensures p.Some? ==> Hundredths(p.value)
    ensures p.Some? ==>
      var exact := (prunable as real) * 100.0 / (hidden as real);
      if exact >= 0.0 then exact - 0.005 < p.value <= exact + 0.005
      else exact - 0.005 <= p.value < exact + 0.005
  {
    if hidden == 0 then None else Some(Round2((prunable as real) * 100.0 / (hidden as real)))
  }

  function ModelTotalCount(nodes: seq<MNode>, m: int): nat
  {
    |set n | n in nodes && n.modelId == m :: n.id|
  }

  function ModelInputCount(nodes: seq<MNode>, edges: seq<MEdge>, m: int): nat
  {
    |set n | n in nodes && n.modelId == m && n.id !in AllDsts(edges) :: n.id|
  }

  function ModelOutputCount(nodes: seq<MNode>, edges: seq<MEdge>, m: int): nat
  {
    |set n | n in nodes && n.modelId == m && n.id !in AllSrcs(edges) :: n.id|
  }

  /**
    Model m's row of `query_pruning_multi`. `num_hidden_nodes` needs a row
    in both the input and the output counts, and `num_prunable_nodes` at
    least one prunable source: the inner joins drop the model otherwise.
  */
  function PruningRowFor(nodes: seq<MNode>, edges: seq<MEdge>, m: Model, threshold: real): (r: Option<PruningRow>)
    ensures var mn, me := ModelNodes(nodes, m.id), ModelEdges(edges, m.id);
      Consistent(nodes, edges) ==>
        r == PruningRowOf(m, |NodeIdSet(mn)|, |InputIds(mn, me)|, |OutputIds(mn, me)|, |PrunableSrcs(me, threshold)|)
  {
    ModelCountsRestrict(nodes, edges, m.id);
    PruningRowOf(m, ModelTotalCount(nodes, m.id), ModelInputCount(nodes, edges, m.id), ModelOutputCount(nodes, edges, m.id),
      |PrunableSrcs(ModelEdges(edges, m.id), threshold)|)
  }

  /**
    The row from the four counts. A zero count is a group the inner joins
    find no row for, so the model drops out; otherwise hidden is total minus
    inputs minus outputs, and the percentage is missing exactly when that is zero.
  */
  function PruningRowOf(m: Model, total: int, inputs: int, outputs: int, prunable: nat): (r: Option<PruningRow>)
    ensures r.None? <==> inputs == 0 || outputs == 0 || prunable == 0
    ensures r.Some? ==> r.value.modelId == m.id && r.value.name == m.name && r.value.numPrunableNodes == prunable
    ensures r.Some? ==> r.value.numHiddenNodes + inputs + outputs == total
    ensures r.Some? ==> (r.value.percentage.None? <==> total == inputs + outputs)
  {
    var hidden := total - inputs - outputs;
    if inputs == 0 || outputs == 0 || prunable == 0 then None
    else Some(PruningRow(m.id, m.name, hidden, prunable, Percentage(prunable, hidden)))
  }

  /** The order of `ORDER BY m.id`. */
  predicate ModelIdBefore(a: PruningRow, b: PruningRow)
  {
    a.modelId < b.modelId
  }

  /**
    `query_pruning_multi`, ORDER BY m.id: a row is the pruning row of the
    model it names, every model with a pruning row has it listed, and,
    listed by the model table's key, the rows ascend by model id.
  */
  function MultiPruningQuery(models: seq<Model>, nodes: seq<MNode>, edges: seq<MEdge>, threshold: real): (rows: seq<PruningRow>)
    ensures forall r | r in rows :: PruningRowFor(nodes, edges, Model(r.modelId, r.name), threshold) == Some(r)
    ensures forall i | 0 <= i < |models| && PruningRowFor(nodes, edges, models[i], threshold).Some? ::
      PruningRowFor(nodes, edges, models[i], threshold).value in rows
    ensures ModelTable(models) ==> SortedBy(rows, ModelIdBefore)
  {
    var blocks := seq(|models|, i requires 0 <= i < |models| => Present(PruningRowFor(nodes, edges, models[i], threshold)));
    PruningBlocks(models, nodes, edges, threshold, blocks);
    PruningBlocksComplete(models, nodes, edges, threshold, blocks);
    PruningBlocksOrdered(models, nodes, edges, threshold, blocks);
    Flatten(blocks)
  }

  lemma PruningBlocks(models: seq<Model>, nodes: seq<MNode>, edges: seq<MEdge>, threshold: real, blocks: seq<seq<PruningRow>>)
    requires blocks == seq(|models|, i requires 0 <= i < |models| => Present(PruningRowFor(nodes, edges, models[i], threshold)))
    ensures forall r | r in Flatten(blocks) :: PruningRowFor(nodes, edges, Model(r.modelId, r.name), threshold) == Some(r)
  {
    forall r | r in Flatten(blocks) ensures PruningRowFor(nodes, edges, Model(r.modelId, r.name), threshold) == Some(r) {
      FlattenMember(blocks, r);
      var b :| 0 <= b < |blocks| && r in blocks[b];
      var row := PruningRowFor(nodes, edges, models[b], threshold);
      assert row == Some(r) by {
        assert blocks[b] == Present(row);
      }
      PruningRowTagged(nodes, edges, models[b], threshold);
    }
  }

  lemma PruningRowTagged(nodes: seq<MNode>, edges: seq<MEdge>, m: Model, threshold: real)
    ensures PruningRowFor(nodes, edges, m, threshold).Some? ==>
      PruningRowFor(nodes, edges, m, threshold).value.modelId == m.id &&
      PruningRowFor(nodes, edges, m, threshold).value.name == m.name
  {
  }

  lemma PruningBlocksComplete(models: seq<Model>, nodes: seq<MNode>, edges: seq<MEdge>, threshold: real, blocks: seq<seq<PruningRow>>)
    requires blocks == seq(|models|, i requires 0 <= i < |models| => Present(PruningRowFor(nodes, edges, models[i], threshold)))
    ensures forall i | 0 <= i < |models| && PruningRowFor(nodes, edges, models[i], threshold).Some? ::
      PruningRowFor(nodes, edges, models[i], threshold).value in Flatten(blocks)
  {
    forall i | 0 <= i < |models| && PruningRowFor(nodes, edges, models[i], threshold).Some?
      ensures PruningRowFor(nodes, edges, models[i], threshold).value in Flatten(blocks)
    {
      FlattenMember(blocks, PruningRowFor(nodes, edges, models[i], threshold).value);
      assert PruningRowFor(nodes, edges, models[i], threshold).value in blocks[i];
    }
  }

  lemma PruningBlocksOrdered(models: seq<Model>, nodes: seq<MNode>, edges: seq<MEdge>, threshold: real, blocks: seq<seq<PruningRow>>)
    requires blocks == seq(|models|, i requires 0 <= i < |models| => Present(PruningRowFor(nodes, edges, models[i], threshold)))
    ensures ModelTable(models) ==> SortedBy(Flatten(blocks), ModelIdBefore)
  {
    if ModelTable(models) {
      forall b | 0 <= b < |blocks| ensures forall x: PruningRow | x in blocks[b] :: x.modelId == models[b].id {
      }
      FlattenSorted(blocks, ModelIdBefore);
    }
  }

  /** On consistent tables, a model's total, input and output counts are those of its own rows. */
  lemma ModelCountsRestrict(nodes: seq<MNode>, edges: seq<MEdge>, m: int)
    ensures Consistent(nodes, edges) ==>
      && ModelTotalCount(nodes, m) == |NodeIdSet(ModelNodes(nodes, m))|
      && ModelInputCount(nodes, edges, m) == |InputIds(ModelNodes(nodes, m), ModelEdges(edges, m))|
      && ModelOutputCount(nodes, edges, m) == |OutputIds(ModelNodes(nodes, m), ModelEdges(edges, m))|
  {
    if !Consistent(nodes, edges) {
      return;
    }
    var mn, me := ModelNodes(nodes, m), ModelEdges(edges, m);
    var total := set n | n in nodes && n.modelId == m :: n.id;
    var ins := set n | n in nodes && n.modelId == m && n.id !in AllDsts(edges) :: n.id;
    var outs := set n | n in nodes && n.modelId == m && n.id !in AllSrcs(edges) :: n.id;
    forall x ensures x in total <==> x in NodeIdSet(mn) {
      ModelNodeIds(nodes, m, x);
    }
    forall x ensures (x in ins <==> x in InputIds(mn, me)) && (x in outs <==> x in OutputIds(mn, me)) {
      ModelNodeIds(nodes, m, x);
      if x in NodeIdSet(mn) {
        var n :| n in nodes && n.modelId == m && n.id == x;
        ModelNodesMember(nodes, m, Node(n.id, n.bias, n.name));
        DstWithinModel(nodes, edges, n);
        SrcWithinModel(nodes, edges, n);
      }
    }
    assert total == NodeIdSet(mn) && ins == InputIds(mn, me) && outs == OutputIds(mn, me);
  }

  /** Raising the threshold never removes a pruning candidate of any model. */
  lemma MultiPrunableMonotone(edges: seq<MEdge>, m: int, t1: real, t2: real)
    requires t1 <= t2
    ensures |PrunableSrcs(ModelEdges(edges, m), t1)| <= |PrunableSrcs(ModelEdges(edges, m), t2)|
  {
    PrunableMonotone(ModelEdges(edges, m), t1, t2);
    CardMono(PrunableSrcs(ModelEdges(edges, m), t1), PrunableSrcs(ModelEdges(edges, m), t2));
  }

  // ---------------------------------------------------------------------------
  // The prunable percentage counts input nodes
  // ---------------------------------------------------------------------------

  /**
    The percentage a model's pruning row carries, on the model's own rows:
    every pruning candidate, input nodes included, over the hidden-node count.
  */
  function PrunablePercentage(nodes: seq<Node>, edges: seq<Edge>, threshold: real): (p: Option<real>)
    ensures p.None? <==> HiddenCount(nodes, edges) == 0
    ensures HiddenCount(nodes, edges) > 0 ==> p.Some? && p.value >= 0.0
    ensures HiddenCount(nodes, edges) < 0 ==> p.Some? && p.value <= 0.0
  {
    Percentage(|PrunableSrcs(edges, threshold)|, HiddenCount(nodes, edges))
  }

  /** A three-node chain input -> hidden -> output whose two weights are zero. */
  const ChainNodes: seq<Node> := [Node(1, 0.0, "input.0"), Node(2, 0.0, "b.0"), Node(3, 0.0, "c.0")]
  const ChainEdges: seq<Edge> := [Edge(1, 2, 0.0), Edge(2, 3, 0.0)]

  lemma ChainHidden()
    ensures HiddenCount(ChainNodes, ChainEdges) == 1
  {
    assert Dsts(ChainEdges) == {2, 3} && Srcs(ChainEdges) == {1, 2};
    assert NodeIdSet(ChainNodes) == {1, 2, 3};
    assert InputIds(ChainNodes, ChainEdges) == {1};
    assert OutputIds(ChainNodes, ChainEdges) == {3};
  }

  lemma ChainPrunable()
    ensures PrunableSrcs(ChainEdges, PruningThreshold) == {1, 2}
  {
    assert Srcs(ChainEdges) == {1, 2};
    forall s ensures s in PrunableSrcs(ChainEdges, PruningThreshold) <==> s in {1, 2} {
      PrunableIff(ChainEdges, PruningThreshold, s);
    }
  }

  lemma PairCard(a: int, b: int)
    requires a != b
    ensures |{a, b}| == 2
  {
    assert {a, b} == {a} + {b};
  }

  /**
    On the chain, the input and the hidden node are both candidates while
    one node is hidden: the percentage comes out at 200.
  */
  lemma PrunablePercentageExceeds100()
    ensures PrunablePercentage(ChainNodes, ChainEdges, PruningThreshold) == Some(200.0)
  {
    assert PrunablePercentage(ChainNodes, ChainEdges, PruningThreshold) == Percentage(2, 1) by {
      ChainHidden();
      ChainPrunable();
      PairCard(1, 2);
    }
    assert Round2(200.0) == 200.0 by {
      assert (200.0 * 100.0 + 0.5).Floor == 20000;
    }
  }

  /** The hidden nodes: neither an input node nor an output node. */
  function HiddenIds(nodes: seq<Node>, edges: seq<Edge>): set<int>
  {
    NodeIdSet(nodes) - InputIds(nodes, edges) - OutputIds(nodes, edges)
  }

  /** The percentage of hidden nodes that are pruning candidates. */
  function HiddenPrunablePercentage(nodes: seq<Node>, edges: seq<Edge>, threshold: real): (p: Option<real>)
    ensures p.Some? <==> HiddenIds(nodes, edges) != {}
    ensures p.Some? ==> 0.0 <= p.value <= 100.0
  {
    var hidden := HiddenIds(nodes, edges);
    var prunable := PrunableSrcs(edges, threshold) * hidden;
    CardMono(prunable, hidden);
    PercentageOfPart(|prunable|, |hidden|);
    Percentage(|prunable|, |hidden|)
  }

  lemma Round2AtMost100(x: real)
    requires x <= 100.0
    ensures Round2(x) <= 100.0
  {
    if x >= 0.0 {
      assert (x * 100.0 + 0.5).Floor <= 10000;
    }
  }

  /** A part over a whole, as a rounded percentage, lies between 0 and 100. */
  lemma PercentageOfPart(part: nat, whole: nat)
    requires part <= whole
    ensures Percentage(part, whole).Some? ==> 0.0 <= Percentage(part, whole).value <= 100.0
  {
    if whole != 0 {
      var ratio := (part as real) * 100.0 / (whole as real);
      assert ratio * (whole as real) == (part as real) * 100.0;
      assert ratio <= 100.0;
      Round2AtMost100(ratio);
    }
  }
}
