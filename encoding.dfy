/**
  The relational encoding of a fully connected ReLU network: what the two
  encoders (the DuckDB and the SQLite loader) must emit for a given state
  dict. A state dict is the ordered list of named parameter tensors that
  training produces; weight and bias tensors alternate, one pair per layer.

  The node relation holds one row per input feature followed by one row per
  bias entry, layer by layer, with ids 1, 2, 3, ... in emission order. The
  edge relation holds, for every pair of consecutive layers, the complete
  bipartite product of their node ids, from-major and to-minor, where the
  edge from position f of layer L to position t of layer L+1 carries the
  weight tensor entry [t][f].
*/
module Encoding {
  import opened Common

  datatype Tensor = Vector(entries: seq<real>) | Matrix(rows: seq<seq<real>>)
  datatype Param = Param(name: string, values: Tensor)
  type StateDict = seq<Param>

  datatype Node = Node(id: int, bias: real, name: string)
  datatype Edge = Edge(src: int, dst: int, weight: real)
  /** A row of the `input` table: evaluation set, 1-based input node position, value. */
  datatype InputRow = InputRow(setId: int, nodeIdx: int, value: real)

  /** Python's `pat in s` on strings: substring search. */
  predicate Contains(s: string, pat: string)
    decreases |s|
  {
    (|pat| <= |s| && s[..|pat|] == pat) || (|s| > 0 && Contains(s[1..], pat))
  }

  predicate IsBias(p: Param) { Contains(p.name, "bias") }
  predicate IsWeight(p: Param) { Contains(p.name, "weight") }

  /** The parameters the node pass visits: those whose name contains "bias", in order. */
  function BiasParams(sd: StateDict): (bs: seq<Param>)
    ensures |bs| <= |sd|
  {
    if sd == [] then []
    else
      var init, last := sd[..|sd| - 1], sd[|sd| - 1];
      assert sd == init + [last];
      BiasParams(init) + (if IsBias(last) then [last] else [])
  }

  /** The parameters the edge pass visits: those whose name contains "weight", in order. */
  function WeightParams(sd: StateDict): (ws: seq<Param>)
    ensures |ws| <= |sd|
  {
    if sd == [] then []
    else
      var init, last := sd[..|sd| - 1], sd[|sd| - 1];
      assert sd == init + [last];
      WeightParams(init) + (if IsWeight(last) then [last] else [])
  }

  /** The parameters seen after the first k items are a prefix of those seen overall. */
  lemma {:induction false} ParamsPrefix(sd: StateDict, k: nat)
    requires k <= |sd|
    ensures BiasParams(sd[..k]) <= BiasParams(sd)
    ensures WeightParams(sd[..k]) <= WeightParams(sd)
    decreases |sd| - k
  {
    if k < |sd| {
      ParamsPrefix(sd, k + 1);
      ParamsStep(sd, k);
    } else {
      assert sd[..k] == sd;
    }
  }

  /** Visiting item k extends the filtered lists by that item exactly when its name matches. */
  lemma ParamsStep(sd: StateDict, k: nat)
    requires k < |sd|
    ensures BiasParams(sd[..k + 1]) == BiasParams(sd[..k]) + (if IsBias(sd[k]) then [sd[k]] else [])
    ensures WeightParams(sd[..k + 1]) == WeightParams(sd[..k]) + (if IsWeight(sd[k]) then [sd[k]] else [])
  {
    assert sd[..k + 1][..k] == sd[..k];
  }

  /** `len(values.tolist())`: the number of top-level entries of a tensor. */
  function Len(t: Tensor): nat
  {
    match t
    case Vector(es) => |es|
    case Matrix(rs) => |rs|
  }

  /** The tensor has `rows` rows of `cols` entries each (torch's [out, in] shape of a Linear weight). */
  predicate ShapeIs(t: Tensor, rows: nat, cols: nat)
  {
    t.Matrix? && |t.rows| == rows && forall j | 0 <= j < |t.rows| :: |t.rows[j]| == cols
  }

  function LayerWidths(bs: seq<Param>): (ws: seq<nat>)
    ensures |ws| == |bs|
  {
    seq(|bs|, j requires 0 <= j < |bs| => Len(bs[j].values))
  }

  predicate HasInputWidth(sd: StateDict)
  {
    sd != [] && sd[0].values.Matrix? && |sd[0].values.rows| > 0
  }

  /** `len(input_weights[0])`: the width of the first row of the first tensor. */
  function InputWidth(sd: StateDict): nat
    requires HasInputWidth(sd)
  {
    |sd[0].values.rows[0]|
  }

  /** Layer widths: the input layer, then one layer per bias tensor. */
  function Widths(sd: StateDict): (ws: seq<nat>)
    requires HasInputWidth(sd)
    ensures |ws| == |BiasParams(sd)| + 1 && ws[0] == InputWidth(sd)
  {
    [InputWidth(sd)] + LayerWidths(BiasParams(sd))
  }

  predicate AllVectors(bs: seq<Param>)
  {
    forall p | p in bs :: p.values.Vector?
  }

  /**
    What the encoders take for granted: a first tensor with at least one
    row, bias tensors that are vectors, and as many weight tensors as bias
    tensors, the k-th shaped [width of layer k+1, width of layer k].
  */
  predicate WellFormed(sd: StateDict)
  {
    && HasInputWidth(sd)
    && AllVectors(BiasParams(sd))
    && |WeightParams(sd)| == |BiasParams(sd)|
    && forall k {:trigger WeightParams(sd)[k]} | 0 <= k < |WeightParams(sd)| ::
         ShapeIs(WeightParams(sd)[k].values, Widths(sd)[k + 1], Widths(sd)[k])
  }

  /** The first id of a layer is one past the sum of the widths before it. */
  function Start(ws: seq<nat>, l: nat): nat
    requires l <= |ws|
  {
    Sum(ws[..l])
  }

  function IdRange(lo: int, n: nat): (ids: seq<int>)
    ensures |ids| == n
  {
    seq(n, i requires 0 <= i < n => lo + 1 + i)
  }

  /** `node_ids`: the ids of each layer, consecutive, starting at 1. */
  function LayerIds(ws: seq<nat>): (ids: seq<seq<int>>)
    ensures |ids| == |ws|
  {
    seq(|ws|, l requires 0 <= l < |ws| => IdRange(Start(ws, l), ws[l]))
  }

  function NodeIds(sd: StateDict): seq<seq<int>>
    requires HasInputWidth(sd)
  {
    LayerIds(Widths(sd))
  }

  function InputNodeRows(n: nat): (rows: seq<Node>)
    ensures |rows| == n
  {
    seq(n, i requires 0 <= i < n => Node(i + 1, 0.0, Label("input", i)))
  }

  function BiasLayerRows(p: Param, id0: int): (rows: seq<Node>)
    requires p.values.Vector?
    ensures |rows| == |p.values.entries|
  {
    seq(|p.values.entries|, i requires 0 <= i < |p.values.entries| =>
      Node(id0 + 1 + i, p.values.entries[i], Label(p.name, i)))
  }

  /** The node rows of the bias layers, the first of them numbered from `id0 + 1`. */
  function HiddenNodeRows(bs: seq<Param>, id0: int): (rows: seq<Node>)
    requires AllVectors(bs)
    ensures |rows| == Sum(LayerWidths(bs))
  {
    if bs == [] then []
    else
      var init, last := bs[..|bs| - 1], bs[|bs| - 1];
      assert LayerWidths(bs) == LayerWidths(init) + [Len(last.values)];
      SumAppend(LayerWidths(init), Len(last.values));
      HiddenNodeRows(init, id0) + BiasLayerRows(last, id0 + Sum(LayerWidths(init)))
  }

  /** The node relation the encoders produce: one row per unit of every layer. */
  function NodeRows(sd: StateDict): (rows: seq<Node>)
    requires WellFormed(sd)
    ensures |rows| == Sum(Widths(sd))
  {
    SumPrepend(InputWidth(sd), LayerWidths(BiasParams(sd)));
    InputNodeRows(InputWidth(sd)) + HiddenNodeRows(BiasParams(sd), InputWidth(sd))
  }

  /** The edges leaving one node: one per node of the next layer, weight `w[t][f]`. */
  function FromNodeEdges(w: seq<seq<real>>, f: nat, src: int, dsts: seq<int>): (es: seq<Edge>)
    requires |w| == |dsts| && forall t | 0 <= t < |w| :: f < |w[t]|
    ensures |es| == |dsts|
  {
    seq(|dsts|, t requires 0 <= t < |dsts| => Edge(src, dsts[t], w[t][f]))
  }

  /** `w` has `rows` rows, each with at least `cols` entries. */
  predicate Covers(w: seq<seq<real>>, rows: nat, cols: nat)
  {
    |w| == rows && forall j | 0 <= j < |w| :: cols <= |w[j]|
  }

  /** The complete bipartite edge set between two layers, from-major and to-minor. */
  function BoundaryEdges(w: seq<seq<real>>, srcs: seq<int>, dsts: seq<int>): (es: seq<Edge>)
    requires Covers(w, |dsts|, |srcs|)
    ensures |es| == |srcs| * |dsts|
  {
    if srcs == [] then []
    else
      var f := |srcs| - 1;
      assert (f + 1) * |dsts| == f * |dsts| + |dsts|;
      BoundaryEdges(w, srcs[..f], dsts) + FromNodeEdges(w, f, srcs[f], dsts)
  }

  /** The layer ids fit the weight tensors: tensor k is shaped [|ids[k+1]|, |ids[k]|]. */
  predicate IdsFit(ws: seq<Param>, ids: seq<seq<int>>)
  {
    |ids| > |ws| && forall k {:trigger ws[k]} | 0 <= k < |ws| :: ShapeIs(ws[k].values, |ids[k + 1]|, |ids[k]|)
  }

  /** The edge relation, boundary by boundary, for the given weight tensors and layer ids. */
  function EdgeRows(ws: seq<Param>, ids: seq<seq<int>>): (es: seq<Edge>)
    requires IdsFit(ws, ids)
    ensures |es| == Products(Sizes(ids), |ws|)
  {
    if ws == [] then []
    else
      var k := |ws| - 1;
      assert ShapeIs(ws[k].values, |ids[k + 1]|, |ids[k]|);
      EdgeRows(ws[..k], ids) + BoundaryEdges(ws[k].values.rows, ids[k], ids[k + 1])
  }

  lemma NodeIdsFit(sd: StateDict)
    requires WellFormed(sd)
    ensures IdsFit(WeightParams(sd), NodeIds(sd))
  {
  }

  /** The edge relation the encoders produce for a well-formed state dict. */
  function EdgesOf(sd: StateDict): (es: seq<Edge>)
    requires WellFormed(sd)
    ensures |es| == Products(Widths(sd), |Widths(sd)| - 1)
  {
    NodeIdsFit(sd);
    assert Sizes(NodeIds(sd)) == Widths(sd);
    EdgeRows(WeightParams(sd), NodeIds(sd))
  }

  // ---------------------------------------------------------------------------
  // One step of the encoders' walk over the state dict
  // ---------------------------------------------------------------------------

  lemma IdsFitPrefix(ws: seq<Param>, p: seq<Param>, ids: seq<seq<int>>)
    requires p <= ws && IdsFit(ws, ids)
    ensures IdsFit(p, ids)
  {
    forall k | 0 <= k < |p| ensures ShapeIs(p[k].values, |ids[k + 1]|, |ids[k]|) {
      assert p[k] == ws[k];
    }
  }

  /**
    Visiting a weight tensor: it is the next weight tensor, it fits the next
    two layers of ids, and the edge relation grows by its bipartite block.
  */
  lemma WeightStep(sd: StateDict, k: nat, ids: seq<seq<int>>)
    requires k < |sd| && IsWeight(sd[k]) && IdsFit(WeightParams(sd), ids)
    ensures WeightParams(sd[..k]) <= WeightParams(sd) && WeightParams(sd[..k + 1]) <= WeightParams(sd)
    ensures WeightParams(sd[..k + 1]) == WeightParams(sd[..k]) + [sd[k]]
    ensures IdsFit(WeightParams(sd[..k]), ids) && IdsFit(WeightParams(sd[..k + 1]), ids)
    ensures |WeightParams(sd[..k])| + 1 < |ids|
    ensures ShapeIs(sd[k].values, |ids[|WeightParams(sd[..k])| + 1]|, |ids[|WeightParams(sd[..k])|]|)
    ensures EdgeRows(WeightParams(sd[..k + 1]), ids)
         == EdgeRows(WeightParams(sd[..k]), ids)
          + BoundaryEdges(sd[k].values.rows, ids[|WeightParams(sd[..k])|], ids[|WeightParams(sd[..k])| + 1])
  {
    ParamsStep(sd, k);
    ParamsPrefix(sd, k);
    ParamsPrefix(sd, k + 1);
    var ws := WeightParams(sd[..k + 1]);
    var l := |WeightParams(sd[..k])|;
    IdsFitPrefix(WeightParams(sd), ws, ids);
    IdsFitPrefix(WeightParams(sd), WeightParams(sd[..k]), ids);
    assert ws[l] == sd[k];
    assert ws[..l] == WeightParams(sd[..k]);
  }

  /** Visiting any other parameter leaves the weight tensors seen so far unchanged. */
  lemma NonWeightStep(sd: StateDict, k: nat)
    requires k < |sd| && !IsWeight(sd[k])
    ensures WeightParams(sd[..k + 1]) == WeightParams(sd[..k])
  {
    ParamsStep(sd, k);
    assert WeightParams(sd[..k]) + [] == WeightParams(sd[..k]);
  }

  /** Visiting a bias tensor: it is a vector and the next bias tensor. */
  lemma BiasStep(sd: StateDict, k: nat)
    requires k < |sd| && IsBias(sd[k]) && AllVectors(BiasParams(sd))
    ensures AllVectors(BiasParams(sd[..k]))
    ensures sd[k].values.Vector?
    ensures BiasParams(sd[..k + 1]) == BiasParams(sd[..k]) + [sd[k]]
  {
    var all, seen := BiasParams(sd), BiasParams(sd[..k]);
    assert BiasParams(sd[..k + 1]) == seen + [sd[k]] by {
      ParamsStep(sd, k);
    }
    assert seen + [sd[k]] <= all by {
      ParamsPrefix(sd, k + 1);
    }
    assert seen <= all && all[|seen|] == sd[k];
    assert sd[k] in all;
    AllVectorsPrefix(all, seen);
  }

  lemma AllVectorsPrefix(bs: seq<Param>, p: seq<Param>)
    requires p <= bs && AllVectors(bs)
    ensures AllVectors(p)
  {
    forall q | q in p ensures q.values.Vector? {
      var j :| 0 <= j < |p| && p[j] == q;
      assert bs[j] == q;
    }
  }

  /**
    Adding a bias layer extends the node rows by that layer, numbered after
    every unit seen so far, and node_ids by that layer's ids.
  */
  lemma BiasLayerAppend(bs: seq<Param>, p: Param, w0: nat, id0: nat)
    requires AllVectors(bs) && p.values.Vector? && id0 == w0 + Sum(LayerWidths(bs))
    ensures AllVectors(bs + [p])
    ensures HiddenNodeRows(bs + [p], w0) == HiddenNodeRows(bs, w0) + BiasLayerRows(p, id0)
    ensures w0 + Sum(LayerWidths(bs + [p])) == id0 + |p.values.entries|
    ensures LayerIds([w0] + LayerWidths(bs + [p])) == LayerIds([w0] + LayerWidths(bs)) + [IdRange(id0, |p.values.entries|)]
  {
    assert AllVectors(bs + [p]);
    assert HiddenNodeRows(bs + [p], w0) == HiddenNodeRows(bs, w0) + BiasLayerRows(p, id0) by {
      HiddenNodeRowsAppend(bs, p, w0, id0);
    }
    var n := |p.values.entries|;
    var ws, ws' := [w0] + LayerWidths(bs), [w0] + LayerWidths(bs + [p]);
    assert LayerWidths(bs + [p]) == LayerWidths(bs) + [n];
    assert ws' == ws + [n];
    assert Sum(LayerWidths(bs + [p])) == Sum(LayerWidths(bs)) + n by {
      SumAppend(LayerWidths(bs), n);
    }
    assert Sum(ws) == id0 by {
      SumPrepend(w0, LayerWidths(bs));
    }
    LayerIdsAppend(ws, n);
  }

  /** One more layer width adds one more id range, numbered after all earlier ids. */
  lemma LayerIdsAppend(ws: seq<nat>, n: nat)
    ensures LayerIds(ws + [n]) == LayerIds(ws) + [IdRange(Sum(ws), n)]
  {
    var ws' := ws + [n];
    assert ws'[..|ws|] == ws;
    forall l | 0 <= l < |ws| ensures ws'[..l] == ws[..l] {
    }
  }

  lemma HiddenNodeRowsAppend(bs: seq<Param>, p: Param, w0: nat, id0: nat)
    requires AllVectors(bs + [p]) && id0 == w0 + Sum(LayerWidths(bs))
    ensures AllVectors(bs)
    ensures HiddenNodeRows(bs + [p], w0) == HiddenNodeRows(bs, w0) + BiasLayerRows(p, id0)
  {
    var bs' := bs + [p];
    assert bs'[..|bs'| - 1] == bs;
    assert bs'[|bs'| - 1] == p;
  }

  /** Visiting any other parameter leaves the bias tensors seen so far unchanged. */
  lemma NonBiasStep(sd: StateDict, k: nat)
    requires k < |sd| && !IsBias(sd[k])
    ensures BiasParams(sd[..k + 1]) == BiasParams(sd[..k])
  {
    ParamsStep(sd, k);
    assert BiasParams(sd[..k]) + [] == BiasParams(sd[..k]);
  }

  // ---------------------------------------------------------------------------
  // Arithmetic on prefix sums and products
  // ---------------------------------------------------------------------------

  lemma {:induction false} SumPrepend(w: nat, ws: seq<nat>)
    ensures Sum([w] + ws) == w + Sum(ws)
    decreases |ws|
  {
    if ws != [] {
      var init, last := ws[..|ws| - 1], ws[|ws| - 1];
      assert ([w] + ws)[..|[w] + ws| - 1] == [w] + init;
      SumPrepend(w, init);
    }
  }

  lemma PrefixSumStep(ws: seq<nat>, j: nat)
    requires j < |ws|
    ensures Sum(ws[..j + 1]) == Sum(ws[..j]) + ws[j]
  {
    assert ws[..j + 1][..j] == ws[..j];
  }

  lemma {:induction false} PrefixSumMono(ws: seq<nat>, a: nat, b: nat)
    requires a <= b <= |ws|
    ensures Sum(ws[..a]) <= Sum(ws[..b])
    decreases b - a
  {
    if a < b {
      PrefixSumStep(ws, a);
      PrefixSumMono(ws, a + 1, b);
    }
  }

  lemma MulMono(a: nat, b: nat, m: nat)
    requires a <= b
    ensures a * m <= b * m
  {
  }

  /** Sum over the boundaries k < n of |layer k| * |layer k+1|. */
  function Products(ws: seq<nat>, n: nat): nat
    requires n < |ws| || n == 0
  {
    if n == 0 then 0 else Products(ws, n - 1) + ws[n - 1] * ws[n]
  }

  function Sizes(ids: seq<seq<int>>): (ws: seq<nat>)
    ensures |ws| == |ids|
  {
    seq(|ids|, k requires 0 <= k < |ids| => |ids[k]|)
  }

  // ---------------------------------------------------------------------------
  // Node relation
  // ---------------------------------------------------------------------------

  /** The row the encoders emit for position i of layer l. */
  function ExpectedNode(sd: StateDict, l: nat, i: nat): Node
    requires WellFormed(sd) && l < |Widths(sd)| && i < Widths(sd)[l]
  {
    var id := Start(Widths(sd), l) + i + 1;
    if l == 0 then Node(id, 0.0, Label("input", i))
    else
      var p := BiasParams(sd)[l - 1];
      assert p in BiasParams(sd);
      Node(id, p.values.entries[i], Label(p.name, i))
  }

  lemma {:induction false} HiddenNodeRowsAt(bs: seq<Param>, id0: int, j: nat, i: nat)
    requires AllVectors(bs) && j < |bs|
    requires bs[j].values.Vector? && i < |bs[j].values.entries|
    ensures Sum(LayerWidths(bs)[..j]) + i < |HiddenNodeRows(bs, id0)|
    ensures HiddenNodeRows(bs, id0)[Sum(LayerWidths(bs)[..j]) + i]
         == Node(id0 + Sum(LayerWidths(bs)[..j]) + i + 1, bs[j].values.entries[i], Label(bs[j].name, i))
    decreases |bs|
  {
    var init, last := bs[..|bs| - 1], bs[|bs| - 1];
    assert LayerWidths(bs) == LayerWidths(init) + [Len(last.values)];
    assert LayerWidths(bs)[..j] == LayerWidths(init)[..j];
    var a, b := HiddenNodeRows(init, id0), BiasLayerRows(last, id0 + Sum(LayerWidths(init)));
    assert HiddenNodeRows(bs, id0) == a + b;
    if j == |bs| - 1 {
      assert LayerWidths(init)[..j] == LayerWidths(init);
      AppendAt(a, b, i);
    } else {
      assert init[j] == bs[j] && bs[j] in init;
      HiddenNodeRowsAt(init, id0, j, i);
      AppendBefore(a, b, Sum(LayerWidths(bs)[..j]) + i);
    }
  }

  lemma {:induction false} HiddenNodeRowIds(bs: seq<Param>, id0: int, p: nat)
    requires AllVectors(bs) && p < |HiddenNodeRows(bs, id0)|
    ensures HiddenNodeRows(bs, id0)[p].id == id0 + 1 + p
    decreases |bs|
  {
    var init, last := bs[..|bs| - 1], bs[|bs| - 1];
    if p >= |HiddenNodeRows(init, id0)| {
      assert LayerWidths(bs) == LayerWidths(init) + [Len(last.values)];
    } else {
      HiddenNodeRowIds(init, id0, p);
    }
  }

  /** Node ids are 1, 2, 3, ... in emission order, one per unit of every layer. */
  lemma NodeRowIds(sd: StateDict)
    requires WellFormed(sd)
    ensures forall p | 0 <= p < |NodeRows(sd)| :: NodeRows(sd)[p].id == p + 1
  {
    var w0 := InputWidth(sd);
    forall p | 0 <= p < |NodeRows(sd)| ensures NodeRows(sd)[p].id == p + 1 {
      if p >= w0 {
        HiddenNodeRowIds(BiasParams(sd), w0, p - w0);
      }
    }
  }

  /**
    Position Start(l) + i of the node relation holds unit i of layer l:
    bias 0 and name `input.<i>` in the input layer, the i-th entry of the
    l-th bias tensor and name `<param>.<i>` in the later layers.
  */
  lemma NodeRowAt(sd: StateDict, l: nat, i: nat)
    requires WellFormed(sd) && l < |Widths(sd)| && i < Widths(sd)[l]
    ensures Start(Widths(sd), l) + i < |NodeRows(sd)|
    ensures NodeRows(sd)[Start(Widths(sd), l) + i] == ExpectedNode(sd, l, i)
  {
    if l > 0 {
      HiddenNodeRowAt(sd, l, i);
    } else {
      assert Widths(sd)[..0] == [];
    }
  }

  lemma HiddenNodeRowAt(sd: StateDict, l: nat, i: nat)
    requires WellFormed(sd) && 0 < l < |Widths(sd)| && i < Widths(sd)[l]
    ensures Start(Widths(sd), l) + i < |NodeRows(sd)|
    ensures NodeRows(sd)[Start(Widths(sd), l) + i] == ExpectedNode(sd, l, i)
  {
    var ws, bs, w0 := Widths(sd), BiasParams(sd), InputWidth(sd);
    assert ws[..l] == [w0] + LayerWidths(bs)[..l - 1];
    SumPrepend(w0, LayerWidths(bs)[..l - 1]);
    assert bs[l - 1] in bs;
    HiddenNodeRowsAt(bs, w0, l - 1, i);
  }

  /** Every id of an earlier layer is below every id of a later layer. */
  lemma LayerIdsOrdered(ws: seq<nat>, j: nat, k: nat, a: nat, b: nat)
    requires j < k < |ws| && a < ws[j] && b < ws[k]
    ensures LayerIds(ws)[j][a] < LayerIds(ws)[k][b]
  {
    PrefixSumStep(ws, j);
    PrefixSumMono(ws, j + 1, k);
  }

  /** Within a layer, the ids are consecutive and therefore distinct. */
  lemma LayerIdsSpan(ws: seq<nat>, l: nat, a: nat)
    requires l < |ws| && a < ws[l]
    ensures LayerIds(ws)[l][a] == Start(ws, l) + a + 1
    ensures 0 < LayerIds(ws)[l][a] <= Sum(ws)
  {
    PrefixSumStep(ws, l);
    PrefixSumMono(ws, l + 1, |ws|);
    assert ws[..|ws|] == ws;
  }

  /** The recorded node_ids agree with the ids of the emitted node rows. */
  lemma NodeIdsMatchRows(sd: StateDict, l: nat, i: nat)
    requires WellFormed(sd) && l < |Widths(sd)| && i < Widths(sd)[l]
    ensures Start(Widths(sd), l) + i < |NodeRows(sd)|
    ensures NodeRows(sd)[Start(Widths(sd), l) + i].id == NodeIds(sd)[l][i]
  {
    NodeRowAt(sd, l, i);
  }

  // ---------------------------------------------------------------------------
  // Edge relation
  // ---------------------------------------------------------------------------

  /** The edge at position f * |dsts| + t joins source f to destination t with weight w[t][f]. */
  lemma {:induction false} BoundaryEdgeAt(w: seq<seq<real>>, srcs: seq<int>, dsts: seq<int>, f: nat, t: nat)
    requires Covers(w, |dsts|, |srcs|) && f < |srcs| && t < |dsts|
    ensures f < |w[t]|
    ensures f * |dsts| + t < |BoundaryEdges(w, srcs, dsts)|
    ensures BoundaryEdges(w, srcs, dsts)[f * |dsts| + t] == Edge(srcs[f], dsts[t], w[t][f])
    decreases |srcs|
  {
    var n := |srcs| - 1;
    if f < n {
      MulMono(f + 1, n, |dsts|);
      assert (f + 1) * |dsts| == f * |dsts| + |dsts|;
      BoundaryEdgeAt(w, srcs[..n], dsts, f, t);
    }
  }

  lemma {:induction false} BoundaryEdgeMember(w: seq<seq<real>>, srcs: seq<int>, dsts: seq<int>, e: Edge)
    requires Covers(w, |dsts|, |srcs|)
    ensures e in BoundaryEdges(w, srcs, dsts) <==>
      exists f, t | 0 <= f < |srcs| && 0 <= t < |dsts| :: f < |w[t]| && e == Edge(srcs[f], dsts[t], w[t][f])
    decreases |srcs|
  {
    if srcs != [] {
      var n := |srcs| - 1;
      BoundaryEdgeMember(w, srcs[..n], dsts, e);
      if e in BoundaryEdges(w, srcs, dsts) {
        if e !in BoundaryEdges(w, srcs[..n], dsts) {
          var t :| 0 <= t < |dsts| && FromNodeEdges(w, n, srcs[n], dsts)[t] == e;
          assert n < |w[t]| && e == Edge(srcs[n], dsts[t], w[t][n]);
        }
      } else {
        forall f, t | 0 <= f < |srcs| && 0 <= t < |dsts| && f < |w[t]|
          ensures e != Edge(srcs[f], dsts[t], w[t][f])
        {
          if f == n {
            assert FromNodeEdges(w, n, srcs[n], dsts)[t] == Edge(srcs[f], dsts[t], w[t][f]);
          } else {
            assert srcs[..n][f] == srcs[f];
          }
        }
      }
    }
  }

  function WeightAt(p: Param, t: nat, f: nat): real
    requires p.values.Matrix? && t < |p.values.rows| && f < |p.values.rows[t]|
  {
    p.values.rows[t][f]
  }

  /** `e` joins unit f of layer k to unit t of layer k+1 and carries `weight_tensor[t][f]`. */
  predicate IsBoundaryEdge(ws: seq<Param>, ids: seq<seq<int>>, k: int, f: int, t: int, e: Edge)
  {
    && 0 <= k < |ws| && k + 1 < |ids| && 0 <= f < |ids[k]| && 0 <= t < |ids[k + 1]|
    && ws[k].values.Matrix? && t < |ws[k].values.rows| && f < |ws[k].values.rows[t]|
    && e == Edge(ids[k][f], ids[k + 1][t], WeightAt(ws[k], t, f))
  }

  lemma {:induction false} EdgeRowsMember(ws: seq<Param>, ids: seq<seq<int>>, e: Edge)
    requires IdsFit(ws, ids)
    ensures e in EdgeRows(ws, ids) <==> exists k, f, t :: IsBoundaryEdge(ws, ids, k, f, t, e)
    decreases |ws|
  {
    if ws != [] {
      var k := |ws| - 1;
      var init := ws[..k];
      assert IdsFit(init, ids);
      EdgeRowsMember(init, ids, e);
      assert ShapeIs(ws[k].values, |ids[k + 1]|, |ids[k]|);
      var w := ws[k].values.rows;
      BoundaryEdgeMember(w, ids[k], ids[k + 1], e);
      assert EdgeRows(ws, ids) == EdgeRows(init, ids) + BoundaryEdges(w, ids[k], ids[k + 1]);
      if e in EdgeRows(ws, ids) {
        if e in EdgeRows(init, ids) {
          var k', f, t :| IsBoundaryEdge(init, ids, k', f, t, e);
          BoundaryEdgeOfPrefix(ws, ids, k', f, t, e);
        } else {
          var f, t :| 0 <= f < |ids[k]| && 0 <= t < |ids[k + 1]| && f < |w[t]| && e == Edge(ids[k][f], ids[k + 1][t], w[t][f]);
          assert IsBoundaryEdge(ws, ids, k, f, t, e);
        }
      }
      if exists k', f, t :: IsBoundaryEdge(ws, ids, k', f, t, e) {
        var k', f, t :| IsBoundaryEdge(ws, ids, k', f, t, e);
        if k' < k {
          BoundaryEdgeOfPrefix(ws, ids, k', f, t, e);
          assert e in EdgeRows(init, ids);
        } else {
          assert e in BoundaryEdges(w, ids[k], ids[k + 1]);
        }
      }
    }
  }

  /** Dropping the last weight tensor keeps the boundary edges of the earlier ones. */
  lemma BoundaryEdgeOfPrefix(ws: seq<Param>, ids: seq<seq<int>>, k: int, f: int, t: int, e: Edge)
    requires 0 <= k < |ws| - 1
    ensures IsBoundaryEdge(ws, ids, k, f, t, e) <==> IsBoundaryEdge(ws[..|ws| - 1], ids, k, f, t, e)
  {
    assert ws[..|ws| - 1][k] == ws[k];
  }

  /** Products(k) + f * |layer k+1| + t: the place of the edge from unit f of layer k to unit t of layer k+1. */
  function EdgePosition(ids: seq<seq<int>>, k: nat, f: nat, t: nat): nat
    requires k + 1 < |ids|
  {
    Products(Sizes(ids), k) + f * |ids[k + 1]| + t
  }

  /**
    The edge relation is laid out boundary by boundary, from-major and
    to-minor: position Products(k) + f * |layer k+1| + t holds the edge from
    unit f of layer k to unit t of layer k+1, with weight tensor entry [t][f].
  */
  lemma {:induction false} EdgeRowAt(ws: seq<Param>, ids: seq<seq<int>>, k: nat, f: nat, t: nat)
    requires IdsFit(ws, ids) && k < |ws| && f < |ids[k]| && t < |ids[k + 1]|
    ensures ws[k].values.Matrix? && t < |ws[k].values.rows| && f < |ws[k].values.rows[t]|
    ensures EdgePosition(ids, k, f, t) < |EdgeRows(ws, ids)|
    ensures EdgeRows(ws, ids)[EdgePosition(ids, k, f, t)] == Edge(ids[k][f], ids[k + 1][t], WeightAt(ws[k], t, f))
    decreases |ws|
  {
    if k == |ws| - 1 {
      LastBoundaryAt(ws, ids, k, f, t);
    } else {
      var init := ws[..|ws| - 1];
      assert IdsFit(init, ids) && init[k] == ws[k];
      EdgeRowAt(init, ids, k, f, t);
      EdgeRowsPrefixAt(ws, ids, EdgePosition(ids, k, f, t));
    }
  }

  /** Every edge of the relation up to the last tensor keeps its position in the whole relation. */
  lemma EdgeRowsPrefixAt(ws: seq<Param>, ids: seq<seq<int>>, p: nat)
    requires IdsFit(ws, ids) && ws != []
    requires IdsFit(ws[..|ws| - 1], ids) && p < |EdgeRows(ws[..|ws| - 1], ids)|
    ensures p < |EdgeRows(ws, ids)| && EdgeRows(ws, ids)[p] == EdgeRows(ws[..|ws| - 1], ids)[p]
  {
    var init := EdgeRows(ws[..|ws| - 1], ids);
    EdgeRowsSnoc(ws, ids);
    AppendBefore(init, EdgeRows(ws, ids)[|init|..], p);
  }

  /** The relation up to the last tensor is followed by the last tensor's block. */
  lemma EdgeRowsSnoc(ws: seq<Param>, ids: seq<seq<int>>)
    requires IdsFit(ws, ids) && ws != []
    ensures IdsFit(ws[..|ws| - 1], ids) && ShapeIs(ws[|ws| - 1].values, |ids[|ws|]|, |ids[|ws| - 1]|)
    ensures EdgeRows(ws, ids) == EdgeRows(ws[..|ws| - 1], ids) + BoundaryEdges(ws[|ws| - 1].values.rows, ids[|ws| - 1], ids[|ws|])
  {
    var n := |ws| - 1;
    assert IdsFit(ws[..n], ids);
    assert ShapeIs(ws[n].values, |ids[n + 1]|, |ids[n]|);
  }

  /** The block of the last weight tensor, the n-th, comes after all earlier ones. */
  lemma LastBoundaryAt(ws: seq<Param>, ids: seq<seq<int>>, n: nat, f: nat, t: nat)
    requires IdsFit(ws, ids) && |ws| == n + 1 && f < |ids[n]| && t < |ids[n + 1]|
    ensures Products(Sizes(ids), n) + f * |ids[n + 1]| + t < |EdgeRows(ws, ids)|
    ensures ws[n].values.Matrix? && t < |ws[n].values.rows| && f < |ws[n].values.rows[t]|
    ensures EdgeRows(ws, ids)[Products(Sizes(ids), n) + f * |ids[n + 1]| + t]
         == Edge(ids[n][f], ids[n + 1][t], WeightAt(ws[n], t, f))
  {
    EdgeRowsSnoc(ws, ids);
    BoundaryEdgeAt(ws[n].values.rows, ids[n], ids[n + 1], f, t);
    AppendAt(EdgeRows(ws[..n], ids), BoundaryEdges(ws[n].values.rows, ids[n], ids[n + 1]), f * |ids[n + 1]| + t);
  }

  /**
    Every encoded edge runs from layer k to layer k+1 of node_ids, and every
    (from, to) pair of consecutive layers has an edge carrying the
    transposed weight-tensor entry.
  */
  lemma EdgesOfMember(sd: StateDict, e: Edge)
    requires WellFormed(sd)
    ensures IdsFit(WeightParams(sd), NodeIds(sd))
    ensures e in EdgesOf(sd) <==> exists k, f, t :: IsBoundaryEdge(WeightParams(sd), NodeIds(sd), k, f, t, e)
  {
    NodeIdsFit(sd);
    assert EdgesOf(sd) == EdgeRows(WeightParams(sd), NodeIds(sd));
    EdgeRowsMember(WeightParams(sd), NodeIds(sd), e);
  }

  /** Input-layer ids are never a `dst`; last-layer ids are never a `src`. */
  lemma EdgeEndpoints(sd: StateDict, e: Edge)
    requires WellFormed(sd) && e in EdgesOf(sd)
    ensures e.dst > InputWidth(sd)
    ensures e.src <= Sum(Widths(sd)) - Widths(sd)[|Widths(sd)| - 1]
  {
    var ws := Widths(sd);
    var last := |ws| - 1;
    assert ws[..last + 1] == ws;
    assert Sum(ws[..1]) == ws[0] by {
      assert ws[..1] == [ws[0]];
      assert ws[..1][..0] == [];
    }
    EdgesOfMember(sd, e);
    var k, f, t :| IsBoundaryEdge(WeightParams(sd), NodeIds(sd), k, f, t, e);
    LayerIdsSpan(ws, k, f);
    LayerIdsSpan(ws, k + 1, t);
    PrefixSumMono(ws, 1, k + 1);
    PrefixSumStep(ws, k);
    PrefixSumMono(ws, k + 1, last);
    PrefixSumStep(ws, last);
  }
}
