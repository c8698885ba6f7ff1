/**
  The multi-model evaluation page: one image is run through every stored
  model at once. The forward-pass query returns, per model, its output
  values; the page groups them by model name, turns each group into
  log-softmax values, and reports per model the first maximal position and a
  confidence, sorted by model id. `pivot` reshapes that report into one row
  per metric and one column per model.

  Log-softmax and the confidence `max(exp(...))` are floating-point
  transcendental functions: here they are parameters, applied to a group's
  output values and only passed through or compared.
*/
module MultimodelEval {
  import opened Common
  import opened Sorting
  import opened EvalDriver

  /** A row of the multi-model forward pass (columns id, name, output_value). */
  datatype OutputRow = OutputRow(modelId: int, name: string, outputValue: real)

  /** A row of the report: Model ID, Model name, Prediction, Confidence. */
  datatype Prediction = Prediction(modelId: int, modelName: string, prediction: nat, confidence: real)

  /** Entry i of the log-softmax of a group, given the group's output values. */
  type LogSoftmax = (seq<real>, nat) -> real

  // ---------------------------------------------------------------------------
  // Grouping by model name
  // ---------------------------------------------------------------------------

  /** The distinct model names, in order of first appearance. */
  function Names(rows: seq<OutputRow>): (names: seq<string>)
    ensures forall a, b | 0 <= a < b < |names| :: names[a] != names[b]
    ensures forall n :: n in names <==> exists r | r in rows :: r.name == n
  {
    if rows == [] then []
    else
      var init, last := rows[..|rows| - 1], rows[|rows| - 1];
      assert rows == init + [last];
      Names(init) + (if last.name in Names(init) then [] else [last.name])
  }

  /** The rows of one name group, in row order. */
  function GroupRows(rows: seq<OutputRow>, name: string): (g: seq<OutputRow>)
    ensures forall r | r in g :: r in rows && r.name == name
    ensures g == [] <==> forall r | r in rows :: r.name != name
  {
    if rows == [] then []
    else
      var init, last := rows[..|rows| - 1], rows[|rows| - 1];
      assert rows == init + [last];
      GroupRows(init, name) + (if last.name == name then [last] else [])
  }

  function OutputValues(g: seq<OutputRow>): (vs: seq<real>)
    ensures |vs| == |g|
  {
    seq(|g|, i requires 0 <= i < |g| => g[i].outputValue)
  }

  /** `groupby("name")["output_value"].transform(log_softmax)` on one group. */
  function Column(logSoftmax: LogSoftmax, values: seq<real>): (col: seq<real>)
    ensures |col| == |values|
  {
    seq(|values|, i requires 0 <= i < |values| => logSoftmax(values, i))
  }

  /**
    The report row of one group: model id and name from its first row, the
    first maximal log-softmax position as the prediction, and the confidence.
  */
  function PredictionOf(g: seq<OutputRow>, logSoftmax: LogSoftmax, confidence: seq<real> -> real): (p: Prediction)
    requires g != []
    ensures p.modelId == g[0].modelId && p.modelName == g[0].name
    ensures Some(p.prediction) == FirstArgMax(Column(logSoftmax, OutputValues(g)))
  {
    var col := Column(logSoftmax, OutputValues(g));
    Prediction(g[0].modelId, g[0].name, GroupDigit(col), confidence(col))
  }

  /** Every name in `names` labels some row. */
  ghost predicate AllOccur(rows: seq<OutputRow>, names: seq<string>)
  {
    forall n | n in names :: exists r | r in rows :: r.name == n
  }

  /** One report row per name group, in group order. */
  function Predictions(rows: seq<OutputRow>, names: seq<string>, logSoftmax: LogSoftmax, confidence: seq<real> -> real): (ps: seq<Prediction>)
    requires AllOccur(rows, names)
    ensures |ps| == |names|
  {
    if names == [] then []
    else
      var init, last := names[..|names| - 1], names[|names| - 1];
      assert last in names;
      assert forall n | n in init :: n in names;
      Predictions(rows, init, logSoftmax, confidence) + [PredictionOf(GroupRows(rows, last), logSoftmax, confidence)]
  }

  lemma {:induction false} PredictionsAt(rows: seq<OutputRow>, names: seq<string>, logSoftmax: LogSoftmax, confidence: seq<real> -> real, k: nat)
    requires AllOccur(rows, names)
    requires k < |names|
    ensures GroupRows(rows, names[k]) != []
    ensures Predictions(rows, names, logSoftmax, confidence)[k] == PredictionOf(GroupRows(rows, names[k]), logSoftmax, confidence)
    decreases |names|
  {
    assert names[k] in names;
    if k < |names| - 1 {
      var init := names[..|names| - 1];
      assert forall n | n in init :: n in names;
      PredictionsAt(rows, init, logSoftmax, confidence, k);
    }
  }

  /** The `for df in [group for _, group in results_df.groupby("name")]` loop. */
  method BuildPredictions(rows: seq<OutputRow>, logSoftmax: LogSoftmax, confidence: seq<real> -> real) returns (ps: seq<Prediction>)
    ensures ps == Predictions(rows, Names(rows), logSoftmax, confidence)
  {
    var names := Names(rows);
    assert AllOccur(rows, names);
    ps := [];
    for k := 0 to |names|
      invariant AllOccur(rows, names[..k])
      invariant ps == Predictions(rows, names[..k], logSoftmax, confidence)
    {
      var g := GroupRows(rows, names[k]);
      PredictionsSnoc(rows, names, logSoftmax, confidence, k);
      ps := ps + [PredictionOf(g, logSoftmax, confidence)];
    }
    assert names[..|names|] == names;
  }

  /** Taking one more name appends that name's report row. */
  lemma PredictionsSnoc(rows: seq<OutputRow>, names: seq<string>, logSoftmax: LogSoftmax, confidence: seq<real> -> real, k: nat)
    requires AllOccur(rows, names) && k < |names|
    ensures AllOccur(rows, names[..k]) && AllOccur(rows, names[..k + 1]) && GroupRows(rows, names[k]) != []
    ensures Predictions(rows, names[..k + 1], logSoftmax, confidence)
         == Predictions(rows, names[..k], logSoftmax, confidence) + [PredictionOf(GroupRows(rows, names[k]), logSoftmax, confidence)]
  {
    assert names[k] in names;
    assert names[..k + 1][..k] == names[..k];
    assert forall n | n in names[..k] :: n in names;
    assert names[..k + 1] == names[..k] + [names[k]];
  }

  /**
    One report row per distinct model name, and each row is the first
    maximal log-softmax position of that name's group.
  */
  lemma PredictionPerName(rows: seq<OutputRow>, logSoftmax: LogSoftmax, confidence: seq<real> -> real, name: string)
    requires exists r | r in rows :: r.name == name
    ensures GroupRows(rows, name) != []
    ensures exists k | 0 <= k < |Names(rows)| :: (Names(rows)[k] == name &&
      var p := Predictions(rows, Names(rows), logSoftmax, confidence)[k];
      p.modelName == name && Some(p.prediction) == FirstArgMax(Column(logSoftmax, OutputValues(GroupRows(rows, name)))))
  {
    var names := Names(rows);
    assert name in names;
    var k :| 0 <= k < |names| && names[k] == name;
    PredictionsAt(rows, names, logSoftmax, confidence, k);
  }

  /** No two report rows carry the same model name. */
  lemma PredictionNamesDistinct(rows: seq<OutputRow>, logSoftmax: LogSoftmax, confidence: seq<real> -> real, a: nat, b: nat)
    requires a < b < |Names(rows)|
    ensures Predictions(rows, Names(rows), logSoftmax, confidence)[a].modelName
         != Predictions(rows, Names(rows), logSoftmax, confidence)[b].modelName
  {
    PredictionsAt(rows, Names(rows), logSoftmax, confidence, a);
    PredictionsAt(rows, Names(rows), logSoftmax, confidence, b);
  }

  // ---------------------------------------------------------------------------
  // Evaluation and sorting by model id
  // ---------------------------------------------------------------------------

  function ModelIdKey(p: Prediction): real
  {
    p.modelId as real
  }

  /** `sort_values(by="Model ID")`; among equal ids it keeps the given order. */
  function ByModelId(ps: seq<Prediction>): (sorted: seq<Prediction>)
    ensures multiset(sorted) == multiset(ps)
    ensures SortedByKey(sorted, ModelIdKey)
  {
    SortByKeySorted(ps, ModelIdKey);
    SortByKey(ps, ModelIdKey)
  }

  /**
    `eval_image_sql` of the multi-model page: truncate `input` and insert the
    image as input set 0 with no explicit transaction, run the forward pass,
    and report one row per model name, sorted by model id. For an image with
    no pixels the INSERT raises, and a failing query raises after the INSERT;
    both are None, and what the TRUNCATE and INSERT did stays in effect.
  */
  method EvalImageSql(con: Connection, image: seq<real>, evalQuery: seq<InputRow> -> Option<seq<OutputRow>>,
                      logSoftmax: LogSoftmax, confidence: seq<real> -> real)
      returns (results: Option<seq<OutputRow>>, predictions: Option<seq<Prediction>>)
    requires con.Valid()
    modifies con
    ensures con.Valid() && con.inTxn == old(con.inTxn) && con.input == ImageRows(0, image)
    ensures !con.inTxn ==> con.committedInput == ImageRows(0, image)
    ensures results == if image == [] then None else evalQuery(ImageRows(0, image))
    ensures results.None? <==> image == [] || evalQuery(ImageRows(0, image)).None?
    ensures predictions.None? <==> results.None?
    ensures results.Some? ==> predictions == Some(ByModelId(Predictions(results.value, Names(results.value), logSoftmax, confidence)))
  {
    con.Truncate();
    var rows := BuildImageRows(0, image);
    var inserted := con.Insert(rows);
    if !inserted {
      results, predictions := None, None;
      return;
    }
    results := evalQuery(con.input);
    if results.None? {
      predictions := None;
      return;
    }
    var ps := BuildPredictions(results.value, logSoftmax, confidence);
    predictions := Some(ByModelId(ps));
  }

  // ---------------------------------------------------------------------------
  // The pivot
  // ---------------------------------------------------------------------------

  /** The reshaped frame: row labels, column labels, and cells[row][column]. */
  datatype PivotTable = PivotTable(metrics: seq<string>, columns: seq<string>, cells: seq<seq<real>>)

  predicate DistinctModelIds(ps: seq<Prediction>)
  {
    forall a, b | 0 <= a < b < |ps| :: ps[a].modelId != ps[b].modelId
  }

  /**
    `pivot`: melt Prediction and Confidence into (Metric, Value) rows, then
    pivot to one row per metric (labels sorted, so Confidence before
    Prediction) and one column per model id (ascending), the columns then
    renamed to the model names in model-id order. Two rows with the same
    model id make pandas' pivot raise, modelled as None; an empty report
    gives an empty frame.
  */
  function Pivot(ps: seq<Prediction>): (r: Option<PivotTable>)
    ensures r.Some? <==> DistinctModelIds(ByModelId(ps))
  {
    var sorted := ByModelId(ps);
    if !DistinctModelIds(sorted) then None
    else
      var n := |sorted|;
      var names := seq(n, j requires 0 <= j < n => sorted[j].modelName);
      var confidences := seq(n, j requires 0 <= j < n => sorted[j].confidence);
      var predictions := seq(n, j requires 0 <= j < n => sorted[j].prediction as real);
      if n == 0 then Some(PivotTable([], [], []))
      else Some(PivotTable(["Confidence", "Prediction"], names, [confidences, predictions]))
  }

  /** Pivoting succeeds exactly when no two report rows share a model id. */
  lemma PivotDefined(ps: seq<Prediction>)
    ensures Pivot(ps).Some? <==> DistinctModelIds(ps)
  {
    var sorted := ByModelId(ps);
    if !DistinctModelIds(ps) {
      var a, b :| 0 <= a < b < |ps| && ps[a].modelId == ps[b].modelId;
      SameIdTwice(ps, sorted, a, b);
    }
    if !DistinctModelIds(sorted) {
      var a, b :| 0 <= a < b < |sorted| && sorted[a].modelId == sorted[b].modelId;
      SameIdTwice(sorted, ps, a, b);
    }
  }

  /** Two positions with one model id survive a permutation as two positions with that id. */
  lemma SameIdTwice(xs: seq<Prediction>, ys: seq<Prediction>, a: nat, b: nat)
    requires multiset(xs) == multiset(ys)
    requires a < b < |xs| && xs[a].modelId == xs[b].modelId
    ensures !DistinctModelIds(ys)
  {
    if xs[a] == xs[b] {
      var m := multiset(ys);
      assert multiset(xs) == multiset(xs[..a]) + multiset{xs[a]} + multiset(xs[a + 1..]) by {
        assert xs == xs[..a] + [xs[a]] + xs[a + 1..];
      }
      assert xs[b] in xs[a + 1..];
      assert m[xs[a]] >= 2;
      var i :| 0 <= i < |ys| && ys[i] == xs[a];
      assert multiset(ys) == multiset(ys[..i]) + multiset{ys[i]} + multiset(ys[i + 1..]) by {
        assert ys == ys[..i] + [ys[i]] + ys[i + 1..];
      }
      var j: int;
      if xs[a] in ys[..i] {
        j :| 0 <= j < i && ys[j] == xs[a];
        assert ys[j].modelId == ys[i].modelId;
      } else {
        assert xs[a] in ys[i + 1..];
        var j' :| 0 <= j' < |ys[i + 1..]| && ys[i + 1..][j'] == xs[a];
        assert ys[i + 1 + j'].modelId == ys[i].modelId;
      }
    } else {
      assert xs[a] in multiset(ys) && xs[b] in multiset(ys);
      var i :| 0 <= i < |ys| && ys[i] == xs[a];
      var j :| 0 <= j < |ys| && ys[j] == xs[b];
      if i < j {
        assert ys[i].modelId == ys[j].modelId;
      } else {
        assert ys[j].modelId == ys[i].modelId;
      }
    }
  }

  /**
    Each report row becomes one column, named by its model name, whose
    Confidence and Prediction cells are its own values.
  */
  lemma PivotCell(ps: seq<Prediction>, p: Prediction)
    requires p in ps && Pivot(ps).Some?
    ensures var t := Pivot(ps).value;
      t.metrics == ["Confidence", "Prediction"] && |t.cells| == 2 &&
      exists j | 0 <= j < |t.columns| && j < |t.cells[0]| && j < |t.cells[1]| ::
        t.columns[j] == p.modelName && t.cells[0][j] == p.confidence && t.cells[1][j] == p.prediction as real
  {
    var sorted := ByModelId(ps);
    assert p in multiset(sorted);
    var j :| 0 <= j < |sorted| && sorted[j] == p;
    var t := Pivot(ps).value;
    assert t.columns[j] == p.modelName;
  }

  /** The columns are in strictly ascending model-id order, one per report row. */
  lemma PivotColumnsAscending(ps: seq<Prediction>)
    requires Pivot(ps).Some?
    ensures |Pivot(ps).value.columns| == |ps|
    ensures forall a, b | 0 <= a < b < |ps| :: ByModelId(ps)[a].modelId < ByModelId(ps)[b].modelId
    ensures forall j | 0 <= j < |ps| :: Pivot(ps).value.columns[j] == ByModelId(ps)[j].modelName
  {
    var sorted := ByModelId(ps);
    assert |sorted| == |multiset(sorted)| == |ps|;
    forall a, b | 0 <= a < b < |ps| ensures sorted[a].modelId < sorted[b].modelId {
      assert ModelIdKey(sorted[a]) <= ModelIdKey(sorted[b]);
    }
  }
}
