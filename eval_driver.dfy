/**
  The evaluation driver of the single-model pages. An image is flattened into
  rows (input_set_id, input_id, value) of the `input` table, the forward-pass
  query (an SQL text not part of this model, here a function parameter) runs
  over them, and the predicted digit is the position of the first maximal
  `log_softmax` value. A batch of images goes in as one input set per image,
  and the zipcode page reads one digit per input set.
*/
module EvalDriver {
  import opened Common

  datatype InputRow = InputRow(inputSetId: int, inputId: int, value: real)

  /** A row of the batch forward pass: the input set it belongs to and one output's log-softmax. */
  datatype ResultRow = ResultRow(inputSetId: int, logSoftmax: real)

  /**
    A DuckDB connection as the driver uses it: the `input` table this
    connection sees, the committed `input` table, and whether an explicit
    transaction is open. Outside a transaction every statement commits at once.
  */
  class Connection {
    var inTxn: bool
    var input: seq<InputRow>
    var committedInput: seq<InputRow>

    /** Without an open transaction there is nothing uncommitted. */
    predicate Valid()
      reads this
    {
      !inTxn ==> input == committedInput
    }

    constructor (rows: seq<InputRow>)
      ensures Valid() && !inTxn && input == rows
    {
      inTxn := false;
      input, committedInput := rows, rows;
    }

    /** `BEGIN TRANSACTION`: fails with a TransactionException (ok false) when one is already open. */
    method Begin() returns (ok: bool)
      requires Valid()
      modifies this
      ensures Valid() && inTxn && ok == !old(inTxn)
      ensures input == old(input) && committedInput == old(committedInput)
    {
      ok := !inTxn;
      inTxn := true;
    }

    /** `ROLLBACK`: the open transaction's changes are discarded. */
    method Rollback()
      requires Valid() && inTxn
      modifies this
      ensures Valid() && !inTxn
      ensures input == old(committedInput) && committedInput == old(committedInput)
    {
      input := committedInput;
      inTxn := false;
    }

    /**
      The `try: BEGIN except TransactionException: ROLLBACK; BEGIN` block:
      a transaction left open by an earlier run is rolled back, and the second
      BEGIN cannot fail, so there is exactly one retry and no loop.
    */
    method BeginRetrying()
      requires Valid()
      modifies this
      ensures Valid() && inTxn
      ensures input == (if old(inTxn) then old(committedInput) else old(input))
      ensures committedInput == old(committedInput)
    {
      var ok := Begin();
      if !ok {
        Rollback();
        var retried := Begin();
        assert retried;
      }
    }

    /** `TRUNCATE input`. */
    method Truncate()
      requires Valid()
      modifies this
      ensures Valid() && inTxn == old(inTxn) && input == []
      ensures committedInput == (if inTxn then old(committedInput) else [])
    {
      input := [];
      if !inTxn {
        committedInput := [];
      }
    }

    /**
      `INSERT INTO input SELECT * FROM df`: the data frame's rows, in order.
      A frame built from no rows has no columns, and the statement fails
      (ok false) without changing anything.
    */
    method Insert(rows: seq<InputRow>) returns (ok: bool)
      requires Valid()
      modifies this
      ensures Valid() && inTxn == old(inTxn) && ok == (rows != [])
      ensures input == old(input) + rows
      ensures committedInput == (if inTxn || !ok then old(committedInput) else input)
    {
      ok := rows != [];
      if !ok {
        return;
      }
      input := input + rows;
      if !inTxn {
        committedInput := input;
      }
    }

    /** `COMMIT`. */
    method Commit()
      requires Valid() && inTxn
      modifies this
      ensures Valid() && !inTxn && input == old(input) && committedInput == input
    {
      committedInput := input;
      inTxn := false;
    }
  }

  // ---------------------------------------------------------------------------
  // Rows of the input table
  // ---------------------------------------------------------------------------

  /**
    Pixel i (0-based, flattened) of input set k is the row (k, i + 1, pixel):
    one row per pixel, each tagged with the set and naming its own pixel by
    a 1-based id.
  */
  function ImageRows(setId: int, pixels: seq<real>): (rows: seq<InputRow>)
    ensures |rows| == |pixels|
    ensures forall r | r in rows :: r.inputSetId == setId && 1 <= r.inputId <= |pixels| && r.value == pixels[r.inputId - 1]
  {
    seq(|pixels|, i requires 0 <= i < |pixels| => InputRow(setId, i + 1, pixels[i]))
  }

  /** The `for i, pixel in enumerate(image.flatten())` loop. */
  method BuildImageRows(setId: int, pixels: seq<real>) returns (rows: seq<InputRow>)
    ensures rows == ImageRows(setId, pixels)
  {
    rows := [];
    for i := 0 to |pixels|
      invariant rows == ImageRows(setId, pixels[..i])
    {
      rows := rows + [InputRow(setId, i + 1, pixels[i])];
    }
    assert pixels[..|pixels|] == pixels;
  }

  function ImageSizes(images: seq<seq<real>>): (sizes: seq<nat>)
    ensures |sizes| == |images|
  {
    if images == [] then [] else ImageSizes(images[..|images| - 1]) + [|images[|images| - 1]|]
  }

  /** Image k of the batch becomes input set k: every row names its image and a pixel of it. */
  function BatchRows(images: seq<seq<real>>): (rows: seq<InputRow>)
    ensures forall r | r in rows ::
      0 <= r.inputSetId < |images| && 1 <= r.inputId <= |images[r.inputSetId]| && r.value == images[r.inputSetId][r.inputId - 1]
  {
    if images == [] then []
    else BatchRows(images[..|images| - 1]) + ImageRows(|images| - 1, images[|images| - 1])
  }

  /** The nested loops of `eval_multiple_images`. */
  method BuildBatchRows(images: seq<seq<real>>) returns (rows: seq<InputRow>)
    ensures rows == BatchRows(images)
  {
    rows := [];
    for k := 0 to |images|
      invariant rows == BatchRows(images[..k])
    {
      var img := images[k];
      ghost var before := rows;
      for i := 0 to |img|
        invariant rows == before + ImageRows(k, img[..i])
      {
        ImageRowsSnoc(k, img, i);
        rows := rows + [InputRow(k, i + 1, img[i])];
      }
      BatchRowsSnoc(images, k);
    }
    assert images[..|images|] == images;
  }

  lemma ImageRowsSnoc(setId: int, pixels: seq<real>, i: nat)
    requires i < |pixels|
    ensures ImageRows(setId, pixels[..i + 1]) == ImageRows(setId, pixels[..i]) + [InputRow(setId, i + 1, pixels[i])]
  {
    var a, b := ImageRows(setId, pixels[..i + 1]), ImageRows(setId, pixels[..i]) + [InputRow(setId, i + 1, pixels[i])];
    assert |a| == |b|;
    forall j | 0 <= j < |a| ensures a[j] == b[j] {
    }
  }

  lemma BatchRowsSnoc(images: seq<seq<real>>, k: nat)
    requires k < |images|
    ensures BatchRows(images[..k + 1]) == BatchRows(images[..k]) + ImageRows(k, images[k][..|images[k]|])
  {
    assert images[k][..|images[k]|] == images[k];
    assert images[..k + 1][..k] == images[..k];
  }

  /** The batch holds as many rows as the images have pixels together. */
  lemma {:induction false} BatchRowsCount(images: seq<seq<real>>)
    ensures |BatchRows(images)| == Sum(ImageSizes(images))
  {
    if images != [] {
      BatchRowsCount(images[..|images| - 1]);
    }
  }

  /** Pixel i of image k sits after the pixels of the images before it, as row (k, i + 1, pixel). */
  lemma {:induction false} BatchRowAt(images: seq<seq<real>>, k: nat, i: nat)
    requires k < |images| && i < |images[k]|
    ensures Sum(ImageSizes(images)[..k]) + i < |BatchRows(images)|
    ensures BatchRows(images)[Sum(ImageSizes(images)[..k]) + i] == InputRow(k, i + 1, images[k][i])
    decreases |images|
  {
    var n := |images| - 1;
    var init := images[..n];
    var a, b := BatchRows(init), ImageRows(n, images[n]);
    assert BatchRows(images) == a + b;
    BatchRowsCount(init);
    assert ImageSizes(images)[..n] == ImageSizes(init);
    if k < n {
      BatchRowAt(init, k, i);
      assert ImageSizes(images)[..k] == ImageSizes(init)[..k];
      AppendBefore(a, b, Sum(ImageSizes(images)[..k]) + i);
    } else {
      AppendAt(a, b, i);
    }
  }

  /** Input set ids never decrease along the batch: image k's rows follow image k - 1's. */
  lemma {:induction false} BatchRowsOrdered(images: seq<seq<real>>)
    ensures forall a, b | 0 <= a < b < |BatchRows(images)| :: BatchRows(images)[a].inputSetId <= BatchRows(images)[b].inputSetId
    ensures forall a | 0 <= a < |BatchRows(images)| :: 0 <= BatchRows(images)[a].inputSetId < |images|
  {
    if images != [] {
      var init := images[..|images| - 1];
      BatchRowsOrdered(init);
    }
  }

  // ---------------------------------------------------------------------------
  // Predictions
  // ---------------------------------------------------------------------------

  /**
    `Series.idxmax()` on a default index: the first position holding the
    largest value. On an empty series pandas raises, modelled as None.
  */
  function FirstArgMax(xs: seq<real>): (r: Option<nat>)
    ensures r.Some? <==> xs != []
    ensures r.Some? ==> r.value < |xs|
    ensures r.Some? ==> forall j | 0 <= j < |xs| :: xs[j] <= xs[r.value]
    ensures r.Some? ==> forall j | 0 <= j < r.value :: xs[j] < xs[r.value]
  {
    if xs == [] then None
    else
      var last := |xs| - 1;
      match FirstArgMax(xs[..last])
      case None => Some(0)
      case Some(m) => if xs[m] < xs[last] then Some(last) else Some(m)
  }

  /** The position found is the only one that is maximal with nothing maximal before it. */
  lemma FirstArgMaxUnique(xs: seq<real>, m: nat)
    requires m < |xs|
    requires forall j | 0 <= j < |xs| :: xs[j] <= xs[m]
    requires forall j | 0 <= j < m :: xs[j] < xs[m]
    ensures FirstArgMax(xs) == Some(m)
  {
    var r := FirstArgMax(xs).value;
    assert xs[r] == xs[m];
  }

  /**
    `eval_image_sql` of the single-model page: open a transaction (retrying
    once), replace the input table by this image as input set 0, run the
    forward-pass query, commit, and predict the first maximal log-softmax.
    The INSERT raises for an image with no pixels, and the query may raise
    (None either way): the exception leaves the function before the COMMIT,
    so the transaction stays open with its changes uncommitted, and the next
    call's retrying BEGIN rolls it back.
  */
  method EvalImageSql(con: Connection, image: seq<real>, evalQuery: seq<InputRow> -> Option<seq<real>>)
      returns (results: Option<seq<real>>, predictedDigit: Option<nat>)
    requires con.Valid()
    modifies con
    ensures con.Valid() && con.input == ImageRows(0, image)
    ensures results == if image == [] then None else evalQuery(ImageRows(0, image))
    ensures results.Some? ==> !con.inTxn && con.committedInput == con.input && predictedDigit == FirstArgMax(results.value)
    ensures results.None? ==> con.inTxn && con.committedInput == old(con.committedInput) && predictedDigit == None
  {
    con.BeginRetrying();
    con.Truncate();
    var rows := BuildImageRows(0, image);
    var inserted := con.Insert(rows);
    if !inserted {
      results, predictedDigit := None, None;
      return;
    }
    results := evalQuery(con.input);
    if results.None? {
      predictedDigit := None;
      return;
    }
    con.Commit();
    predictedDigit := FirstArgMax(results.value);
  }

  /**
    `eval_multiple_images`: the same, with image k as input set k. The INSERT
    fails when the batch has no pixels at all.
  */
  method EvalMultipleImages(con: Connection, images: seq<seq<real>>, evalQuery: seq<InputRow> -> Option<seq<ResultRow>>)
      returns (results: Option<seq<ResultRow>>)
    requires con.Valid()
    modifies con
    ensures con.Valid() && con.input == BatchRows(images)
    ensures results == if BatchRows(images) == [] then None else evalQuery(BatchRows(images))
    ensures results.Some? ==> !con.inTxn && con.committedInput == con.input
    ensures results.None? ==> con.inTxn && con.committedInput == old(con.committedInput)
  {
    con.BeginRetrying();
    con.Truncate();
    var rows := BuildBatchRows(images);
    var inserted := con.Insert(rows);
    if !inserted {
      results := None;
      return;
    }
    results := evalQuery(con.input);
    if results.Some? {
      con.Commit();
    }
  }

  /** The log-softmax values of one input set, in row order. */
  function GroupValues(rows: seq<ResultRow>, setId: int): (vs: seq<real>)
    ensures |vs| <= |rows|
    ensures forall v | v in vs :: exists r | r in rows :: r.inputSetId == setId && r.logSoftmax == v
  {
    if rows == [] then []
    else
      var last := rows[|rows| - 1];
      GroupValues(rows[..|rows| - 1], setId) + (if last.inputSetId == setId then [last.logSoftmax] else [])
  }

  lemma {:induction false} GroupValuesEmpty(rows: seq<ResultRow>, setId: int)
    ensures GroupValues(rows, setId) == [] <==> forall r | r in rows :: r.inputSetId != setId
  {
    if rows != [] {
      GroupValuesEmpty(rows[..|rows| - 1], setId);
      assert rows == rows[..|rows| - 1] + [rows[|rows| - 1]];
    }
  }

  /** x placed into an ascending list of distinct ids, unless already there. */
  function InsertId(x: int, ids: seq<int>): (r: seq<int>)
    ensures forall i :: i in r <==> i in ids || i == x
  {
    if ids == [] then [x]
    else if x < ids[0] then [x] + ids
    else if x == ids[0] then ids
    else [ids[0]] + InsertId(x, ids[1..])
  }

  predicate Ascending(ids: seq<int>)
  {
    forall a, b | 0 <= a < b < |ids| :: ids[a] < ids[b]
  }

  lemma {:induction false} InsertIdAscending(x: int, ids: seq<int>)
    requires Ascending(ids)
    ensures Ascending(InsertId(x, ids))
    decreases |ids|
  {
    if ids != [] && x > ids[0] {
      InsertIdAscending(x, ids[1..]);
      var rest := InsertId(x, ids[1..]);
      forall j | 0 <= j < |rest| ensures ids[0] < rest[j] {
        assert rest[j] in rest;
      }
    }
  }

  /** The groups of `groupby("input_set_id")`, in ascending key order. */
  function SetIds(rows: seq<ResultRow>): (ids: seq<int>)
    ensures forall i :: i in ids <==> exists r | r in rows :: r.inputSetId == i
  {
    if rows == [] then []
    else
      var init := rows[..|rows| - 1];
      assert rows == init + [rows[|rows| - 1]];
      InsertId(rows[|rows| - 1].inputSetId, SetIds(init))
  }

  lemma {:induction false} SetIdsAscending(rows: seq<ResultRow>)
    ensures Ascending(SetIds(rows))
  {
    if rows != [] {
      SetIdsAscending(rows[..|rows| - 1]);
      InsertIdAscending(rows[|rows| - 1].inputSetId, SetIds(rows[..|rows| - 1]));
    }
  }

  /** The digit of one non-empty group: its first maximal position (`cumcount` numbers a group's rows from 0). */
  function GroupDigit(values: seq<real>): nat
  {
    match FirstArgMax(values)
    case Some(m) => m
    case None => 0
  }

  /**
    The zipcode extraction: per input set, in ascending input-set order, the
    0-based position within its group of the first row with maximal log-softmax.
  */
  function Zipcode(rows: seq<ResultRow>): (digits: seq<nat>)
    ensures |digits| == |SetIds(rows)|
  {
    var ids := SetIds(rows);
    seq(|ids|, k requires 0 <= k < |ids| => GroupDigit(GroupValues(rows, ids[k])))
  }

  /**
    One digit per input set, in ascending input-set order; each is the first
    maximal position of that set's values.
  */
  lemma ZipcodeDigits(rows: seq<ResultRow>, k: nat)
    requires k < |SetIds(rows)|
    ensures forall j | 0 <= j < k :: SetIds(rows)[j] < SetIds(rows)[k]
    ensures GroupValues(rows, SetIds(rows)[k]) != []
    ensures Some(Zipcode(rows)[k]) == FirstArgMax(GroupValues(rows, SetIds(rows)[k]))
  {
    var ids := SetIds(rows);
    SetIdsAscending(rows);
    assert ids[k] in ids;
    var r :| r in rows && r.inputSetId == ids[k];
    GroupValuesEmpty(rows, ids[k]);
  }

  /**
    `random_image`: `randint(0, len(dataset) - 1)` draws an index, modelled
    as `draw` reduced into that range. With an empty dataset the range is
    empty and randint raises, modelled as None.
  */
  function RandomImage<T>(dataset: seq<T>, draw: nat): (r: Option<T>)
    ensures r.Some? <==> |dataset| > 0
    ensures r.Some? ==> exists i | 0 <= i <= |dataset| - 1 :: r.value == dataset[i]
  {
    if |dataset| == 0 then None else Some(dataset[draw % |dataset|])
  }

  /** Every image of the dataset can be drawn. */
  lemma RandomImageReachesAll<T>(dataset: seq<T>, i: nat)
    requires i < |dataset|
    ensures RandomImage(dataset, i) == Some(dataset[i])
  {
  }
}
