/**
  The layer stack of `ReLUFNN`: a list of layer descriptors alternating
  Linear and ReLU, whose Linear shapes fix the layer widths that the
  encoder turns into node layers. Only the descriptors are modelled, not
  what the layers compute.
*/
module ReluFnn {

  datatype Layer = Linear(inFeatures: nat, outFeatures: nat) | ReLU

  /** The `for _ in range(num_hidden_layers - 1)` loop runs this often (never, for n <= 1). */
  function HiddenRepeats(numHiddenLayers: int): nat
  {
    if numHiddenLayers <= 1 then 0 else numHiddenLayers - 1
  }

  /**
    `ReLUFNN.__init__`: Linear(input, hidden) and ReLU, then hidden-to-hidden
    Linear and ReLU per extra hidden layer, and finally Linear(hidden, output).
  */
  method BuildStack(inputSize: nat, hiddenSize: nat, numHiddenLayers: int, outputSize: nat) returns (layers: seq<Layer>)
    ensures layers == Stack(inputSize, hiddenSize, HiddenRepeats(numHiddenLayers), outputSize)
    ensures |layers| == 2 * HiddenRepeats(numHiddenLayers) + 3
    ensures Alternating(layers)
    ensures Chained(layers)
    ensures layers[0] == Linear(inputSize, hiddenSize)
    ensures layers[|layers| - 1] == Linear(hiddenSize, outputSize)
  {
    layers := [];
    layers := layers + [Linear(inputSize, hiddenSize)];
    layers := layers + [ReLU];
    var repeats := HiddenRepeats(numHiddenLayers);
    for r := 0 to repeats
      invariant layers == HiddenPart(inputSize, hiddenSize, r)
    {
      layers := layers + [Linear(hiddenSize, hiddenSize)];
      layers := layers + [ReLU];
    }
    layers := layers + [Linear(hiddenSize, outputSize)];
    StackShape(inputSize, hiddenSize, repeats, outputSize);
  }

  /** Linear and ReLU alternate, starting and ending with a Linear. */
  predicate Alternating(layers: seq<Layer>)
  {
    |layers| % 2 == 1 && forall i | 0 <= i < |layers| :: layers[i].Linear? <==> i % 2 == 0
  }

  /** Each Linear takes as many features as the previous Linear gives. */
  predicate Chained(layers: seq<Layer>)
  {
    forall i | 0 <= i && i + 2 < |layers| && layers[i].Linear? && layers[i + 2].Linear? ::
      layers[i].outFeatures == layers[i + 2].inFeatures
  }

  lemma ChainedFromShapes(layers: seq<Layer>, inputSize: nat, hiddenSize: nat, outputSize: nat)
    requires |layers| >= 3 && |layers| % 2 == 1
    requires forall i | 0 <= i < |layers| :: layers[i].Linear? <==> i % 2 == 0
    requires layers[0] == Linear(inputSize, hiddenSize)
    requires layers[|layers| - 1] == Linear(hiddenSize, outputSize)
    requires forall i | 0 < i < |layers| - 1 && i % 2 == 0 :: layers[i] == Linear(hiddenSize, hiddenSize)
    ensures Chained(layers)
  {
  }

  /** The widths the stack's Linear layers pass between them: input, then each Linear's output. */
  function Widths(layers: seq<Layer>): seq<nat>
  {
    if layers == [] then []
    else
      var init, last := layers[..|layers| - 1], layers[|layers| - 1];
      if last.Linear? then
        (if init == [] then [last.inFeatures] else Widths(init)) + [last.outFeatures]
      else Widths(init)
  }

  /**
    The stack `[Linear(a, h), ReLU] + [Linear(h, h), ReLU] * r + [Linear(h, o)]`,
    as a value: 2 * r + 3 entries, opening with Linear(a, h) and closing
    with Linear(h, o).
  */
  function Stack(inputSize: nat, hiddenSize: nat, repeats: nat, outputSize: nat): (layers: seq<Layer>)
    ensures |layers| == 2 * repeats + 3
    ensures layers[0] == Linear(inputSize, hiddenSize)
    ensures layers[|layers| - 1] == Linear(hiddenSize, outputSize)
  {
    HiddenPartShape(inputSize, hiddenSize, repeats);
    HiddenPart(inputSize, hiddenSize, repeats) + [Linear(hiddenSize, outputSize)]
  }

  /** Everything before the final Linear. */
  function HiddenPart(inputSize: nat, hiddenSize: nat, repeats: nat): seq<Layer>
  {
    if repeats == 0 then [Linear(inputSize, hiddenSize), ReLU]
    else HiddenPart(inputSize, hiddenSize, repeats - 1) + [Linear(hiddenSize, hiddenSize), ReLU]
  }

  lemma {:induction false} HiddenPartWidths(inputSize: nat, hiddenSize: nat, repeats: nat)
    ensures Widths(HiddenPart(inputSize, hiddenSize, repeats)) == [inputSize] + Repeat(hiddenSize, repeats + 1)
  {
    if repeats == 0 {
      WidthsAppendReLU([Linear(inputSize, hiddenSize)]);
      assert [Linear(inputSize, hiddenSize)][..0] == [];
    } else {
      var q := HiddenPart(inputSize, hiddenSize, repeats - 1);
      var r := q + [Linear(hiddenSize, hiddenSize)];
      var before := [inputSize] + Repeat(hiddenSize, repeats);
      assert Widths(r) == before + [hiddenSize] by {
        HiddenPartWidths(inputSize, hiddenSize, repeats - 1);
        WidthsAppendLinear(q, hiddenSize, hiddenSize);
      }
      assert Widths(HiddenPart(inputSize, hiddenSize, repeats)) == Widths(r) by {
        assert HiddenPart(inputSize, hiddenSize, repeats) == r + [ReLU];
        WidthsAppendReLU(r);
      }
      RepeatAppend(hiddenSize, repeats);
      assert before + [hiddenSize] == [inputSize] + (Repeat(hiddenSize, repeats) + [hiddenSize]);
    }
  }

  /** A trailing ReLU passes no new width. */
  lemma WidthsAppendReLU(layers: seq<Layer>)
    ensures Widths(layers + [ReLU]) == Widths(layers)
  {
    assert (layers + [ReLU])[..|layers|] == layers;
  }

  /** A trailing Linear after a non-empty stack adds its output width. */
  lemma WidthsAppendLinear(layers: seq<Layer>, inFeatures: nat, outFeatures: nat)
    requires layers != []
    ensures Widths(layers + [Linear(inFeatures, outFeatures)]) == Widths(layers) + [outFeatures]
  {
    assert (layers + [Linear(inFeatures, outFeatures)])[..|layers|] == layers;
  }

  function Repeat(w: nat, n: nat): (ws: seq<nat>)
    ensures |ws| == n
  {
    if n == 0 then [] else [w] + Repeat(w, n - 1)
  }

  lemma {:induction false} RepeatAppend(w: nat, n: nat)
    ensures Repeat(w, n) + [w] == Repeat(w, n + 1)
  {
    if n > 0 {
      RepeatAppend(w, n - 1);
    }
  }

  /**
    The layer widths are [input, hidden repeated num_hidden_layers times,
    output] (with one hidden layer when num_hidden_layers <= 1), the widths
    that the stored node layers have.
  */
  lemma {:induction false} StackWidths(inputSize: nat, hiddenSize: nat, numHiddenLayers: int, outputSize: nat)
    ensures Widths(Stack(inputSize, hiddenSize, HiddenRepeats(numHiddenLayers), outputSize))
         == [inputSize] + Repeat(hiddenSize, HiddenRepeats(numHiddenLayers) + 1) + [outputSize]
  {
    var r := HiddenRepeats(numHiddenLayers);
    var s := Stack(inputSize, hiddenSize, r, outputSize);
    HiddenPartWidths(inputSize, hiddenSize, r);
    assert s[..|s| - 1] == HiddenPart(inputSize, hiddenSize, r);
  }

  /** The stack alternates Linear and ReLU and chains its shapes. */
  lemma {:induction false} StackShape(inputSize: nat, hiddenSize: nat, repeats: nat, outputSize: nat)
    ensures Alternating(Stack(inputSize, hiddenSize, repeats, outputSize))
    ensures Chained(Stack(inputSize, hiddenSize, repeats, outputSize))
  {
    HiddenPartShape(inputSize, hiddenSize, repeats);
    var s := Stack(inputSize, hiddenSize, repeats, outputSize);
    ChainedFromShapes(s, inputSize, hiddenSize, outputSize);
  }

  lemma {:induction false} HiddenPartShape(inputSize: nat, hiddenSize: nat, repeats: nat)
    ensures |HiddenPart(inputSize, hiddenSize, repeats)| == 2 * repeats + 2
    ensures HiddenPart(inputSize, hiddenSize, repeats)[0] == Linear(inputSize, hiddenSize)
    ensures forall i | 0 <= i < 2 * repeats + 2 :: HiddenPart(inputSize, hiddenSize, repeats)[i].Linear? <==> i % 2 == 0
    ensures forall i | 0 < i < 2 * repeats + 2 && i % 2 == 0 :: HiddenPart(inputSize, hiddenSize, repeats)[i] == Linear(hiddenSize, hiddenSize)
  {
    if repeats > 0 {
      HiddenPartShape(inputSize, hiddenSize, repeats - 1);
    }
  }

  /** With at most one hidden layer the loop adds nothing: Linear, ReLU, Linear. */
  lemma ShallowStack(inputSize: nat, hiddenSize: nat, numHiddenLayers: int, outputSize: nat)
    requires numHiddenLayers <= 1
    ensures Stack(inputSize, hiddenSize, HiddenRepeats(numHiddenLayers), outputSize)
         == [Linear(inputSize, hiddenSize), ReLU, Linear(hiddenSize, outputSize)]
  {
  }

  /** For num_hidden_layers >= 1 the stack has 2 * num_hidden_layers + 1 entries. */
  lemma StackLength(inputSize: nat, hiddenSize: nat, numHiddenLayers: int, outputSize: nat)
    requires numHiddenLayers >= 1
    ensures |Stack(inputSize, hiddenSize, HiddenRepeats(numHiddenLayers), outputSize)| == 2 * numHiddenLayers + 1
  {
    StackShape(inputSize, hiddenSize, HiddenRepeats(numHiddenLayers), outputSize);
  }

  /** `ReLUFNN()` with its default arguments: input 1, hidden 4, ten hidden layers, output 1. */
  const DefaultStack: seq<Layer> := Stack(1, 4, HiddenRepeats(10), 1)

  /** The default network: 21 layer entries, whose widths are 1, then 4 ten times, then 1. */
  lemma DefaultStackShape()
    ensures |DefaultStack| == 21
    ensures DefaultStack[0] == Linear(1, 4) && DefaultStack[20] == Linear(4, 1)
    ensures Widths(DefaultStack) == [1] + Repeat(4, 10) + [1]
  {
    StackWidths(1, 4, 10, 1);
  }
}
