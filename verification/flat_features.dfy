/** `ComplexConvNetwork.num_flat_features`: the number of features per
    sample of a batched tensor, with tensor shapes as sequences of sizes. */
module FlatFeatures {

  /** The number of elements of a tensor of shape `dims`: the product of
      the sizes, 1 for no sizes at all. */
  function Product(dims: seq<nat>): nat {
    if dims == [] then 1 else Product(dims[..|dims| - 1]) * dims[|dims| - 1]
  }

  /** `x.size()[1:]`: every dimension but the first (batch) one. */
  function FeatureDims(shape: seq<nat>): seq<nat> {
    if shape == [] then [] else shape[1..]
  }

  /** `num_flat_features(x)` for a tensor `x` of shape `shape`. */
  method NumFlatFeatures(shape: seq<nat>) returns (numFeatures: nat)
    ensures numFeatures == Product(FeatureDims(shape))
    ensures |shape| <= 1 ==> numFeatures == 1
  {
    var size := FeatureDims(shape);
    numFeatures := 1;
    for i := 0 to |size|
      invariant numFeatures == Product(size[..i])
    {
      assert size[..i + 1][..i] == size[..i];
      numFeatures := numFeatures * size[i];
    }
    assert size[..|size|] == size;
  }

  /** The product of a concatenation is the product of the products. */
  lemma {:induction false} ProductAppend(a: seq<nat>, b: seq<nat>)
    ensures Product(a + b) == Product(a) * Product(b)
    decreases |b|
  {
    if b != [] {
      var init := b[..|b| - 1];
      ProductAppend(a, init);
      assert (a + b)[..|a + b| - 1] == a + init;
      calc {
        Product(a + b);
        Product(a + init) * b[|b| - 1];
        Product(a) * Product(init) * b[|b| - 1];
        Product(a) * Product(b);
      }
    } else {
      assert a + b == a;
    }
  }

  /** Flattening every dimension after the batch one keeps every element:
      a tensor of shape `shape` has `shape[0] * num_flat_features` elements,
      and the batch size never enters `num_flat_features`. */
  lemma FlattenKeepsElements(shape: seq<nat>, batch: nat)
    requires |shape| > 0
    ensures Product(shape) == shape[0] * Product(FeatureDims(shape))
    ensures Product(FeatureDims(shape[0 := batch])) == Product(FeatureDims(shape))
  {
    ProductAppend([shape[0]], shape[1..]);
    assert [shape[0]] + shape[1..] == shape;
    assert Product([shape[0]]) == shape[0] by {
      assert [shape[0]][..0] == [];
    }
    assert shape[0 := batch][1..] == shape[1..];
  }
}
