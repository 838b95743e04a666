/** Tensor byte sizes: the element count of a shape times the byte width of its dtype. */
module Dtypes {

  /** The fixed dtype width table (DTYPE_BYTES). */
  const DtypeBytes: map<string, nat> := map[
    "F64" := 8, "F32" := 4, "F16" := 2, "BF16" := 2,
    "I64" := 8, "I32" := 4, "I16" := 2, "I8" := 1,
    "U8" := 1, "BOOL" := 1
  ]

  /** DTYPE_BYTES.get(dtype, 1): an unknown tag counts as one byte per element. */
  function ByteWidth(dtype: string): (w: nat)
    ensures w == 1 || w == 2 || w == 4 || w == 8
    ensures dtype !in DtypeBytes ==> w == 1
  {
    if dtype in DtypeBytes then DtypeBytes[dtype] else 1
  }

  /** The table row by row: the ten recognised tags and nothing else. */
  lemma ByteWidthTable(dtype: string)
    ensures ByteWidth("F64") == 8 && ByteWidth("F32") == 4
    ensures ByteWidth("F16") == 2 && ByteWidth("BF16") == 2
    ensures ByteWidth("I64") == 8 && ByteWidth("I32") == 4
    ensures ByteWidth("I16") == 2 && ByteWidth("I8") == 1
    ensures ByteWidth("U8") == 1 && ByteWidth("BOOL") == 1
    ensures dtype !in {"F64", "F32", "F16", "BF16", "I64", "I32", "I16", "I8", "U8", "BOOL"} ==> ByteWidth(dtype) == 1
  {
  }

  /** math.prod(shape): the number of elements; the empty shape (a scalar) has one.
      A tensor with elements has at least as many as any one of its dimensions. */
  function Product(shape: seq<nat>): (p: nat)
    ensures shape == [] ==> p == 1
    ensures p > 0 ==> forall i :: 0 <= i < |shape| ==> shape[i] <= p
  {
    if |shape| == 0 then 1 else shape[0] * Product(shape[1..])
  }

  /** The element count of a shape splits over any split of its dimensions. */
  lemma {:induction false} ProductAppend(a: seq<nat>, b: seq<nat>)
    ensures Product(a + b) == Product(a) * Product(b)
  {
    if |a| > 0 {
      assert (a + b)[1..] == a[1..] + b;
      ProductAppend(a[1..], b);
      var x, y, z := a[0], Product(a[1..]), Product(b);
      calc {
        Product(a + b);
        x * Product(a[1..] + b);
        x * (y * z);
        { MulAssoc(x, y, z); }
        (x * y) * z;
        Product(a) * Product(b);
      }
    } else {
      assert a + b == b;
    }
  }

  lemma MulAssoc(x: nat, y: nat, z: nat)
    ensures x * (y * z) == (x * y) * z
  {
  }

  /** A tensor has no elements exactly when one of its dimensions is zero. */
  lemma {:induction false} ProductZero(shape: seq<nat>)
    ensures Product(shape) == 0 <==> exists i :: 0 <= i < |shape| && shape[i] == 0
  {
    if |shape| > 0 {
      ProductZero(shape[1..]);
      assert forall i :: 0 < i < |shape| ==> shape[i] == shape[1..][i - 1];
    }
  }

  /** The "size" field of a tensor record: between one and eight bytes per element,
      and one byte per element for a tag outside the table. */
  function TensorSize(shape: seq<nat>, dtype: string): (size: nat)
    ensures Product(shape) <= size <= 8 * Product(shape)
    ensures dtype !in DtypeBytes ==> size == Product(shape)
  {
    Product(shape) * ByteWidth(dtype)
  }

  /** A record's size is zero exactly for a tensor with a zero dimension. */
  lemma TensorSizeZero(shape: seq<nat>, dtype: string)
    ensures TensorSize(shape, dtype) == 0 <==> exists i :: 0 <= i < |shape| && shape[i] == 0
  {
    ProductZero(shape);
  }
}
