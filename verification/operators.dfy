/** The `typed_sum` and `typed_product` operators (operators/sum_operator.py,
    operators/product_operator.py) and the `noop` default, over the integer part of
    the value domain. */
module Operators {
  import opened Wrappers
  import opened Schema

  /** `type(v) in (int, float, Decimal)`; only integers are modelled. */
  predicate Numeric(v: Value) {
    v.Int?
  }

  predicate AllNumeric(xs: seq<Value>) {
    forall i :: 0 <= i < |xs| ==> Numeric(xs[i])
  }

  /** The mathematical sum of the integers in `xs` (reference definition). */
  function MathSum(xs: seq<Value>): int
    requires AllNumeric(xs)
  {
    if |xs| == 0 then 0 else xs[0].i + MathSum(xs[1..])
  }

  /** The mathematical product of the integers in `xs` (reference definition). */
  function MathProduct(xs: seq<Value>): int
    requires AllNumeric(xs)
  {
    if |xs| == 0 then 1 else xs[0].i * MathProduct(xs[1..])
  }

  /** The loop `for i in sequence[1:]: accumulator += i`. */
  function FoldAdd(acc: int, xs: seq<Value>): int
    requires AllNumeric(xs)
    decreases |xs|
  {
    if |xs| == 0 then acc else FoldAdd(acc + xs[0].i, xs[1..])
  }

  /** The loop `for i in sequence[1:]: accumulator *= i`. */
  function FoldMul(acc: int, xs: seq<Value>): int
    requires AllNumeric(xs)
    decreases |xs|
  {
    if |xs| == 0 then acc else FoldMul(acc * xs[0].i, xs[1..])
  }

  /** The left fold with `+` from any accumulator is that accumulator plus the sum. */
  lemma {:induction false} FoldAddIsSum(acc: int, xs: seq<Value>)
    requires AllNumeric(xs)
    ensures FoldAdd(acc, xs) == acc + MathSum(xs)
    decreases |xs|
  {
    if |xs| > 0 {
      FoldAddIsSum(acc + xs[0].i, xs[1..]);
    }
  }

  /** The left fold with `*` from any accumulator is that accumulator times the product. */
  lemma {:induction false} FoldMulIsProduct(acc: int, xs: seq<Value>)
    requires AllNumeric(xs)
    ensures FoldMul(acc, xs) == acc * MathProduct(xs)
    decreases |xs|
  {
    if |xs| > 0 {
      FoldMulIsProduct(acc * xs[0].i, xs[1..]);
      assert (acc * xs[0].i) * MathProduct(xs[1..]) == acc * (xs[0].i * MathProduct(xs[1..]));
    }
  }

  /** `typed_sum(sequence)`. */
  function Sum(xs: seq<Value>): (r: Outcome<Value>)
    ensures |xs| == 0 ==> r == Ok(Null)
    ensures |xs| > 0 && !AllNumeric(xs) ==> r == Err(UnsupportedType)
    ensures |xs| == 1 && AllNumeric(xs) ==> r == Ok(xs[0])
    ensures |xs| > 0 && AllNumeric(xs) ==> r == Ok(Int(MathSum(xs)))
  {
    if |xs| == 0 then Ok(Null)
    else if !AllNumeric(xs) then Err(UnsupportedType)
    else if |xs| == 1 then Ok(xs[0])
    else
      FoldAddIsSum(xs[0].i, xs[1..]);
      Ok(Int(FoldAdd(xs[0].i, xs[1..])))
  }

  /** `typed_product(sequence)`. */
  function Product(xs: seq<Value>): (r: Outcome<Value>)
    ensures |xs| == 0 ==> r == Ok(Null)
    ensures |xs| > 0 && !AllNumeric(xs) ==> r == Err(UnsupportedType)
    ensures |xs| == 1 && AllNumeric(xs) ==> r == Ok(xs[0])
    ensures |xs| > 0 && AllNumeric(xs) ==> r == Ok(Int(MathProduct(xs)))
  {
    if |xs| == 0 then Ok(Null)
    else if !AllNumeric(xs) then Err(UnsupportedType)
    else if |xs| == 1 then Ok(xs[0])
    else
      FoldMulIsProduct(xs[0].i, xs[1..]);
      Ok(Int(FoldMul(xs[0].i, xs[1..])))
  }

  /** Applies a `row_op` / `col_op` to its arguments. `calculate` spreads the
      arguments (`row_op(*row_values)`); the operators take one sequence, so the
      spread arguments are passed as that sequence. `noop` returns `None`. */
  function Apply(op: Operator, args: seq<Value>): (r: Outcome<Value>)
    ensures op == Noop ==> r == Ok(Null)
    ensures op == TypedSum ==> r == Sum(args)
    ensures op == TypedProduct ==> r == Product(args)
  {
    match op
    case Noop => Ok(Null)
    case TypedSum => Sum(args)
    case TypedProduct => Product(args)
  }

  /** The unit tests' integer cases: [1,2,3,4] sums to 10 and multiplies to 24;
      [-1,-1,1] sums to -1 and multiplies to 1; a `None` or string element raises. */
  lemma OperatorExamples()
    ensures Sum([Int(1), Int(2), Int(3), Int(4)]) == Ok(Int(10))
    ensures Product([Int(1), Int(2), Int(3), Int(4)]) == Ok(Int(24))
    ensures Sum([Int(-1), Int(-1), Int(1)]) == Ok(Int(-1))
    ensures Product([Int(-1), Int(-1), Int(1)]) == Ok(Int(1))
    ensures Sum([Int(2), Str("3")]) == Err(UnsupportedType)
    ensures Product([Null]) == Err(UnsupportedType)
    ensures Product([Null, Null]) == Err(UnsupportedType)
  {
    assert !Numeric(Str("3"));
    assert !Numeric(Null);
    var a := [Int(1), Int(2), Int(3), Int(4)];
    assert MathSum(a[3..]) == 4;
    assert MathProduct(a[3..]) == 4;
    var b := [Int(-1), Int(-1), Int(1)];
    assert MathSum(b[2..]) == 1;
    assert MathProduct(b[2..]) == 1;
  }
}
