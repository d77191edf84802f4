/** Definitions shared by the stream adapter and the RFI clipper. */
module Basics {

  datatype Option<T> = None | Some(value: T)

  /** Multiplying by the same factor keeps the order. */
  lemma MulMonotone(a: nat, b: nat, n: nat)
    requires a <= b
    ensures a * n <= b * n
  {
  }

  /** One more copy of `b`. */
  lemma MulSucc(a: nat, b: nat)
    ensures (a + 1) * b == a * b + b
  {
  }

  /** A product with a positive factor has the sign of the other factor. */
  lemma SignOfProduct(x: int, p: nat)
    requires p > 0
    ensures x > 0 ==> x * p > 0
    ensures x < 0 ==> x * p < 0
  {
  }

  /** Dividing a multiple of `p` by `p` gives back the multiplier. */
  lemma DivOfMul(a: nat, p: nat)
    requires p > 0
    ensures (a * p) / p == a
  {
    var q, r := (a * p) / p, (a * p) % p;
    assert (a - q) * p == r;
    SignOfProduct(a - q, p);
    SignOfProduct(a - q - 1, p);
    assert (a - q - 1) * p == r - p;
  }
}
