/** Multiplication by repeated addition, for proofs about pixel positions. */
module Arith {

  /**
   * `k * n` written as repeated addition, so that facts about one multiple
   * at a time stay linear; ScaleIsProduct shows that it is the product.
   */
  function Scale(k: nat, n: nat): nat
  {
    if k == 0 then 0 else Scale(k - 1, n) + n
  }

  lemma {:induction false} ScaleIsProduct(k: nat, n: nat)
    ensures Scale(k, n) == k * n
  {
    if k > 0 {
      ScaleIsProduct(k - 1, n);
    }
  }

  /** More copies of `n` add up to no less. */
  lemma {:induction false} ScaleMonotone(k: nat, l: nat, n: nat)
    requires k <= l
    ensures Scale(k, n) <= Scale(l, n)
    decreases l
  {
    if k < l {
      ScaleMonotone(k, l - 1, n);
    }
  }
}
