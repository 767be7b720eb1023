/** The few facts about products that the verifier does not find by itself. */
module Arithmetic {

  lemma Scaled(a: int, b: int, step: nat)
    requires a <= b
    ensures a * step <= b * step
  {
    assert (b - a) * step >= 0;
  }

  lemma CancelBelowNext(a: int, b: int, step: nat)
    requires a * step < b * step + step
    ensures a <= b
  {
    if b + 1 <= a {
      Scaled(b + 1, a, step);
    }
  }

  lemma CancelBelow(a: int, b: int, step: nat)
    requires a * step < b * step
    ensures a < b
  {
    if b <= a {
      Scaled(b, a, step);
    }
  }

  lemma AtMostQuotient(k: int, step: nat, length: nat)
    requires step > 0 && k * step <= length
    ensures k <= length / step
  {
    assert length == (length / step) * step + length % step;
    CancelBelowNext(k, length / step, step);
  }
}
