/**
 Facts about products and quotients that the solver does not find by itself.
 */
module Arithmetic {

  lemma {:induction false} MulStep(x: nat, y: nat, w: nat)
    ensures x < y ==> x * w + w <= y * w
    decreases y
  {
    if x < y {
      assert y * w == (y - 1) * w + w;
      MulStep(x, y - 1, w);
    }
  }

  lemma DivModUnique(r: nat, c: nat, w: nat)
    requires c < w
    ensures (r * w + c) / w == r && (r * w + c) % w == c
  {
    var n := r * w + c;
    assert n == (n / w) * w + n % w;
    MulStep(n / w, r, w);
    MulStep(r, n / w, w);
  }
}
