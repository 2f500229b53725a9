/** Powers of two, and the few facts about products and quotients that need a proof of their own, kept apart
    from everything else because the solver finds them only when nothing else is in sight: uniqueness of
    quotient and remainder, and monotonicity of products. */
module Powers {
  function Pow2(k: nat): (p: nat)
    ensures p >= 1
  {
    if k == 0 then 1 else 2 * Pow2(k - 1)
  }

  lemma {:induction false} Pow2Add(j: nat, k: nat)
    ensures Pow2(j + k) == Pow2(j) * Pow2(k)
    decreases k
  {
    if k > 0 { Pow2Add(j, k - 1); }
  }

  lemma {:induction false} Pow2Mono(j: nat, k: nat)
    requires j <= k
    ensures Pow2(j) <= Pow2(k)
    decreases k
  {
    if j < k { Pow2Mono(j, k - 1); }
  }

  lemma DivUnique(v: int, d: int, q: int, r: int)
    requires d > 0 && v == q * d + r && 0 <= r < d
    ensures v / d == q && v % d == r
  {
    var e := v / d - q;
    assert e * d == (v / d) * d - q * d;
    assert v == d * (v / d) + v % d;
    if e >= 1 {
      MulAtLeast(e, d);
    } else if e <= -1 {
      MulAtLeast(-e, d);
    }
  }

  lemma MulAtLeast(x: int, y: int)
    requires x >= 1 && y >= 1
    ensures x * y >= y
  {
  }

  lemma Divide(v: nat, d: nat)
    requires d > 0
    ensures v == (v / d) * d + v % d
  {
  }

  lemma ProductBelow(x: int, y: int, z: int)
    requires x < y && z >= 1
    ensures x * z < y * z
  {
    MulAtLeast(y - x, z);
  }

  lemma ProductMono(x: int, y: int, z: int)
    requires x <= y && z >= 0
    ensures x * z <= y * z
  {
  }
}
