/** Bitwise operators on unsigned words, defined bit by bit, and the alignment facts
    that the page allocator's index arithmetic and the page tables rest on. */
module Bits {

  function Pow2(k: nat): (r: nat)
    ensures r > 0
  {
    if k == 0 then 1 else 2 * Pow2(k - 1)
  }

  /** C's `^` on unsigned words. */
  function Xor(a: nat, b: nat): nat
    decreases a + b
  {
    if a == 0 && b == 0 then 0 else 2 * Xor(a / 2, b / 2) + (if a % 2 == b % 2 then 0 else 1)
  }

  /** C's `&` on unsigned words. */
  function And(a: nat, b: nat): nat
    decreases a + b
  {
    if a == 0 && b == 0 then 0 else 2 * And(a / 2, b / 2) + (if a % 2 == 1 && b % 2 == 1 then 1 else 0)
  }

  /** C's `|` on unsigned words. */
  function Or(a: nat, b: nat): nat
    decreases a + b
  {
    if a == 0 && b == 0 then 0 else 2 * Or(a / 2, b / 2) + (if a % 2 == 1 || b % 2 == 1 then 1 else 0)
  }

  /** The low k bits of `p` are zero. */
  predicate Aligned(p: nat, k: nat) {
    k == 0 || (p % 2 == 0 && Aligned(p / 2, k - 1))
  }

  lemma MulMonotone(a: nat, b: nat, m: nat)
    requires a <= b
    ensures a * m <= b * m
  {
  }

  /** Quotient and remainder are the only numbers with their property. */
  lemma DivModUnique(x: nat, m: nat, q: nat, r: nat)
    requires m > 0 && x == q * m + r && r < m
    ensures x / m == q && x % m == r
  {
    var q' := x / m;
    assert x == q' * m + x % m;
    if q < q' { MulMonotone(q + 1, q', m); }
    if q' < q { MulMonotone(q' + 1, q, m); }
  }

  lemma DoubleModulus(p: nat, m: nat)
    requires m > 0
    ensures p % (2 * m) == 2 * ((p / 2) % m) + p % 2
  {
    var h := p / 2;
    var q, r := h / m, h % m;
    assert h == q * m + r;
    assert p == 2 * (q * m) + (2 * r + p % 2);
    assert 2 * (q * m) == q * (2 * m);
    DivModUnique(p, 2 * m, q, 2 * r + p % 2);
  }

  /** Zero low bits mean a multiple of 2^k. */
  lemma {:induction false} AlignedIsMultiple(p: nat, k: nat)
    ensures Aligned(p, k) <==> p % Pow2(k) == 0
  {
    if k > 0 {
      AlignedIsMultiple(p / 2, k - 1);
      DoubleModulus(p, Pow2(k - 1));
    }
  }

  lemma AlignedOne(p: nat)
    ensures Aligned(p, 1) <==> p % 2 == 0
  {
    assert Aligned(p / 2, 0);
  }

  lemma {:induction false} AlignedDown(p: nat, k: nat, j: nat)
    requires j <= k && Aligned(p, k)
    ensures Aligned(p, j)
  {
    if j > 0 { AlignedDown(p / 2, k - 1, j - 1); }
  }

  /** Adding a 2^k-aligned number does not disturb the low k bits. */
  lemma {:induction false} AlignedSum(a: nat, b: nat, k: nat)
    requires Aligned(a, k)
    ensures Aligned(a + b, k) <==> Aligned(b, k)
  {
    if k > 0 && b % 2 == 0 {
      assert (a + b) / 2 == a / 2 + b / 2;
      AlignedSum(a / 2, b / 2, k - 1);
    }
  }

  lemma {:induction false} Pow2Aligned(k: nat)
    ensures Aligned(Pow2(k), k) && !Aligned(Pow2(k), k + 1)
  {
    if k > 0 { Pow2Aligned(k - 1); }
  }

  /** Between two 2^k-aligned numbers there is room for 2^k. */
  lemma {:induction false} AlignedFits(p: nat, q: nat, k: nat)
    requires Aligned(p, k) && Aligned(q, k) && p < q
    ensures p + Pow2(k) <= q
  {
    if k > 0 { AlignedFits(p / 2, q / 2, k - 1); }
  }

  /** A 2^k-aligned number is either the lower or the upper half of a 2^(k+1)-aligned pair. */
  lemma {:induction false} AlignedPair(p: nat, k: nat)
    requires Aligned(p, k)
    ensures Aligned(p, k + 1) ==> Aligned(p + Pow2(k), k) && !Aligned(p + Pow2(k), k + 1)
    ensures !Aligned(p, k + 1) ==> p >= Pow2(k) && Aligned(p - Pow2(k), k + 1)
  {
    if k == 0 {
      AlignedOne(p);
      if p > 0 { AlignedOne(p - 1); }
    } else {
      AlignedPair(p / 2, k - 1);
      assert (p + Pow2(k)) / 2 == p / 2 + Pow2(k - 1);
      if p >= Pow2(k) { assert (p - Pow2(k)) / 2 == p / 2 - Pow2(k - 1); }
    }
  }

  lemma {:induction false} XorZero(x: nat)
    ensures Xor(x, 0) == x
  {
    if x != 0 { XorZero(x / 2); }
  }

  lemma {:induction false} AndZero(x: nat)
    ensures And(x, 0) == 0
  {
    if x != 0 { AndZero(x / 2); }
  }

  lemma {:induction false} AndSelf(x: nat)
    ensures And(x, x) == x
  {
    if x != 0 { AndSelf(x / 2); }
  }

  /** Flipping the lowest bit. */
  lemma XorOne(x: nat)
    ensures x % 2 == 0 ==> Xor(x, 1) == x + 1 && And(x + 1, x) == x
    ensures x % 2 == 1 ==> Xor(x, 1) == x - 1 && And(x - 1, x) == x - 1
  {
    XorZero(x / 2);
    AndSelf(x / 2);
    assert 1 / 2 == 0;
    if x % 2 == 0 {
      assert (x + 1) / 2 == x / 2;
    } else {
      assert (x - 1) / 2 == x / 2;
    }
  }

  lemma {:induction false} OrZero(x: nat)
    ensures Or(x, 0) == x
  {
    if x != 0 { OrZero(x / 2); }
  }

  /** Flipping bit k of a 2^k-aligned word moves between the two halves of its pair, and
      masking the word with its twin yields the lower half. */
  lemma {:induction false} XorPow2(x: nat, k: nat)
    requires Aligned(x, k)
    ensures Aligned(x, k + 1) ==> Xor(x, Pow2(k)) == x + Pow2(k) && And(x + Pow2(k), x) == x
    ensures !Aligned(x, k + 1) ==>
              x >= Pow2(k) && Xor(x, Pow2(k)) == x - Pow2(k) && And(x - Pow2(k), x) == x - Pow2(k)
  {
    if k == 0 {
      AlignedOne(x);
      XorOne(x);
    } else {
      XorPow2(x / 2, k - 1);
      assert (x + Pow2(k)) / 2 == x / 2 + Pow2(k - 1);
      if x >= Pow2(k) { assert (x - Pow2(k)) / 2 == x / 2 - Pow2(k - 1); }
    }
  }

  /** `x & ((1 << k) - 1)` drops a 2^k-aligned part and leaves less than 2^k. */
  lemma {:induction false} AndMask(x: nat, k: nat)
    ensures And(x, Pow2(k) - 1) <= x && And(x, Pow2(k) - 1) < Pow2(k)
    ensures Aligned(x - And(x, Pow2(k) - 1), k)
  {
    if k == 0 {
      AndZero(x);
    } else {
      AndMask(x / 2, k - 1);
      var m := Pow2(k - 1) - 1;
      assert Pow2(k) - 1 == 2 * m + 1;
      assert (Pow2(k) - 1) / 2 == m;
      assert And(x, Pow2(k) - 1) == 2 * And(x / 2, m) + x % 2;
      var rest := x / 2 - And(x / 2, m);
      assert x - And(x, Pow2(k) - 1) == 2 * rest;
      assert (2 * rest) / 2 == rest;
    }
  }

  /** Joining disjoint bit fields with `|` is addition. */
  lemma {:induction false} OrDisjoint(a: nat, b: nat, k: nat)
    requires Aligned(a, k) && b < Pow2(k)
    ensures Or(a, b) == a + b
  {
    if k == 0 {
      OrZero(a);
    } else if a != 0 || b != 0 {
      OrDisjoint(a / 2, b / 2, k - 1);
    }
  }
}
