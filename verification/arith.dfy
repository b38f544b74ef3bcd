/**
  Integer facts the transform's index arithmetic rests on: powers of two and
  the quotient/remainder of a row index split into (block, offset).
 */
module Arith {

  /** 2^k. */
  function Pow2(k: nat): (p: nat)
    ensures p >= 1
  {
    if k == 0 then 1 else 2 * Pow2(k - 1)
  }

  /** n is a power of two. */
  predicate IsPow2(n: nat) {
    exists k: nat {:trigger Pow2(k)} :: k <= n && Pow2(k) == n
  }

  lemma {:induction false} Pow2Grows(k: nat)
    ensures Pow2(k) > k
  {
    if k > 0 {
      Pow2Grows(k - 1);
    }
  }

  lemma {:induction false} Pow2Monotone(i: nat, j: nat)
    requires i <= j
    ensures Pow2(i) <= Pow2(j)
  {
    if i < j {
      Pow2Monotone(i, j - 1);
    }
  }

  /** A smaller exponent gives at most half the power. */
  lemma {:induction false} Pow2Order(i: nat, j: nat)
    ensures i < j ==> 2 * Pow2(i) <= Pow2(j)
  {
    if i < j {
      Pow2Monotone(i + 1, j);
    }
  }

  /** Pow2 is additive in the exponent: 2^(i+j) = 2^i * 2^j. */
  lemma {:induction false} Pow2Add(i: nat, j: nat)
    ensures Pow2(i + j) == Pow2(i) * Pow2(j)
  {
    if j > 0 {
      Pow2Add(i, j - 1);
      assert Pow2(i + j) == 2 * Pow2(i + j - 1);
    }
  }

  lemma MulMonotone(a: int, b: int, d: nat)
    requires a <= b
    ensures a * d <= b * d
  {
  }

  /** Multiplication by a positive factor reflects strict order. */
  lemma MulCancelLess(b: int, c: int, d: nat)
    requires d > 0
    ensures b * d < c * d ==> b < c
  {
    if b >= c {
      MulMonotone(c, b, d);
    }
  }

  /**
    Splitting q*d + t with 0 <= t < d gives back the block q and offset t:
    Euclidean division is unique.
   */
  lemma DivModOfBlock(q: int, d: nat, t: int)
    requires 0 <= t < d
    ensures (q * d + t) / d == q
    ensures (q * d + t) % d == t
  {
    var z := q * d + t;
    var q' := z / d;
    var t' := z % d;
    assert z == q' * d + t';
    if q' > q {
      MulMonotone(q + 1, q', d);
      assert false;
    } else if q' < q {
      MulMonotone(q', q - 1, d);
      assert false;
    }
  }

  /** First row of the block of height d that holds row r. */
  function BlockStart(r: nat, d: nat): nat
    requires d > 0
  {
    (r / d) * d
  }

  /** A row r < d * blocks lies in one of the blocks of height d, all inside d * blocks. */
  lemma BlockOfRow(r: nat, d: nat, blocks: nat)
    requires d > 0 && r < d * blocks
    ensures BlockStart(r, d) + r % d == r
    ensures BlockStart(r, d) + d <= d * blocks
  {
    if r / d >= blocks {
      MulMonotone(blocks, r / d, d);
      assert false;
    }
    MulMonotone(r / d + 1, blocks, d);
  }

  /** Row t of the block starting at q * d. */
  lemma BlockStartOf(q: nat, d: nat, t: nat)
    requires t < d
    ensures BlockStart(q * d + t, d) == q * d
    ensures (q * d + t) % d == t
  {
    DivModOfBlock(q, d, t);
  }

  /** A number in [0, 2L) reduced modulo L. */
  lemma ModOnce(z: int, L: nat)
    requires 0 <= z < 2 * L
    ensures z % L == (if z < L then z else z - L)
  {
    if z < L {
      DivModOfBlock(0, L, z);
    } else {
      DivModOfBlock(1, L, z - L);
    }
  }
}
