/**
 * The radix validator `get_length` (src/main.rs): a limit is accepted only when
 * it is a power of two greater than one, and the number of bits per digit is
 * then its base-two logarithm.
 */
module Radix {
  import opened Wrappers
  import opened Arith

  /** 2^k. */
  function Pow2(k: nat): (r: nat)
    ensures r >= 1
    ensures k >= 1 ==> r >= 2
  {
    if k == 0 then 1 else 2 * Pow2(k - 1)
  }

  /** Pow2 of a sum is the product of the Pow2s (a shift by a + b is a shift by a then by b). */
  lemma {:induction false} Pow2Add(a: nat, b: nat)
    ensures Pow2(a + b) == Pow2(a) * Pow2(b)
  {
    if a > 0 {
      Pow2Add(a - 1, b);
      assert Pow2(a + b) == 2 * Pow2(a - 1 + b);
      MulAssoc(2, Pow2(a - 1), Pow2(b));
    }
  }

  /** Pow2 is strictly increasing. */
  lemma {:induction false} Pow2Monotone(a: nat, b: nat)
    requires a < b
    ensures Pow2(a) < Pow2(b)
  {
    if a + 1 < b {
      Pow2Monotone(a, b - 1);
    }
  }

  /** A limit has exactly one logarithm, so the bit width `get_length` reports is determined by the limit. */
  lemma Pow2Injective(a: nat, b: nat)
    requires Pow2(a) == Pow2(b)
    ensures a == b
  {
  }

  /** If m * 2^j is a power of two, then m is 2^(k - j). */
  lemma {:induction false} Pow2Factor(m: nat, j: nat, k: nat)
    requires m * Pow2(j) == Pow2(k)
    ensures j <= k && m == Pow2(k - j)
  {
    if j > 0 {
      var half := Pow2(j - 1);
      MulAssoc(m, 2, half);
      assert m * Pow2(j) == 2 * (m * half);
      if k == 0 {
        assert false;
      }
      assert Pow2(k) == 2 * Pow2(k - 1);
      Pow2Factor(m, j - 1, k - 1);
    }
  }


  /** An odd factor greater than one keeps a number from being a power of two. */
  lemma OddFactorNotPow2(m: nat, j: nat, k: nat)
    requires m > 1 && m % 2 == 1
    ensures m * Pow2(j) != Pow2(k)
  {
    if m * Pow2(j) == Pow2(k) {
      Pow2Factor(m, j, k);
    }
  }

  /**
   * `get_length(limit)`: halves `limit` while it is at least 2, refusing an
   * odd value on the way; succeeds with the number of halvings. The final
   * `limit != 1` test of the source is kept although the loop already forces
   * it.
   */
  method GetLength(limit: nat) returns (r: Result<nat, ()>)
    ensures limit <= 1 ==> r.Err?
    ensures r.Ok? ==> r.value >= 1 && Pow2(r.value) == limit
    ensures r.Err? ==> forall k: nat :: k >= 1 ==> Pow2(k) != limit
  {
    if limit <= 1 {
      return Err(());
    }
    var rest := limit;
    var length := 0;
    while rest / 2 > 0
      invariant rest >= 1
      invariant rest * Pow2(length) == limit
      decreases rest
    {
      if rest % 2 != 0 {
        forall k: nat | k >= 1
          ensures Pow2(k) != limit
        {
          OddFactorNotPow2(rest, length, k);
        }
        return Err(());
      }
      assert rest * Pow2(length) == (rest / 2) * Pow2(length + 1);
      rest := rest / 2;
      length := length + 1;
    }
    if rest != 1 {
      assert false;
      return Err(());
    }
    return Ok(length);
  }

  /** Limits with more than one set bit are refused; powers of two give their logarithm. */
  method GetLengthExamples() returns (r6: Result<nat, ()>, r12: Result<nat, ()>, r2: Result<nat, ()>, r256: Result<nat, ()>)
    ensures r6.Err? && r12.Err?
    ensures r2 == Ok(1) && r256 == Ok(8)
  {
    r6 := GetLength(6);
    r12 := GetLength(12);
    r2 := GetLength(2);
    Pow2Injective(r2.value, 1);
    r256 := GetLength(256);
    assert Pow2(8) == 256;
    Pow2Injective(r256.value, 8);
  }
}
