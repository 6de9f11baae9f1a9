/**
 * The positional codec of src/main.rs: `encode` packs a list of u32 digits into
 * one arbitrary-precision integer (the first-listed digit least significant),
 * `decode` unpacks it again. BigUint is `nat`; `x << length` is
 * `x * Pow2(length)`, `x >> length` is `x / Pow2(length)`.
 */
module Codec {
  import opened Wrappers
  import opened Radix
  import opened Arith

  const U32_BOUND: nat := 0x1_0000_0000

  /** Rust's `u32`. */
  type u32 = n: nat | n < U32_BOUND

  /** Rust's `limit as u32` for a `usize` limit: keeps the low 32 bits. */
  function CastU32(x: nat): (r: u32)
    ensures (x - r) % U32_BOUND == 0
    ensures x < U32_BOUND ==> r == x
  {
    x % U32_BOUND
  }

  // ---------------------------------------------------------------------------
  // Specification functions
  // ---------------------------------------------------------------------------

  /** The number a digit list stands for, first digit least significant (Horner form). */
  function Value(ds: seq<nat>, base: nat): (v: nat)
  {
    if ds == [] then 0 else ds[0] + base * Value(ds[1..], base)
  }

  /** base^e. */
  function Power(base: nat, e: nat): (p: nat)
  {
    if e == 0 then 1 else base * Power(base, e - 1)
  }

  /** Closed form: the sum over i of ds[i] * base^i. */
  function PositionalSum(ds: seq<nat>, base: nat): (v: nat)
  {
    if ds == [] then 0
    else PositionalSum(ds[..|ds| - 1], base) + ds[|ds| - 1] * Power(base, |ds| - 1)
  }

  /** Every digit is below `bound`. */
  predicate AllBelow(ds: seq<nat>, bound: nat)
  {
    forall i :: 0 <= i < |ds| ==> ds[i] < bound
  }

  /** Every digit is zero. */
  predicate AllZero(ds: seq<nat>)
  {
    forall i :: 0 <= i < |ds| ==> ds[i] == 0
  }

  /** The digits `decode` produces for `n`: remainder by `limit`, then shift right by `length`, until 0. */
  function Digits(n: nat, limit: nat, length: nat): (r: seq<nat>)
    requires n == 0 || (limit >= 1 && length >= 1)
    ensures (r == []) <==> (n == 0)
    ensures AllBelow(r, limit)
    ensures limit == Pow2(length) && r != [] ==> r[|r| - 1] != 0
    decreases n
  {
    if n == 0 then []
    else
      DivShrinks(n, Pow2(length));
      var rest := Digits(n / Pow2(length), limit, length);
      DivZeroMod(n, Pow2(length));
      [n % limit] + rest
  }

  /** `ds` with its trailing (most significant) zero digits removed. */
  function TrimZeros(ds: seq<nat>): (r: seq<nat>)
  {
    if ds == [] then []
    else
      var t := TrimZeros(ds[1..]);
      if t == [] && ds[0] == 0 then [] else [ds[0]] + t
  }

  // ---------------------------------------------------------------------------
  // Lemmas about the specification
  // ---------------------------------------------------------------------------

  /** One step of decode: the low digit, then the digits of the number shifted right. */
  lemma DigitsStep(n: nat, limit: nat, length: nat)
    requires n > 0 && limit >= 1 && length >= 1
    ensures 0 <= n / Pow2(length) < n
    ensures Digits(n, limit, length) == [n % limit] + Digits(n / Pow2(length), limit, length)
  {
    DivShrinks(n, Pow2(length));
  }

  /** One iteration of the decode loop keeps the digits still to come equal to the digits of what is left. */
  lemma DecodeStep(r: seq<nat>, rest: nat, number: nat, limit: nat, length: nat)
    requires 0 < rest <= number && limit >= 1 && length >= 1
    requires r + Digits(rest, limit, length) == Digits(number, limit, length)
    ensures 0 <= rest / Pow2(length) < rest
    ensures (r + [rest % limit]) + Digits(rest / Pow2(length), limit, length) == Digits(number, limit, length)
  {
    DigitsStep(rest, limit, length);
  }

  /** TrimZeros keeps a prefix whose last digit is nonzero and drops only zeros. */
  lemma {:induction false} TrimZerosShape(ds: seq<nat>)
    ensures |TrimZeros(ds)| <= |ds|
    ensures TrimZeros(ds) == ds[..|TrimZeros(ds)|]
    ensures AllZero(ds[|TrimZeros(ds)|..])
    ensures TrimZeros(ds) == [] || TrimZeros(ds)[|TrimZeros(ds)| - 1] != 0
  {
    if ds != [] {
      TrimZerosShape(ds[1..]);
      var t := TrimZeros(ds[1..]);
      if t == [] && ds[0] == 0 {
        assert ds[0..] == ds;
      } else {
        assert ds[|t| + 1..] == ds[1..][|t|..];
      }
    }
  }

  /** TrimZeros leaves a list alone exactly when it has no trailing zero. */
  lemma {:induction false} TrimZerosIdentity(ds: seq<nat>)
    ensures TrimZeros(ds) == ds <==> (ds == [] || ds[|ds| - 1] != 0)
  {
    TrimZerosShape(ds);
    if ds != [] && ds[|ds| - 1] != 0 {
      TrimZerosNonzeroLast(ds);
    }
  }

  lemma {:induction false} TrimZerosNonzeroLast(ds: seq<nat>)
    requires ds != [] && ds[|ds| - 1] != 0
    ensures TrimZeros(ds) == ds
  {
    if |ds| > 1 {
      TrimZerosNonzeroLast(ds[1..]);
    } else {
      assert ds[1..] == [];
    }
  }

  /** Value is zero exactly when every digit is zero. */
  lemma {:induction false} ValueZero(ds: seq<nat>, base: nat)
    requires base >= 1
    ensures Value(ds, base) == 0 <==> AllZero(ds)
  {
    if ds != [] {
      ValueZero(ds[1..], base);
      assert AllZero(ds) <==> ds[0] == 0 && AllZero(ds[1..]);
    }
  }

  /** Appending a digit adds it at weight base^|ds|. */
  lemma {:induction false} ValueSnoc(ds: seq<nat>, d: nat, base: nat)
    ensures Value(ds + [d], base) == Value(ds, base) + d * Power(base, |ds|)
  {
    if ds == [] {
      assert Value([d], base) == d + base * Value([], base);
    } else {
      var tail := ds[1..];
      assert (ds + [d])[1..] == tail + [d];
      ValueSnoc(tail, d, base);
      var p := Power(base, |tail|);
      var vt := Value(tail, base);
      calc {
        Value(ds + [d], base);
        ds[0] + base * (vt + d * p);
        { MulDistributes(base, vt, d * p); }
        ds[0] + base * vt + base * (d * p);
        { MulSwap(base, d, p); }
        Value(ds, base) + d * Power(base, |ds|);
      }
    }
  }

  /** The Horner form equals the closed-form positional sum. */
  lemma {:induction false} ValueIsPositionalSum(ds: seq<nat>, base: nat)
    ensures Value(ds, base) == PositionalSum(ds, base)
  {
    if ds != [] {
      var init := ds[..|ds| - 1];
      ValueIsPositionalSum(init, base);
      assert init + [ds[|ds| - 1]] == ds;
      ValueSnoc(init, ds[|ds| - 1], base);
    }
  }

  /** A shift by `length` bits `i` times is a multiplication by (2^length)^i. */
  lemma {:induction false} PowerOfPow2(length: nat, i: nat)
    ensures Power(Pow2(length), i) == Pow2(length * i)
  {
    if i > 0 {
      PowerOfPow2(length, i - 1);
      Pow2Add(length, length * (i - 1));
      assert length * i == length + length * (i - 1);
    }
  }

  /** Digits below the base keep the value below base^|ds|: the packed value needs at most |ds| * length bits. */
  lemma {:induction false} ValueBound(ds: seq<nat>, base: nat)
    requires base >= 1 && AllBelow(ds, base)
    ensures Value(ds, base) < Power(base, |ds|)
  {
    if ds != [] {
      ValueBound(ds[1..], base);
      var v := Value(ds[1..], base);
      var p := Power(base, |ds| - 1);
      MulDistributes(base, v, 1);
      MulMonotone(base, v + 1, p);
      assert Value(ds, base) == ds[0] + base * v;
    }
  }

  /** Decode after encode: the digits come back with the trailing zeros removed. */
  lemma {:induction false} DigitsOfValue(ds: seq<nat>, length: nat)
    requires length >= 1 && AllBelow(ds, Pow2(length))
    ensures Digits(Value(ds, Pow2(length)), Pow2(length), length) == TrimZeros(ds)
  {
    var base := Pow2(length);
    if ds != [] {
      var tail := ds[1..];
      DigitsOfValue(tail, length);
      var v := Value(ds, base);
      var vt := Value(tail, base);
      assert v == ds[0] + base * vt;
      if v > 0 {
        DivModUnique(v, base, vt, ds[0]);
        DigitsStep(v, base, length);
      } else if vt > 0 {
        MulMonotone(base, 1, vt);
        assert false;
      }
    }
  }


  /** Encode after decode: the digits decode produces pack back to the number. */
  lemma {:induction false} ValueOfDigits(n: nat, length: nat)
    requires length >= 1
    ensures Value(Digits(n, Pow2(length), length), Pow2(length)) == n
  {
    var base := Pow2(length);
    if n > 0 {
      DigitsStep(n, base, length);
      var q := n / base;
      ValueOfDigits(q, length);
      var ds := Digits(n, base, length);
      assert ds[1..] == Digits(q, base, length);
      assert Value(ds, base) == n % base + base * q;
      DivMod(n, base);
    }
  }

  // ---------------------------------------------------------------------------
  // The operations
  // ---------------------------------------------------------------------------

  /**
   * The loop of `encode`: walk the digits from the last to the first, refuse a
   * digit at or above `bound`, otherwise shift the accumulator left by `length`
   * and add the digit. No partial result escapes.
   */
  method EncodeBelow(numbers: seq<u32>, bound: nat, length: nat) returns (r: Option<nat>)
    ensures r.None? <==> !AllBelow(numbers, bound)
    ensures r.Some? ==> r.value == PositionalSum(numbers, Pow2(length))
  {
    var result: nat := 0;
    for i := |numbers| downto 0
      invariant AllBelow(numbers[i..], bound)
      invariant result == Value(numbers[i..], Pow2(length))
    {
      var n := numbers[i];
      if n >= bound {
        return None;
      }
      assert numbers[i..][1..] == numbers[i + 1..];
      result := result * Pow2(length);
      result := result + n;
    }
    assert numbers[0..] == numbers;
    ValueIsPositionalSum(numbers, Pow2(length));
    return Some(result);
  }

  /** `encode` as written: the digit test is `n >= limit as u32`, so the limit is cut to its low 32 bits. */
  method EncodeAsWritten(numbers: seq<u32>, limit: nat, length: nat) returns (r: Option<nat>)
    ensures r.None? <==> !AllBelow(numbers, CastU32(limit))
    ensures r.Some? ==> r.value == PositionalSum(numbers, Pow2(length))
  {
    r := EncodeBelow(numbers, CastU32(limit), length);
  }

  /** `encode` as intended: a digit is refused exactly when it is at or above the limit. */
  method Encode(numbers: seq<u32>, limit: nat, length: nat) returns (r: Option<nat>)
    ensures r.None? <==> !AllBelow(numbers, limit)
    ensures r.Some? ==> r.value == PositionalSum(numbers, Pow2(length))
  {
    r := EncodeBelow(numbers, limit, length);
  }

  /**
   * `decode`: while the number is positive, push `number % limit` and shift
   * the number right by `length`.
   */
  method Decode(number: nat, limit: nat, length: nat) returns (r: seq<nat>)
    requires number == 0 || (limit >= 1 && length >= 1)
    ensures r == Digits(number, limit, length)
    ensures number == 0 ==> r == []
    ensures AllBelow(r, limit)
    ensures limit == Pow2(length) ==> Value(r, limit) == number
    ensures limit == Pow2(length) && r != [] ==> r[|r| - 1] != 0
  {
    var rest: nat := number;
    r := [];
    while rest > 0
      invariant rest <= number
      invariant r + Digits(rest, limit, length) == Digits(number, limit, length)
      decreases rest
    {
      DecodeStep(r, rest, number, limit, length);
      var n := rest % limit;
      rest := rest / Pow2(length);
      r := r + [n];
    }
    assert r == Digits(number, limit, length) by {
      assert r + [] == r;
    }
    if limit == Pow2(length) && number > 0 {
      ValueOfDigits(number, length);
    }
  }

  // ---------------------------------------------------------------------------
  // Clients: the two round trips through the methods
  // ---------------------------------------------------------------------------

  /** Decode of an encoding gives the digits back without their trailing zeros. */
  method DecodeAfterEncode(numbers: seq<u32>, length: nat) returns (r: Option<seq<nat>>)
    requires 1 <= length
    requires AllBelow(numbers, Pow2(length))
    ensures r == Some(TrimZeros(numbers))
  {
    var e := Encode(numbers, Pow2(length), length);
    var v := e.value;
    ValueIsPositionalSum(numbers, Pow2(length));
    DigitsOfValue(numbers, length);
    var ds := Decode(v, Pow2(length), length);
    r := Some(ds);
  }

  /** Encode of a decoding gives the number back, for every limit 2^length that fits a u32 digit. */
  method EncodeAfterDecode(number: nat, length: nat) returns (r: Option<nat>)
    requires 1 <= length <= 32
    ensures r == Some(number)
  {
    var limit := Pow2(length);
    Pow2Below(length);
    var ds := Decode(number, limit, length);
    var digits: seq<u32> := ds;
    r := Encode(digits, limit, length);
    ValueIsPositionalSum(ds, limit);
  }

  /** 2^32 is the first value past u32. */
  lemma Pow2Of32()
    ensures Pow2(32) == U32_BOUND
  {
    var p8 := Pow2(8);
    assert p8 == 256;
    Pow2Add(8, 8);
    var p16 := Pow2(16);
    assert p16 == 256 * 256;
    Pow2Add(16, 16);
    assert Pow2(32) == p16 * p16;
  }

  lemma Pow2Below(length: nat)
    requires length <= 32
    ensures Pow2(length) <= U32_BOUND
  {
    Pow2Of32();
    if length < 32 {
      Pow2Monotone(length, 32);
    }
  }

  /** [1, 2, 3] at 16/4 packs to 1 + 2*16 + 3*256 = 801, and 801 unpacks to [1, 2, 3]; 0 unpacks to []. */
  lemma MultiDigitExample()
    ensures PositionalSum([1, 2, 3], 16) == 801
    ensures Digits(801, 16, 4) == [1, 2, 3]
    ensures Digits(0, 16, 4) == []
  {
    assert Pow2(4) == 16;
    ValueIsPositionalSum([1, 2, 3], 16);
    assert [1, 2, 3][1..] == [2, 3] && [2, 3][1..] == [3];
    DigitsStep(801, 16, 4);
    DigitsStep(50, 16, 4);
    DigitsStep(3, 16, 4);
  }

  // ---------------------------------------------------------------------------
  // The `limit as u32` truncation in `encode`
  // ---------------------------------------------------------------------------

  /** Every power-of-two limit from 2^32 on casts to the u32 value 0. */
  lemma TruncatedLimitIsZero(k: nat)
    requires k >= 32
    ensures CastU32(Pow2(k)) == 0
  {
    Pow2Of32();
    Pow2Add(32, k - 32);
    DivModUnique(Pow2(k), U32_BOUND, Pow2(k - 32), 0);
  }

  /**
   * For a limit 2^k with k >= 32, which `get_length` accepts, every u32 digit
   * is below the limit, yet the as-written test refuses every non-empty list.
   */
  lemma AsWrittenRefusesValidDigits(numbers: seq<u32>, k: nat)
    requires k >= 32 && numbers != []
    ensures AllBelow(numbers, Pow2(k))
    ensures !AllBelow(numbers, CastU32(Pow2(k)))
  {
    TruncatedLimitIsZero(k);
    Pow2Of32();
    if k > 32 {
      Pow2Monotone(32, k);
    }
    assert numbers[0] >= 0;
  }

  /** The concrete input `encode [0] with limit 4294967296`: refused as written, accepted as intended. */
  method TruncationCounterexample() returns (asWritten: Option<nat>, intended: Option<nat>)
    ensures asWritten == None
    ensures intended == Some(0)
  {
    Pow2Of32();
    asWritten := EncodeAsWritten([0], U32_BOUND, 32);
    intended := Encode([0], U32_BOUND, 32);
    assert PositionalSum([0], Pow2(32)) == 0 by {
      ValueIsPositionalSum([0], Pow2(32));
    }
  }
}
