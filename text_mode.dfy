/**
 * The text modes `encodestr` and `decodestr` of src/main.rs: the codec with
 * the limit fixed at 256 and the bit width at 8, one digit per byte. Turning
 * text into bytes and back (UTF-8) is not part of this model.
 */
module TextMode {
  import opened Wrappers
  import opened Radix
  import opened Codec

  /** A byte, Rust's `u8`. */
  type u8 = n: nat | n < 256

  /** Rust's `n as u8` for a u32 `n`: keeps the low 8 bits. */
  function CastU8(n: nat): (r: u8)
    ensures (n - r) % 256 == 0
    ensures n < 256 ==> r == n
  {
    n % 256
  }

  lemma Pow2Of8()
    ensures Pow2(8) == 256
  {
  }

  /** `encodestr`, with the digit test of `encode` as written: every byte is below 256, so encoding always succeeds with the bytes' positional value. */
  method EncodeStr(bytes: seq<u8>) returns (r: Option<nat>)
    ensures r == Some(PositionalSum(bytes, 256))
  {
    Pow2Of8();
    var digits: seq<u32> := bytes;
    r := EncodeAsWritten(digits, 256, 8);
  }

  /** `decodestr` up to the UTF-8 step: decode at 256/8, then `as u8` on each digit, which loses nothing. */
  method DecodeStr(number: nat) returns (bytes: seq<u8>)
    ensures bytes == Digits(number, 256, 8)
    ensures Value(bytes, 256) == number
    ensures bytes == [] || bytes[|bytes| - 1] != 0
  {
    Pow2Of8();
    var ds := Decode(number, 256, 8);
    bytes := [];
    for i := 0 to |ds|
      invariant bytes == ds[..i]
    {
      bytes := bytes + [CastU8(ds[i])];
    }
    assert ds[..|ds|] == ds;
  }

  /** Text round trip: a byte string comes back with its trailing zero bytes removed. */
  lemma TextRoundTrip(bytes: seq<u8>)
    ensures Digits(PositionalSum(bytes, 256), 256, 8) == TrimZeros(bytes)
  {
    Pow2Of8();
    ValueIsPositionalSum(bytes, 256);
    DigitsOfValue(bytes, 8);
  }

  /** A byte string that does not end in a zero byte comes back exactly. */
  lemma TextRoundTripExact(bytes: seq<u8>)
    requires bytes == [] || bytes[|bytes| - 1] != 0
    ensures Digits(PositionalSum(bytes, 256), 256, 8) == bytes
  {
    TextRoundTrip(bytes);
    TrimZerosIdentity(bytes);
  }

  /** "A" (the byte 65) encodes to 65, and 65 decodes to the single byte 65. */
  lemma LetterAExample()
    ensures PositionalSum([65], 256) == 65
    ensures Digits(65, 256, 8) == [65]
  {
    Pow2Of8();
    assert PositionalSum([65], 256) == PositionalSum([], 256) + 65 * Power(256, 0);
    DigitsStep(65, 256, 8);
    assert 65 / Pow2(8) == 0;
  }
}
