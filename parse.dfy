/**
 * `parse_numbers` of src/main.rs: reads the comma-separated list of digits
 * given to `encode`. Whitespace anywhere is dropped, one leading `[` and one
 * trailing `]` are stripped, the rest is split at every `,` and each token is
 * read as a `u32`; the first token that does not read fails the whole list.
 */
module Parse {
  import opened Wrappers
  import opened Codec
  import opened Arith

  // ---------------------------------------------------------------------------
  // Characters
  // ---------------------------------------------------------------------------

  /** Rust's `char::is_whitespace`: the Unicode White_Space code points. */
  predicate IsWhitespace(c: char)
  {
    var n := c as int;
    (0x09 <= n <= 0x0D) || n == 0x20 || n == 0x85 || n == 0xA0 || n == 0x1680
    || (0x2000 <= n <= 0x200A) || n == 0x2028 || n == 0x2029 || n == 0x202F
    || n == 0x205F || n == 0x3000
  }

  predicate IsDecimalDigit(c: char)
  {
    '0' <= c <= '9'
  }

  predicate AllDecimal(s: string)
  {
    forall i :: 0 <= i < |s| ==> IsDecimalDigit(s[i])
  }

  function DigitValue(c: char): (d: nat)
    requires IsDecimalDigit(c)
    ensures d < 10
  {
    c as int - '0' as int
  }

  function DigitChar(d: nat): (c: char)
    requires d < 10
    ensures IsDecimalDigit(c) && DigitValue(c) == d
  {
    ('0' as int + d) as char
  }

  /** Number of occurrences of `c` in `s`. */
  function Count(s: string, c: char): (n: nat)
  {
    if s == [] then 0 else (if s[0] == c then 1 else 0) + Count(s[1..], c)
  }

  lemma {:induction false} CountAppend(a: string, b: string, c: char)
    ensures Count(a + b, c) == Count(a, c) + Count(b, c)
  {
    if a == [] {
      assert a + b == b;
    } else {
      assert (a + b)[1..] == a[1..] + b;
      CountAppend(a[1..], b, c);
    }
  }

  // ---------------------------------------------------------------------------
  // Whitespace removal: `text.replace(char::is_whitespace, "")`
  // ---------------------------------------------------------------------------

  function RemoveWhitespace(s: string): (r: string)
    ensures |r| <= |s|
    ensures forall i :: 0 <= i < |r| ==> !IsWhitespace(r[i])
  {
    if s == [] then []
    else
      var rest := RemoveWhitespace(s[1..]);
      if IsWhitespace(s[0]) then rest else [s[0]] + rest
  }

  /** Whitespace removal keeps every other character and adds none. */
  lemma {:induction false} RemoveWhitespaceKeeps(s: string, c: char)
    ensures c in RemoveWhitespace(s) <==> c in s && !IsWhitespace(c)
  {
    if s != [] {
      RemoveWhitespaceKeeps(s[1..], c);
      assert c in s <==> c == s[0] || c in s[1..];
    }
  }


  lemma {:induction false} RemoveWhitespaceAppend(a: string, b: string)
    ensures RemoveWhitespace(a + b) == RemoveWhitespace(a) + RemoveWhitespace(b)
  {
    if a == [] {
      assert a + b == b;
    } else {
      assert (a + b)[1..] == a[1..] + b;
      RemoveWhitespaceAppend(a[1..], b);
    }
  }

  /** Text without whitespace is left alone, so removing whitespace twice is removing it once. */
  lemma {:induction false} RemoveWhitespaceIdentity(s: string)
    requires forall i :: 0 <= i < |s| ==> !IsWhitespace(s[i])
    ensures RemoveWhitespace(s) == s
  {
    if s != [] {
      RemoveWhitespaceIdentity(s[1..]);
    }
  }

  lemma RemoveWhitespaceIdempotent(s: string)
    ensures RemoveWhitespace(RemoveWhitespace(s)) == RemoveWhitespace(s)
  {
    RemoveWhitespaceIdentity(RemoveWhitespace(s));
  }

  /** Removing whitespace keeps every comma. */
  lemma {:induction false} CountRemoveWhitespace(s: string)
    ensures Count(RemoveWhitespace(s), ',') == Count(s, ',')
  {
    if s != [] {
      CountRemoveWhitespace(s[1..]);
    }
  }

  // ---------------------------------------------------------------------------
  // Brackets: at most one leading `[` and at most one trailing `]`
  // ---------------------------------------------------------------------------

  /** Drops one leading `[` and one trailing `]`: at most one character goes from each end. */
  function StripBrackets(s: string): (r: string)
    ensures |s| - 2 <= |r| <= |s|
    ensures r == s
         || (|s| >= 1 && (r == s[1..] || r == s[..|s| - 1]))
         || (|s| >= 2 && r == s[1..|s| - 1])
  {
    var t := if |s| > 0 && s[0] == '[' then s[1..] else s;
    if |t| > 0 && t[|t| - 1] == ']' then t[..|t| - 1] else t
  }

  /** A bracketed list loses exactly its one pair of brackets, whatever it holds. */
  lemma StripBracketsWrapped(x: string)
    ensures StripBrackets("[" + x + "]") == x
  {
  }

  /** Text that neither starts with `[` nor ends with `]` is left alone. */
  lemma StripBracketsUnwrapped(x: string)
    requires x == [] || (x[0] != '[' && x[|x| - 1] != ']')
    ensures StripBrackets(x) == x
  {
  }

  lemma CountStripBrackets(s: string)
    ensures Count(StripBrackets(s), ',') == Count(s, ',')
  {
    var a := if |s| > 0 && s[0] == '[' then 1 else 0;
    var t := s[a..];
    assert s == s[..a] + t;
    CountAppend(s[..a], t, ',');
    if |t| > 0 && t[|t| - 1] == ']' {
      assert t == t[..|t| - 1] + [t[|t| - 1]];
      CountAppend(t[..|t| - 1], [t[|t| - 1]], ',');
    }
  }

  // ---------------------------------------------------------------------------
  // Splitting at commas: `text.split(",")`
  // ---------------------------------------------------------------------------

  /** The pieces between occurrences of `sep`; the empty text is one empty piece. */
  function Split(s: string, sep: char): (r: seq<string>)
    ensures |r| == Count(s, sep) + 1
    ensures forall i :: 0 <= i < |r| ==> sep !in r[i]
  {
    if s == [] then [[]]
    else
      var rest := Split(s[1..], sep);
      if s[0] == sep then [[]] + rest
      else [[s[0]] + rest[0]] + rest[1..]
  }

  /** The pieces glued back together with `sep`. */
  function Join(parts: seq<string>, sep: char): (s: string)
    requires |parts| >= 1
  {
    if |parts| == 1 then parts[0] else parts[0] + [sep] + Join(parts[1..], sep)
  }

  /** Splitting loses nothing: joining the pieces gives the text back. */
  lemma {:induction false} JoinSplit(s: string, sep: char)
    ensures Join(Split(s, sep), sep) == s
  {
    if s != [] {
      var rest := Split(s[1..], sep);
      JoinSplit(s[1..], sep);
      if s[0] == sep {
        assert ([[]] + rest)[1..] == rest;
      } else {
        var r := Split(s, sep);
        if |rest| == 1 {
          assert r == [[s[0]] + rest[0]];
        } else {
          assert r[1..] == rest[1..];
          assert Join(rest, sep) == rest[0] + [sep] + Join(rest[1..], sep);
        }
      }
    }
  }

  /** Pieces that hold no `sep` split back into themselves. */
  lemma {:induction false} SplitJoin(parts: seq<string>, sep: char)
    requires |parts| >= 1
    requires forall i :: 0 <= i < |parts| ==> sep !in parts[i]
    ensures Split(Join(parts, sep), sep) == parts
  {
    if |parts| == 1 {
      SplitNoSep(parts[0], sep);
    } else {
      SplitJoin(parts[1..], sep);
      SplitPrefix(parts[0], Join(parts[1..], sep), sep);
      assert [parts[0]] + parts[1..] == parts;
    }
  }

  lemma {:induction false} SplitNoSep(s: string, sep: char)
    requires sep !in s
    ensures Split(s, sep) == [s]
  {
    if s != [] {
      SplitNoSep(s[1..], sep);
      assert s[0] in s;
      assert [s[0]] + s[1..] == s;
    }
  }

  /** A piece without `sep`, then `sep`, then the rest: the piece comes first. */
  lemma {:induction false} SplitPrefix(p: string, rest: string, sep: char)
    requires sep !in p
    ensures Split(p + [sep] + rest, sep) == [p] + Split(rest, sep)
  {
    if p == [] {
      assert p + [sep] + rest == [sep] + rest;
      assert ([sep] + rest)[1..] == rest;
    } else {
      assert (p + [sep] + rest)[1..] == p[1..] + [sep] + rest;
      SplitPrefix(p[1..], rest, sep);
      assert [p[0]] + p[1..] == p;
    }
  }

  // ---------------------------------------------------------------------------
  // Reading one token: `u32::from_str`
  // ---------------------------------------------------------------------------

  /** The number a string of decimal digits spells, read left to right. */
  function DecimalValue(s: string): (n: nat)
    requires AllDecimal(s)
  {
    if s == [] then 0 else 10 * DecimalValue(s[..|s| - 1]) + DigitValue(s[|s| - 1])
  }

  /**
   * `u32::from_str`: an optional `+`, then one or more decimal digits whose
   * value is below 2^32. The empty text, a lone `+`, any other character and
   * an overflowing value all fail.
   */
  function ParseU32(s: string): (r: Option<u32>)
    ensures r.Some? ==> s != [] && AllDecimal(if s[0] == '+' then s[1..] else s)
    ensures r.Some? ==> r.value == DecimalValue(if s[0] == '+' then s[1..] else s)
    ensures (r.None? && s != []) ==> var d := if s[0] == '+' then s[1..] else s;
                                 d == [] || !AllDecimal(d) || DecimalValue(d) >= U32_BOUND
  {
    if s == [] then None
    else
      var digits := if s[0] == '+' then s[1..] else s;
      if digits == [] || !AllDecimal(digits) then None
      else if DecimalValue(digits) < U32_BOUND then Some(DecimalValue(digits))
      else None
  }

  /** Rust's `to_string` for a natural number: decimal, no sign, no leading zeros. */
  function DecimalString(n: nat): (s: string)
    ensures s != [] && AllDecimal(s)
    ensures s[0] != '+' && s[0] != ',' && ',' !in s
  {
    if n < 10 then [DigitChar(n)] else DecimalString(n / 10) + [DigitChar(n % 10)]
  }

  lemma {:induction false} DecimalValueOfString(n: nat)
    ensures DecimalValue(DecimalString(n)) == n
  {
    if n >= 10 {
      DecimalValueOfString(n / 10);
      var s := DecimalString(n);
      assert s[..|s| - 1] == DecimalString(n / 10);
    }
  }

  /** Reading a rendered number gives it back, with or without a leading `+`, exactly when it fits a u32. */
  lemma ParseU32OfDecimalString(n: nat)
    ensures ParseU32(DecimalString(n)) == if n < U32_BOUND then Some(n) else None
    ensures ParseU32("+" + DecimalString(n)) == if n < U32_BOUND then Some(n) else None
  {
    DecimalValueOfString(n);
    assert ("+" + DecimalString(n))[1..] == DecimalString(n);
  }

  /** Edge cases of the token reader. */
  lemma ParseU32Examples()
    ensures ParseU32("") == None && ParseU32("+") == None && ParseU32("-7") == None
    ensures ParseU32("+7") == Some(7) && ParseU32("007") == Some(7)
  {
    assert "007"[..2] == "00" && "00"[..1] == "0";
  }

  /** `k` copies of the digit `0`. */
  function Zeros(k: nat): (z: string)
    ensures |z| == k && AllDecimal(z)
  {
    if k == 0 then [] else "0" + Zeros(k - 1)
  }

  /** A leading zero does not change the value. */
  lemma {:induction false} LeadingZeroValue(t: string)
    requires AllDecimal(t)
    ensures AllDecimal("0" + t) && DecimalValue("0" + t) == DecimalValue(t)
  {
    var u := "0" + t;
    if t == [] {
      assert u[..|u| - 1] == [];
    } else {
      assert u[..|u| - 1] == "0" + t[..|t| - 1];
      LeadingZeroValue(t[..|t| - 1]);
    }
  }

  lemma {:induction false} ZerosValue(k: nat, t: string)
    requires AllDecimal(t)
    ensures AllDecimal(Zeros(k) + t) && DecimalValue(Zeros(k) + t) == DecimalValue(t)
  {
    if k == 0 {
      assert Zeros(k) + t == t;
    } else {
      ZerosValue(k - 1, t);
      assert Zeros(k) + t == "0" + (Zeros(k - 1) + t);
      LeadingZeroValue(Zeros(k - 1) + t);
    }
  }

  lemma {:induction false} DecimalValuePositive(d: string)
    requires d != [] && AllDecimal(d) && d[0] != '0'
    ensures DecimalValue(d) >= 1
  {
    if |d| > 1 {
      DecimalValuePositive(d[..|d| - 1]);
    } else {
      assert d[..|d| - 1] == [];
    }
  }

  /** Decimal digits without a leading zero are the rendering of their value. */
  lemma {:induction false} CanonicalDecimal(d: string)
    requires d != [] && AllDecimal(d) && (d[0] != '0' || |d| == 1)
    ensures DecimalString(DecimalValue(d)) == d
  {
    var c := d[|d| - 1];
    if |d| == 1 {
      assert d[..|d| - 1] == [];
      assert DigitChar(DigitValue(c)) == c;
    } else {
      var p := d[..|d| - 1];
      CanonicalDecimal(p);
      DecimalValuePositive(p);
      var v := DecimalValue(d);
      DivModUnique(v, 10, DecimalValue(p), DigitValue(c));
      assert DigitChar(DigitValue(c)) == c;
      assert d == p + [c];
    }
  }

  /** Any decimal digits are some zeros followed by the rendering of their value. */
  lemma {:induction false} ZerosThenCanonical(d: string) returns (k: nat)
    requires d != [] && AllDecimal(d)
    ensures d == Zeros(k) + DecimalString(DecimalValue(d))
  {
    if d[0] == '0' && |d| > 1 {
      var tail := d[1..];
      var k1 := ZerosThenCanonical(tail);
      assert d == "0" + tail;
      LeadingZeroValue(tail);
      var w := DecimalString(DecimalValue(tail));
      assert DecimalString(DecimalValue(d)) == w;
      k := k1 + 1;
      assert Zeros(k) + w == "0" + (Zeros(k1) + w);
    } else {
      CanonicalDecimal(d);
      k := 0;
      assert Zeros(0) + d == d;
    }
  }

  /** A token that reads names its value in decimal, after an optional `+` and some zeros. */
  lemma ParseU32Padded(s: string) returns (k: nat)
    requires ParseU32(s).Some?
    ensures s == Zeros(k) + DecimalString(ParseU32(s).value)
         || s == "+" + Zeros(k) + DecimalString(ParseU32(s).value)
  {
    var d := if s[0] == '+' then s[1..] else s;
    k := ZerosThenCanonical(d);
    if s[0] == '+' {
      assert s == "+" + d;
    }
  }

  /** Zeros in front of a rendered number, with or without a `+`, read as that number when it fits. */
  lemma ParseU32OfPadded(k: nat, n: nat)
    ensures ParseU32(Zeros(k) + DecimalString(n)) == if n < U32_BOUND then Some(n) else None
    ensures ParseU32("+" + Zeros(k) + DecimalString(n)) == if n < U32_BOUND then Some(n) else None
  {
    var t := Zeros(k) + DecimalString(n);
    ZerosValue(k, DecimalString(n));
    DecimalValueOfString(n);
    if k > 0 {
      assert t[0] == Zeros(k)[0];
    }
    assert "+" + Zeros(k) + DecimalString(n) == "+" + t;
    assert ("+" + t)[1..] == t;
  }

  /**
   * What `u32::from_str` accepts, stated against the decimal rendering: a
   * token reads as `n` exactly when `n` fits a u32 and the token is `n` in
   * decimal, after an optional `+` and any number of leading zeros.
   */
  lemma ParseU32Decimal(s: string, n: nat)
    ensures ParseU32(s) == Some(n) <==>
            n < U32_BOUND
            && exists k: nat :: s == Zeros(k) + DecimalString(n) || s == "+" + Zeros(k) + DecimalString(n)
  {
    if ParseU32(s) == Some(n) {
      var k := ParseU32Padded(s);
    }
    if n < U32_BOUND && exists k: nat :: s == Zeros(k) + DecimalString(n) || s == "+" + Zeros(k) + DecimalString(n) {
      var k: nat :| s == Zeros(k) + DecimalString(n) || s == "+" + Zeros(k) + DecimalString(n);
      ParseU32OfPadded(k, n);
    }
  }

  // ---------------------------------------------------------------------------
  // `parse_numbers`
  // ---------------------------------------------------------------------------

  /** The tokens `parse_numbers` reads. */
  function Tokens(text: string): (r: seq<string>)
    ensures |r| == Count(text, ',') + 1
  {
    var t := StripBrackets(RemoveWhitespace(text));
    CountRemoveWhitespace(text);
    CountStripBrackets(RemoveWhitespace(text));
    Split(t, ',')
  }

  /** Empty text and `[]` hold one empty token, so `parse_numbers` refuses both. */
  lemma TokensOfEmptyList()
    ensures Tokens("") == [[]] && Tokens("[]") == [[]]
  {
    RemoveWhitespaceIdentity("[]");
    assert StripBrackets("[]") == [];
  }

  /** Only one bracket is stripped from each end: `[[1]]` holds the token `[1]`. */
  lemma TokensStripOnce()
    ensures Tokens("[[1]]") == ["[1]"]
  {
    RemoveWhitespaceIdentity("[[1]]");
    assert StripBrackets("[[1]]") == "[1]";
    SplitNoSep("[1]", ',');
  }


  method ParseNumbers(text: string) returns (r: Option<seq<u32>>)
    ensures r.Some? <==> forall i :: 0 <= i < |Tokens(text)| ==> ParseU32(Tokens(text)[i]).Some?
    ensures r.Some? ==> |r.value| == Count(text, ',') + 1
    ensures r.Some? ==> forall i :: 0 <= i < |r.value| ==> ParseU32(Tokens(text)[i]) == Some(r.value[i])
  {
    var t := RemoveWhitespace(text);
    if |t| > 0 && t[0] == '[' {
      t := t[1..];
    }
    if |t| > 0 && t[|t| - 1] == ']' {
      t := t[..|t| - 1];
    }
    var tokens := Split(t, ',');
    assert tokens == Tokens(text);
    var numbers: seq<u32> := [];
    for i := 0 to |tokens|
      invariant |numbers| == i
      invariant forall j :: 0 <= j < i ==> ParseU32(tokens[j]) == Some(numbers[j])
    {
      var p := ParseU32(tokens[i]);
      if p.None? {
        return None;
      }
      numbers := numbers + [p.value];
    }
    return Some(numbers);
  }

  // ---------------------------------------------------------------------------
  // The list text `decode` prints, read back
  // ---------------------------------------------------------------------------

  /** The digits rendered in decimal, one string each. */
  function DecimalStrings(ds: seq<u32>): (r: seq<string>)
    ensures |r| == |ds|
    ensures forall i :: 0 <= i < |ds| ==> r[i] == DecimalString(ds[i])
  {
    if ds == [] then [] else [DecimalString(ds[0])] + DecimalStrings(ds[1..])
  }

  /** The digits separated by `", "`. */
  function JoinedList(ds: seq<u32>): (s: string)
  {
    if ds == [] then []
    else if |ds| == 1 then DecimalString(ds[0])
    else DecimalString(ds[0]) + ", " + JoinedList(ds[1..])
  }

  /** The `decode` command's output text: `[` + the digits joined by `", "` + `]`. */
  function RenderList(ds: seq<u32>): (s: string)
  {
    "[" + JoinedList(ds) + "]"
  }

  lemma DecimalStringNoWhitespace(n: nat)
    ensures RemoveWhitespace(DecimalString(n)) == DecimalString(n)
  {
    RemoveWhitespaceIdentity(DecimalString(n));
  }

  lemma {:induction false} JoinedListWithoutSpaces(ds: seq<u32>)
    requires ds != []
    ensures RemoveWhitespace(JoinedList(ds)) == Join(DecimalStrings(ds), ',')
  {
    DecimalStringNoWhitespace(ds[0]);
    if |ds| > 1 {
      JoinedListWithoutSpaces(ds[1..]);
      var head := DecimalString(ds[0]);
      RemoveWhitespaceAppend(head + ", ", JoinedList(ds[1..]));
      RemoveWhitespaceAppend(head, ", ");
      assert RemoveWhitespace(", ") == ",";
      assert DecimalStrings(ds)[1..] == DecimalStrings(ds[1..]);
    }
  }

  /** The tokens of a printed non-empty list are the decimal strings of its digits. */
  lemma TokensOfRenderList(ds: seq<u32>)
    requires ds != []
    ensures Tokens(RenderList(ds)) == DecimalStrings(ds)
  {
    JoinedListWithoutSpaces(ds);
    var j := Join(DecimalStrings(ds), ',');
    RemoveWhitespaceAppend("[" + JoinedList(ds), "]");
    RemoveWhitespaceAppend("[", JoinedList(ds));
    assert RemoveWhitespace("[") == "[" && RemoveWhitespace("]") == "]";
    StripBracketsWrapped(j);
    SplitJoin(DecimalStrings(ds), ',');
  }

  /**
   * A list printed by `decode` reads back as the same digits; the empty list
   * prints as `[]`, which does not read back.
   */
  method ParseRenderedList(ds: seq<u32>) returns (r: Option<seq<u32>>)
    ensures ds != [] ==> r == Some(ds)
    ensures ds == [] ==> r == None
  {
    r := ParseNumbers(RenderList(ds));
    if ds != [] {
      TokensOfRenderList(ds);
      forall i | 0 <= i < |ds|
        ensures ParseU32(Tokens(RenderList(ds))[i]) == Some(ds[i])
      {
        ParseU32OfDecimalString(ds[i]);
      }
      assert r.Some?;
      assert |r.value| == |Tokens(RenderList(ds))| == |ds|;
      assert forall i :: 0 <= i < |ds| ==> r.value[i] == ds[i];
      assert r.value == ds;
    } else {
      assert RenderList(ds) == "[]";
      assert RemoveWhitespace("[]") == "[]";
      assert Tokens(RenderList(ds)) == [[]];
      assert ParseU32(Tokens(RenderList(ds))[0]).None?;
    }
  }
}
