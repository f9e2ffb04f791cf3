/**
 * The two pieces of .NET number formatting the protocol client relies on:
 * `long.ToString()` for the on-air frequency and `int.TryParse` for the
 * record count in a submission reply.  Both are modelled for the invariant
 * culture: ASCII digits, `-` and `+` as the only sign symbols.
 */
module Numeric {
  import opened Wrappers

  const Int32Min: int := -0x8000_0000
  const Int32Max: int := 0x7FFF_FFFF

  /** C# `long`. */
  newtype int64 = x: int | -0x8000_0000_0000_0000 <= x < 0x8000_0000_0000_0000

  predicate IsDigit(c: char) { '0' <= c <= '9' }

  predicate AllDigits(s: string) { forall i :: 0 <= i < |s| ==> IsDigit(s[i]) }

  /** The number a string of decimal digits denotes (most significant first). */
  function DigitsValue(s: string): nat
    requires AllDigits(s)
  {
    if s == [] then 0 else DigitsValue(s[..|s| - 1]) * 10 + (s[|s| - 1] as int - '0' as int)
  }

  /** The shortest decimal spelling of a natural number. */
  function NatToDecimal(n: nat): (s: string)
    ensures |s| > 0 && AllDigits(s)
    ensures s[0] == '0' <==> n == 0
    ensures n == 0 ==> s == "0"
  {
    if n < 10 then [('0' as int + n) as char]
    else NatToDecimal(n / 10) + [('0' as int + n % 10) as char]
  }

  /** `long.ToString()`: a leading `-` for negative values, then the digits. */
  function FormatInt64(n: int64): (r: string)
    ensures n < 0 ==> |r| >= 2 && r[0] == '-' && AllDigits(r[1..]) && r[1] != '0'
    ensures n >= 0 ==> |r| > 0 && AllDigits(r) && (r[0] == '0' <==> n == 0)
    ensures r[0] == '0' ==> r == "0"
  {
    if n < 0 then "-" + NatToDecimal(-(n as int)) else NatToDecimal(n as int)
  }

  /** An optional sign followed by one or more decimal digits, read exactly. */
  function ParseDecimal(s: string): (r: Option<int>)
    ensures r.Some? ==> |s| > 0
  {
    if |s| > 1 && (s[0] == '-' || s[0] == '+') && AllDigits(s[1..]) then
      Some(if s[0] == '-' then -(DigitsValue(s[1..]) as int) else DigitsValue(s[1..]))
    else if |s| > 0 && AllDigits(s) then Some(DigitsValue(s))
    else None
  }

  /** The white-space characters `NumberStyles.Integer` allows around a number. */
  predicate IsWhite(c: char) { c == ' ' || '\t' <= c <= '\r' }

  function TrimStart(s: string): (r: string)
    ensures |r| <= |s| && r == s[|s| - |r|..]
    ensures r == [] || !IsWhite(r[0])
  {
    if |s| > 0 && IsWhite(s[0]) then TrimStart(s[1..]) else s
  }

  function TrimEnd(s: string): (r: string)
    ensures |r| <= |s| && r == s[..|r|]
    ensures r == [] || !IsWhite(r[|r| - 1])
  {
    if |s| > 0 && IsWhite(s[|s| - 1]) then TrimEnd(s[..|s| - 1]) else s
  }

  /**
   * `int.TryParse(s, out n)` on a non-null string: surrounding white space
   * is ignored, then an optionally signed decimal must remain whose value
   * fits in a 32-bit signed integer; `None` is the `false` return.
   */
  function TryParseInt32(s: string): (r: Option<int>)
    ensures r.Some? ==> Int32Min <= r.value <= Int32Max
  {
    match ParseDecimal(TrimEnd(TrimStart(s)))
    case Some(n) => if Int32Min <= n <= Int32Max then Some(n) else None
    case None => None
  }

  /** Reading back the digits of `NatToDecimal(n)` gives `n`. */
  lemma {:induction false} DecimalRoundTrip(n: nat)
    ensures DigitsValue(NatToDecimal(n)) == n
  {
    if n >= 10 {
      var s := NatToDecimal(n);
      assert s[..|s| - 1] == NatToDecimal(n / 10);
      DecimalRoundTrip(n / 10);
    }
  }

  /** `long.ToString()` is read back exactly by the decimal reader. */
  lemma FormatInt64RoundTrip(n: int64)
    ensures ParseDecimal(FormatInt64(n)) == Some(n as int)
  {
    var s := FormatInt64(n);
    if n < 0 {
      assert s[1..] == NatToDecimal(-(n as int));
      DecimalRoundTrip(-(n as int));
    } else {
      assert IsDigit(s[0]);
      DecimalRoundTrip(n as int);
    }
  }

  /**
   * `int.TryParse` accepts the spelling of a `long` exactly when the value
   * fits in 32 bits, and then returns that value.
   */
  lemma TryParseFormatted(n: int64)
    ensures TryParseInt32(FormatInt64(n)) ==
            if Int32Min <= n as int <= Int32Max then Some(n as int) else None
  {
    var s := FormatInt64(n);
    assert !IsWhite(s[0]) && !IsWhite(s[|s| - 1]);
    assert TrimEnd(TrimStart(s)) == s;
    FormatInt64RoundTrip(n);
  }

  /** Surrounding white space does not change what `int.TryParse` reads. */
  lemma {:induction false} TryParseIgnoresWhite(s: string, c: char)
    requires IsWhite(c)
    ensures TryParseInt32([c] + s) == TryParseInt32(s)
    ensures TryParseInt32(s + [c]) == TryParseInt32(s)
  {
    assert ([c] + s)[1..] == s;
    TrimEndAppendWhite(TrimStart(s), c);
    TrimStartAppendWhite(s, c);
    assert (s + [c])[..|s|] == s;
  }

  lemma {:induction false} TrimEndAppendWhite(s: string, c: char)
    requires IsWhite(c)
    ensures TrimEnd(s + [c]) == TrimEnd(s)
  {
    assert (s + [c])[..|s|] == s;
  }

  lemma {:induction false} TrimStartAppendWhite(s: string, c: char)
    requires IsWhite(c)
    ensures TrimStart(s + [c]) == TrimStart(s) + [c] || (TrimStart(s) == [] && TrimStart(s + [c]) == [])
  {
    if |s| > 0 && IsWhite(s[0]) {
      assert (s + [c])[1..] == s[1..] + [c];
      TrimStartAppendWhite(s[1..], c);
    } else if |s| == 0 {
      assert s + [c] == [c];
      assert ([c])[1..] == [];
    }
  }
}
