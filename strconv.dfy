/** `strconv.ParseInt(s, 10, 64)`: an optional sign, then one or more decimal
    digits, with the value inside the range of `int64`. */
module Strconv {
  import opened Bytes

  const MinInt64: int := -0x8000_0000_0000_0000
  const MaxInt64: int := 0x7fff_ffff_ffff_ffff

  /** `strconv.ErrSyntax` and `strconv.ErrRange`. */
  datatype NumError = ErrSyntax | ErrRange

  predicate IsDigit(c: char) {
    '0' <= c <= '9'
  }

  predicate AllDigits(s: string) {
    forall i :: 0 <= i < |s| ==> IsDigit(s[i])
  }

  /** The value of a run of decimal digits, most significant first. */
  function DigitsValue(s: string): nat
    requires AllDigits(s)
    decreases |s|
  {
    if |s| == 0 then 0 else DigitsValue(s[..|s| - 1]) * 10 + (s[|s| - 1] as int - '0' as int)
  }

  /** `strconv.ParseInt(s, 10, 64)`. Base 10 is explicit, so `_` separators
      and `0x` prefixes are syntax errors. */
  function ParseInt(s: string): (r: Result<int, NumError>)
    ensures r.Ok? ==> MinInt64 <= r.value <= MaxInt64
    ensures |s| == 0 ==> r == Err(ErrSyntax)
    ensures r.Ok? && '-' !in s ==> r.value >= 0
    ensures r.Ok? ==> exists i :: 0 <= i < |s| && IsDigit(s[i])
  {
    if |s| == 0 then Err(ErrSyntax)
    else
      var digits := if s[0] == '+' || s[0] == '-' then s[1..] else s;
      if |digits| == 0 || !AllDigits(digits) then Err(ErrSyntax)
      else
        assert IsDigit(s[|s| - 1]);
        var v: int := if s[0] == '-' then -(DigitsValue(digits) as int) else DigitsValue(digits);
        if v < MinInt64 || v > MaxInt64 then Err(ErrRange) else Ok(v)
  }

  /** The decimal digits of a natural number, most significant first. */
  function FormatNat(n: nat): (r: string)
    ensures |r| >= 1 && AllDigits(r)
    decreases n
  {
    var d := ['0' + (n % 10) as char];
    if n < 10 then d else FormatNat(n / 10) + d
  }

  /** `strconv.FormatInt(n, 10)`: the reference printer that parsing inverts. */
  function FormatInt(n: int): (r: string)
  {
    if n < 0 then "-" + FormatNat(-n) else FormatNat(n)
  }

  /** Reading the digits back gives the number that was printed. */
  lemma {:induction false} DigitsValueFormatNat(n: nat)
    ensures DigitsValue(FormatNat(n)) == n
    decreases n
  {
    var d := ['0' + (n % 10) as char];
    if n >= 10 {
      DigitsValueFormatNat(n / 10);
      var s := FormatNat(n / 10) + d;
      assert s[..|s| - 1] == FormatNat(n / 10);
    }
  }

  /** An unsigned run of digits parses to its value, or is out of range. */
  lemma ParseUnsigned(d: string)
    requires |d| >= 1 && AllDigits(d)
    ensures ParseInt(d) == if DigitsValue(d) > MaxInt64 then Err(ErrRange) else Ok(DigitsValue(d))
  {
    assert IsDigit(d[0]);
  }

  /** A `-` and a run of digits parse to the negated value, or are out of range. */
  lemma ParseNegative(d: string)
    requires |d| >= 1 && AllDigits(d)
    ensures var v: int := -(DigitsValue(d) as int);
            ParseInt("-" + d) == if v < MinInt64 then Err(ErrRange) else Ok(v)
  {
    assert ("-" + d)[1..] == d;
  }

  /** `ParseInt` inverts `FormatInt` on the whole `int64` range. */
  lemma ParseFormat(n: int)
    requires MinInt64 <= n <= MaxInt64
    ensures ParseInt(FormatInt(n)) == Ok(n)
  {
    if n < 0 {
      var d := FormatNat(-n);
      assert FormatInt(n) == "-" + d;
      assert ParseInt("-" + d) == Ok(n) by {
        DigitsValueFormatNat(-n);
        ParseNegative(d);
      }
    } else {
      var d := FormatNat(n);
      assert FormatInt(n) == d;
      assert ParseInt(d) == Ok(n) by {
        DigitsValueFormatNat(n);
        ParseUnsigned(d);
      }
    }
  }

  /** Digits beyond the `int64` range are a range error, not a syntax error. */
  lemma ParseOutOfRange(n: nat)
    requires n > MaxInt64
    ensures ParseInt(FormatNat(n)) == Err(ErrRange)
    ensures n > -MinInt64 ==> ParseInt("-" + FormatNat(n)) == Err(ErrRange)
  {
    DigitsValueFormatNat(n);
    ParseUnsigned(FormatNat(n));
    ParseNegative(FormatNat(n));
  }

  /** The values of the key-length digits of the security strings the tool
      ships with. */
  lemma KeyLengthDigits()
    ensures DigitsValue("128") == 128 && DigitsValue("256") == 256 && DigitsValue("16") == 16
  {
    assert DigitsValue("1") == 1 by { assert "1"[..0] == ""; }
    assert DigitsValue("2") == 2 by { assert "2"[..0] == ""; }
    assert DigitsValue("12") == 12 by { assert "12"[..1] == "1"; }
    assert DigitsValue("25") == 25 by { assert "25"[..1] == "2"; }
    assert DigitsValue("16") == 16 by { assert "16"[..1] == "1"; }
    assert DigitsValue("128") == 128 by { assert "128"[..2] == "12"; }
    assert DigitsValue("256") == 256 by { assert "256"[..2] == "25"; }
  }

  /** The key-length fields of the security strings the tool ships with
      parse, with or without a `+`. */
  lemma ParseKeyLengths()
    ensures ParseInt("128") == Ok(128) && ParseInt("256") == Ok(256) && ParseInt("+16") == Ok(16)
  {
    KeyLengthDigits();
    ParseUnsigned("128");
    ParseUnsigned("256");
    assert "+16"[1..] == "16";
  }

  /** Fields with no digits, or with a `_` separator, are syntax errors. */
  lemma ParseRejects()
    ensures ParseInt("") == Err(ErrSyntax) && ParseInt("-") == Err(ErrSyntax)
    ensures ParseInt("1_0") == Err(ErrSyntax)
  {
    assert !IsDigit("1_0"[1]);
  }
}
