/**
 * Revision file names: a Unix second written in decimal by fmt's "%v" and
 * read back by strconv.ParseInt(name, 10, 64).
 */
module Decimal {
  import opened Wrappers

  const MinInt64: int := -0x8000_0000_0000_0000
  const MaxInt64: int := 0x7FFF_FFFF_FFFF_FFFF

  /** Go's int64, the type of time.Time.Unix(). */
  type Int64 = x: int | MinInt64 <= x <= MaxInt64

  predicate IsDigit(c: char) {
    '0' <= c <= '9'
  }

  predicate AllDigits(s: string) {
    forall i :: 0 <= i < |s| ==> IsDigit(s[i])
  }

  function DigitChar(d: nat): (c: char)
    requires d < 10
    ensures IsDigit(c) && c as int - '0' as int == d
  {
    ('0' as int + d) as char
  }

  /** Decimal digits of n, most significant first, with no leading zero. */
  function FormatNat(n: nat): (s: string)
    ensures s != [] && AllDigits(s)
    ensures s[0] == '0' ==> s == "0"
    decreases n
  {
    if n < 10 then [DigitChar(n)] else FormatNat(n / 10) + [DigitChar(n % 10)]
  }

  /** fmt.Sprintf("%v", x) for an integer x: a minus sign exactly for negatives, then digits. */
  function FormatInt(x: int): (s: string)
    ensures s != [] && (s[0] == '-' <==> x < 0)
    ensures x < 0 ==> |s| >= 2 && AllDigits(s[1..])
    ensures x >= 0 ==> AllDigits(s)
  {
    if x < 0 then "-" + FormatNat(-x) else FormatNat(x)
  }

  /** The value of a string of decimal digits, read most significant first. */
  function DigitsValue(s: string): nat
    requires AllDigits(s)
  {
    if s == [] then 0 else DigitsValue(s[..|s| - 1]) * 10 + (s[|s| - 1] as int - '0' as int)
  }

  /**
   * strconv.ParseInt(s, 10, 64), with every error (empty input, a character
   * that is not a digit, a value outside int64) collapsed to None: the store
   * only ever asks whether the error is nil. One leading '+' or '-' is
   * accepted, and so are leading zeros.
   */
  function ParseInt(s: string): (r: Option<Int64>)
    ensures r.Some? ==> s != [] && (s[0] == '-' || s[0] == '+' || IsDigit(s[0]))
  {
    if s == [] then None
    else
      var neg := s[0] == '-';
      var digits := if s[0] == '+' || s[0] == '-' then s[1..] else s;
      if digits == [] || !AllDigits(digits) then None
      else
        var v: int := DigitsValue(digits);
        if neg then
          (if v > -MinInt64 then None else Some(-v))
        else
          (if v > MaxInt64 then None else Some(v))
  }

  lemma {:induction false} DigitsValueOfFormat(n: nat)
    ensures DigitsValue(FormatNat(n)) == n
    decreases n
  {
    if n >= 10 {
      var s := FormatNat(n);
      DigitsValueOfFormat(n / 10);
      assert s[..|s| - 1] == FormatNat(n / 10);
    }
  }

  /** Every Unix second written as a file name parses back to itself. */
  lemma ParseFormat(x: Int64)
    ensures ParseInt(FormatInt(x)) == Some(x)
  {
    var n: nat := if x < 0 then -(x as int) else x as int;
    var digits := FormatNat(n);
    DigitsValueOfFormat(n);
    assert IsDigit(digits[0]);
    if x < 0 {
      var s := "-" + digits;
      assert s == FormatInt(x);
      assert s[0] == '-' && s[1..] == digits;
      assert n <= -MinInt64;
    } else {
      assert digits == FormatInt(x);
      assert digits[0] != '+' && digits[0] != '-';
      assert n <= MaxInt64;
    }
  }

  /** Distinct seconds get distinct file names. */
  lemma FormatInjective(x: Int64, y: Int64)
    ensures FormatInt(x) == FormatInt(y) <==> x == y
  {
    ParseFormat(x);
    ParseFormat(y);
  }

  /** A run of digits is its value's canonical digits after some leading zeros. */
  lemma {:induction false} DigitsAreZerosThenFormat(d: string)
    requires d != [] && AllDigits(d)
    ensures |FormatNat(DigitsValue(d))| <= |d|
    ensures d == seq(|d| - |FormatNat(DigitsValue(d))|, _ => '0') + FormatNat(DigitsValue(d))
    decreases |d|
  {
    var d', c := d[..|d| - 1], d[|d| - 1];
    var n := DigitsValue(d);
    assert d == d' + [c];
    assert IsDigit(c);
    if d' == [] {
      assert DigitsValue(d') == 0;
      assert n == c as int - '0' as int;
      assert DigitChar(n) == c;
    } else {
      assert AllDigits(d');
      DigitsAreZerosThenFormat(d');
      var n' := DigitsValue(d');
      if n' == 0 {
        assert d' == seq(|d'|, _ => '0');
        assert FormatNat(n) == [c];
        assert d == seq(|d'|, _ => '0') + [c];
      } else {
        assert n / 10 == n' && n % 10 == c as int - '0' as int;
        assert FormatNat(n) == FormatNat(n') + [c];
      }
    }
  }

  /**
   * What ParseInt accepts: an optional sign, then zeros, then the canonical
   * digits of the value's magnitude; only a minus sign gives a negative value.
   */
  lemma ParseIntShape(s: string)
    requires ParseInt(s).Some?
    ensures var v := ParseInt(s).value;
      var digits := if s[0] == '+' || s[0] == '-' then s[1..] else s;
      var canon := FormatNat(if v < 0 then -(v as int) else v as int);
      && (v < 0 ==> s[0] == '-')
      && (s[0] == '-' ==> v <= 0)
      && |canon| <= |digits|
      && digits == seq(|digits| - |canon|, _ => '0') + canon
  {
    var digits := if s[0] == '+' || s[0] == '-' then s[1..] else s;
    DigitsAreZerosThenFormat(digits);
  }

  /** Digits of a value outside int64 are rejected, with or without a sign; MinInt64 itself is accepted. */
  lemma ParseIntOutOfRange(n: nat)
    ensures n > MaxInt64 ==> ParseInt(FormatNat(n)).None? && ParseInt("+" + FormatNat(n)).None?
    ensures n > -MinInt64 ==> ParseInt("-" + FormatNat(n)).None?
    ensures n == -MinInt64 ==> ParseInt("-" + FormatNat(n)) == Some(MinInt64)
  {
    var s := FormatNat(n);
    DigitsValueOfFormat(n);
    assert ("+" + s)[1..] == s && ("-" + s)[1..] == s;
    assert s[0] != '+' && s[0] != '-';
  }

  /** An empty name, a lone sign, and a name with a non-digit after its first character are rejected. */
  lemma ParseIntRejectsMalformed(s: string)
    ensures ParseInt("").None? && ParseInt("+").None? && ParseInt("-").None?
    ensures (exists i :: 0 < i < |s| && !IsDigit(s[i])) ==> ParseInt(s).None?
  {
    assert "+"[1..] == [] && "-"[1..] == [];
    if i :| 0 < i < |s| && !IsDigit(s[i]) {
      if s[0] == '+' || s[0] == '-' {
        assert s[1..][i - 1] == s[i];
      }
    }
  }

  /**
   * ParseInt accepts names that FormatInt never writes: "007" is read as the
   * second 7, whose canonical name is "7".
   */
  lemma LeadingZerosAlias()
    ensures ParseInt("007") == Some(7)
    ensures FormatInt(7) == "7"
  {
    assert "007"[..2] == "00" && "00"[..1] == "0" && "0"[..0] == "";
    assert DigitsValue("0") == 0;
    assert DigitsValue("00") == 0;
    assert DigitsValue("007") == 7;
  }
}
