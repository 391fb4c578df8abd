/** Decimal integers as strconv prints and parses them, with Go's fixed widths. */
module Decimal {
  import opened Text

  type u8 = x: nat | x < 0x100
  type u16 = x: nat | x < 0x1_0000
  type int32 = x: int | -0x8000_0000 <= x < 0x8000_0000
  type int64 = x: int | -0x8000_0000_0000_0000 <= x < 0x8000_0000_0000_0000

  const MAX_UINT16: nat := 0xFFFF

  predicate AllDigits(s: string) {
    forall i | 0 <= i < |s| :: IsDigit(s[i])
  }

  function DigitChar(d: nat): (c: char)
    requires d < 10
    ensures IsDigit(c) && DigitValue(c) == d
  {
    '0' + d as char
  }

  function DigitValue(c: char): nat
    requires IsDigit(c)
  {
    (c - '0') as nat
  }

  /** strconv.FormatUint in base 10. */
  function FormatNat(n: nat): (s: string)
    ensures s != [] && AllDigits(s)
    ensures |s| > 1 ==> s[0] != '0'
  {
    if n < 10 then [DigitChar(n)] else FormatNat(n / 10) + [DigitChar(n % 10)]
  }

  function Value(s: string): nat
    requires AllDigits(s)
  {
    if s == [] then 0 else 10 * Value(s[..|s| - 1]) + DigitValue(s[|s| - 1])
  }

  /** strconv.ParseUint in base 10; every failure is None. */
  function ParseNat(s: string, max: nat): (r: Option<nat>)
    ensures r.Some? ==> r.value <= max
  {
    if s == [] || !AllDigits(s) || Value(s) > max then None else Some(Value(s))
  }

  /** strconv.FormatInt in base 10. */
  function FormatInt(n: int): string {
    if n < 0 then "-" + FormatNat(-n) else FormatNat(n)
  }

  /** strconv.ParseInt in base 10 with 64 bits. */
  function ParseInt64(s: string): Option<int64> {
    if s == [] then None
    else if s[0] == '-' then
      match ParseNat(s[1..], 0x8000_0000_0000_0000)
      case None => None
      case Some(n) => Some(0 - n as int)
    else
      match ParseNat(if s[0] == '+' then s[1..] else s, 0x7FFF_FFFF_FFFF_FFFF)
      case None => None
      case Some(n) => Some(n)
  }

  lemma {:induction false} ValueOfFormatNat(n: nat)
    ensures Value(FormatNat(n)) == n
  {
    var s := FormatNat(n);
    if n < 10 {
      assert s[..0] == [];
    } else {
      ValueOfFormatNat(n / 10);
      assert s[..|s| - 1] == FormatNat(n / 10);
    }
  }

  /** A numeral without a leading zero is how its value prints. */
  lemma {:induction false} FormatOfValue(s: string)
    requires s != [] && AllDigits(s) && (|s| > 1 ==> s[0] != '0')
    ensures FormatNat(Value(s)) == s
    ensures s[0] != '0' ==> Value(s) > 0
  {
    var init, last := s[..|s| - 1], s[|s| - 1];
    if init == [] {
      assert Value(init) == 0;
      assert s == [DigitChar(DigitValue(last))];
    } else {
      FormatOfValue(init);
      assert Value(s) / 10 == Value(init) && Value(s) % 10 == DigitValue(last);
      assert s == init + [DigitChar(DigitValue(last))];
    }
  }

  lemma ParseFormatNat(n: nat, max: nat)
    ensures ParseNat(FormatNat(n), max) == if n <= max then Some(n) else None
  {
    ValueOfFormatNat(n);
  }

  /** A printed integer starts with a minus sign exactly when it is negative, and has no spaces. */
  lemma FormatIntShape(n: int)
    ensures var s := FormatInt(n);
            s != [] && s[0] != '+' && (s[0] == '-' <==> n < 0)
            && s[if n < 0 then 1 else 0..] == FormatNat(if n < 0 then -n else n)
  {
  }

  lemma FormatIntTrimmed(n: int)
    ensures TrimSpace(FormatInt(n)) == FormatInt(n)
  {
    hide TrimSpace, FormatNat;
    var digits := FormatNat(if n < 0 then -n else n);
    assert IsDigit(digits[0]) && IsDigit(digits[|digits| - 1]);
    TrimSpaceOfTrimmed(FormatInt(n));
  }

  /** Parsing undoes printing on the whole int64 range, both ends included. */
  lemma ParseFormatInt64(n: int64)
    ensures ParseInt64(FormatInt(n)) == Some(n)
  {
    FormatIntShape(n);
    var m: int := if n < 0 then 0 - n else n;
    ParseFormatNat(m, if n < 0 then 0x8000_0000_0000_0000 else 0x7FFF_FFFF_FFFF_FFFF);
  }

  /** Different integers print differently. */
  lemma FormatIntInjective(m: int, n: int)
    requires FormatInt(m) == FormatInt(n)
    ensures m == n
  {
    FormatIntShape(m);
    FormatIntShape(n);
    ValueOfFormatNat(if m < 0 then -m else m);
    ValueOfFormatNat(if n < 0 then -n else n);
  }
}
