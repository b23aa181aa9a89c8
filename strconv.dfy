/** The part of Go's `strconv` package the web handlers use: ParseInt in
    base 10 with a 64-bit result, and Atoi, which on a 64-bit platform gives
    the same value and error as ParseInt(s, 10, 64). FormatInt is modelled
    as the inverse that the round-trip lemma relates ParseInt to. */
module Strconv {
  import opened Results

  const MaxInt64: int := 0x7fff_ffff_ffff_ffff
  const MinInt64: int := -0x8000_0000_0000_0000
  const MaxUint64: int := 0xffff_ffff_ffff_ffff

  predicate IsInt64(n: int) {
    MinInt64 <= n <= MaxInt64
  }

  /** Two's-complement wrap-around of int64 arithmetic. */
  function Wrap64(x: int): (r: int)
    ensures IsInt64(r)
    ensures (r - x) % 0x1_0000_0000_0000_0000 == 0
    ensures IsInt64(x) ==> r == x
  {
    (x - MinInt64) % 0x1_0000_0000_0000_0000 + MinInt64
  }

  datatype NumError = ErrSyntax | ErrRange

  predicate IsDigit(c: char) {
    '0' <= c <= '9'
  }

  function DigitValue(c: char): nat
    requires IsDigit(c)
  {
    c as int - '0' as int
  }

  function DigitChar(d: nat): (c: char)
    requires d < 10
    ensures IsDigit(c) && DigitValue(c) == d
  {
    ('0' as int + d) as char
  }

  /** What ParseUint's digit loop ends with. */
  datatype Scan = Value(n: nat) | BadDigit | Overflow

  /** ParseUint's loop in base 10, from accumulated value `acc`: each
      character is checked to be a digit before the new value is checked
      against the uint64 maximum, and the loop stops at the first failure. */
  function ScanDecimal(s: string, acc: nat): (r: Scan)
    requires acc <= MaxUint64
    ensures r.Value? ==> acc <= r.n <= MaxUint64
  {
    if s == [] then Value(acc)
    else if !IsDigit(s[0]) then BadDigit
    else
      var n := acc * 10 + DigitValue(s[0]);
      if n > MaxUint64 then Overflow else ScanDecimal(s[1..], n)
  }

  /** strconv.ParseUint(s, 10, 64): the value (uint64 max on overflow,
      0 on a syntax error) and the error. */
  function ParseUint(s: string): (r: (nat, Option<NumError>))
    ensures r.0 <= MaxUint64
    ensures r.1 == Some(ErrSyntax) ==> r.0 == 0
  {
    if s == [] then (0, Some(ErrSyntax))
    else match ScanDecimal(s, 0)
      case Value(n) => (n, None)
      case BadDigit => (0, Some(ErrSyntax))
      case Overflow => (MaxUint64, Some(ErrRange))
  }

  /** strconv.ParseInt(s, 10, 64): an optional sign, then ParseUint; a
      syntax error gives 0 and an out-of-range magnitude is clamped to the
      nearest int64 bound. */
  function ParseInt(s: string): (r: (int, Option<NumError>))
    ensures IsInt64(r.0)
    ensures r.1 == Some(ErrSyntax) ==> r.0 == 0
    ensures r.1 == Some(ErrRange) ==> r.0 == MaxInt64 || r.0 == MinInt64
  {
    if s == [] then (0, Some(ErrSyntax))
    else
      var neg := s[0] == '-';
      var body := if s[0] == '+' || s[0] == '-' then s[1..] else s;
      var (un, err) := ParseUint(body);
      if err == Some(ErrSyntax) then (0, err)
      else if !neg && un >= 0x8000_0000_0000_0000 then (MaxInt64, Some(ErrRange))
      else if neg && un > 0x8000_0000_0000_0000 then (MinInt64, Some(ErrRange))
      else if neg then (-(un as int), None)
      else (un as int, None)
  }

  /** strconv.Atoi on a 64-bit platform. */
  function Atoi(s: string): (r: (int, Option<NumError>))
    ensures IsInt64(r.0)
  {
    ParseInt(s)
  }

  /** The decimal digits of a natural number, most significant first. */
  function Digits(n: nat): (s: string)
    ensures s != [] && forall i :: 0 <= i < |s| ==> IsDigit(s[i])
    decreases n
  {
    if n < 10 then [DigitChar(n)] else Digits(n / 10) + [DigitChar(n % 10)]
  }

  /** strconv.FormatInt(n, 10). */
  function FormatInt(n: int): string {
    if n < 0 then "-" + Digits(-n) else Digits(n)
  }

  /** Scanning one more digit continues from where the shorter scan ended. */
  lemma {:induction false} ScanDecimalSnoc(s: string, c: char, acc: nat)
    requires acc <= MaxUint64 && IsDigit(c)
    ensures ScanDecimal(s + [c], acc) ==
      match ScanDecimal(s, acc)
      case Value(m) => (if m * 10 + DigitValue(c) > MaxUint64 then Overflow else Value(m * 10 + DigitValue(c)))
      case other => other
  {
    if s == [] {
      assert ([] + [c])[1..] == [];
    } else {
      assert (s + [c])[1..] == s[1..] + [c];
      if IsDigit(s[0]) && acc * 10 + DigitValue(s[0]) <= MaxUint64 {
        ScanDecimalSnoc(s[1..], c, acc * 10 + DigitValue(s[0]));
      }
    }
  }

  /** The digit loop reads back the number Digits wrote, or overflows
      exactly when that number exceeds the uint64 maximum. */
  lemma {:induction false} ScanDigits(n: nat)
    ensures ScanDecimal(Digits(n), 0) == if n <= MaxUint64 then Value(n) else Overflow
    decreases n
  {
    if n < 10 {
      assert Digits(n)[1..] == [];
    } else {
      ScanDigits(n / 10);
      ScanDecimalSnoc(Digits(n / 10), DigitChar(n % 10), 0);
    }
  }

  /** ParseInt reads back every int64 that FormatInt writes, without error. */
  lemma ParseFormatInt(n: int)
    requires IsInt64(n)
    ensures ParseInt(FormatInt(n)) == (n, None)
  {
    if n < 0 {
      ScanDigits(-n);
      assert ("-" + Digits(-n))[1..] == Digits(-n);
    } else {
      ScanDigits(n);
      assert Digits(n)[0] != '-' && Digits(n)[0] != '+';
    }
  }

  /** Every numeral above the int64 range is read as the int64 maximum. */
  lemma ParseIntClampsLarge(n: nat)
    requires MaxInt64 < n
    ensures ParseInt(Digits(n)).0 == MaxInt64
  {
    ScanDigits(n);
    assert Digits(n)[0] != '-' && Digits(n)[0] != '+';
  }
}
