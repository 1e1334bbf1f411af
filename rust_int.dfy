/**
 * Rust's `FromStr` for the unsigned integer types (`u16`, `u64`) and their
 * decimal `Display`, over strings as sequences of characters.
 *
 * Parsing accepts one optional leading `+` followed by ASCII digits. The
 * empty string is `Empty`; a lone `+` or `-`, or any other character where
 * a digit is expected, is `InvalidDigit`; a value past the type's maximum
 * is `PosOverflow`. Digits are read left to right and the first position
 * that fails decides the error.
 */
module RustInt {
  import opened Wrappers

  /** The kinds of `std::num::ParseIntError` an unsigned parse can produce. */
  datatype IntErrorKind = Empty | InvalidDigit | PosOverflow

  const U16_MAX: nat := 0xFFFF
  const U64_MAX: nat := 0xFFFF_FFFF_FFFF_FFFF

  newtype uint8 = x: int | 0 <= x < 0x100
  newtype uint16 = x: int | 0 <= x <= 0xFFFF
  newtype uint64 = x: int | 0 <= x <= 0xFFFF_FFFF_FFFF_FFFF

  predicate IsDigit(c: char) {
    '0' <= c <= '9'
  }

  function DigitValue(c: char): (v: nat)
    requires IsDigit(c)
    ensures v < 10
  {
    c as int - '0' as int
  }

  function DigitChar(v: nat): (c: char)
    requires v < 10
    ensures IsDigit(c) && DigitValue(c) == v
  {
    ('0' as int + v) as char
  }

  predicate AllDigits(s: string) {
    forall i | 0 <= i < |s| :: IsDigit(s[i])
  }

  /** The number a string of decimal digits denotes, most significant digit first. */
  function Value(s: string): nat
    requires AllDigits(s)
    decreases |s|
  {
    if s == [] then 0 else Value(s[..|s| - 1]) * 10 + DigitValue(s[|s| - 1])
  }

  /** The number of decimal digits at the start of `d`. */
  function LeadingDigits(d: string): (k: nat)
    ensures k <= |d| && AllDigits(d[..k])
    ensures k < |d| ==> !IsDigit(d[k])
  {
    if d == [] || !IsDigit(d[0]) then 0
    else
      var k' := LeadingDigits(d[1..]);
      assert d[..1 + k'] == [d[0]] + d[1..][..k'];
      1 + k'
  }

  /** The string with one leading `+` removed, unless that `+` is all there is. */
  function Magnitude(s: string): string {
    if |s| >= 2 && s[0] == '+' then s[1..] else s
  }

  /** `s` is an unsigned decimal literal: an optional `+`, then one or more digits. */
  predicate IsUnsignedLiteral(s: string) {
    s != [] && AllDigits(Magnitude(s))
  }

  function LiteralValue(s: string): nat
    requires IsUnsignedLiteral(s)
  {
    Value(Magnitude(s))
  }

  /** `s` is an unsigned decimal literal whose value is at most `max`. */
  predicate Fits(s: string, max: nat) {
    IsUnsignedLiteral(s) && LiteralValue(s) <= max
  }

  /** The value of the digits read before the first character that is not one. */
  function PrefixValue(d: string): nat {
    Value(d[..LeadingDigits(d)])
  }

  /** The error Rust reports for a string that does not parse as an integer up to `max`. */
  function RejectionKind(s: string, max: nat): IntErrorKind {
    if s == [] then Empty
    else if PrefixValue(Magnitude(s)) > max then PosOverflow
    else InvalidDigit
  }

  /**
   * The parse loop: `acc` holds the value of `d[..i]`; each step either
   * rejects the next character, reports overflow, or folds the digit in.
   */
  function ScanDigits(d: string, i: nat, acc: nat, max: nat): Result<nat, IntErrorKind>
    requires i <= |d|
    decreases |d| - i
  {
    if i == |d| then Ok(acc)
    else if !IsDigit(d[i]) then Err(InvalidDigit)
    else if acc * 10 + DigitValue(d[i]) > max then Err(PosOverflow)
    else ScanDigits(d, i + 1, acc * 10 + DigitValue(d[i]), max)
  }

  /** `<uN>::from_str(s)` for the unsigned type whose largest value is `max`. */
  function ParseUnsigned(s: string, max: nat): (r: Result<nat, IntErrorKind>)
    ensures r.Ok? <==> Fits(s, max)
    ensures r.Ok? ==> r.value == LiteralValue(s) && r.value <= max
    ensures r.Err? ==> r.error == RejectionKind(s, max)
  {
    if s == [] then Err(Empty)
    else
      ScanDigitsCorrect(Magnitude(s), 0, 0, max);
      LeadingDigitsOfDigits(Magnitude(s));
      assert Magnitude(s)[..0] == [];
      ScanDigits(Magnitude(s), 0, 0, max)
  }

  function ParseU16(s: string): (r: Result<uint16, IntErrorKind>)
    ensures r.Ok? <==> Fits(s, U16_MAX)
    ensures r.Ok? ==> r.value as nat == LiteralValue(s)
    ensures r.Err? ==> r.error == RejectionKind(s, U16_MAX)
  {
    match ParseUnsigned(s, U16_MAX)
    case Ok(n) => Ok(n as uint16)
    case Err(e) => Err(e)
  }

  function ParseU64(s: string): (r: Result<uint64, IntErrorKind>)
    ensures r.Ok? <==> Fits(s, U64_MAX)
    ensures r.Ok? ==> r.value as nat == LiteralValue(s)
    ensures r.Err? ==> r.error == RejectionKind(s, U64_MAX)
  {
    match ParseUnsigned(s, U64_MAX)
    case Ok(n) => Ok(n as uint64)
    case Err(e) => Err(e)
  }

  /** `n.to_string()`: the canonical decimal form, without sign or leading zeros. */
  function ToDecimal(n: nat): (s: string)
    ensures s != [] && AllDigits(s) && Value(s) == n
    ensures |s| > 1 ==> s[0] != '0'
    decreases n
  {
    if n < 10 then [DigitChar(n)]
    else
      var t := ToDecimal(n / 10);
      var s := t + [DigitChar(n % 10)];
      assert s[..|s| - 1] == t;
      s
  }

  function Pow10(k: nat): nat {
    if k == 0 then 1 else 10 * Pow10(k - 1)
  }

  // ---------------------------------------------------------------- lemmas

  /** A string of digits is no less than any of its prefixes. */
  lemma {:induction false} ValueMonotone(d: string, j: nat, k: nat)
    requires j <= k <= |d| && AllDigits(d[..k])
    ensures AllDigits(d[..j]) && Value(d[..j]) <= Value(d[..k])
    decreases k - j
  {
    if j < k {
      assert d[..k][..k - 1] == d[..k - 1];
      ValueMonotone(d, j, k - 1);
    }
  }

  /** Every prefix made only of digits is within the leading run of digits. */
  lemma {:induction false} DigitPrefixWithinLeading(d: string, i: nat)
    requires i <= |d| && AllDigits(d[..i])
    ensures i <= LeadingDigits(d)
    decreases i
  {
    if i > 0 {
      assert d[..i][0] == d[0];
      assert d[1..][..i - 1] == d[1..i];
      assert forall j | 0 <= j < i - 1 :: d[1..i][j] == d[..i][j + 1];
      DigitPrefixWithinLeading(d[1..], i - 1);
    }
  }

  /** On a string made only of digits, the leading run is the whole string. */
  lemma LeadingDigitsOfDigits(d: string)
    ensures AllDigits(d) ==> LeadingDigits(d) == |d| && PrefixValue(d) == Value(d)
  {
    if AllDigits(d) {
      DigitPrefixWithinLeading(d, |d|);
      assert d[..|d|] == d;
    }
  }

  /**
   * The parse loop, started on any prefix of digits that has not yet
   * overflowed, reports overflow exactly when the leading run of digits
   * exceeds `max`, rejects a non-digit otherwise, and else yields the value.
   */
  lemma {:induction false} ScanDigitsCorrect(d: string, i: nat, acc: nat, max: nat)
    requires i <= |d| && AllDigits(d[..i]) && acc == Value(d[..i]) && acc <= max
    ensures var k := LeadingDigits(d);
      ScanDigits(d, i, acc, max) ==
        if PrefixValue(d) > max then Err(PosOverflow)
        else if k < |d| then Err(InvalidDigit)
        else Ok(PrefixValue(d))
    decreases |d| - i
  {
    var k := LeadingDigits(d);
    DigitPrefixWithinLeading(d, i);
    if i == |d| {
      assert d[..i] == d[..k];
    } else if !IsDigit(d[i]) {
      assert i == k;
    } else {
      var acc' := acc * 10 + DigitValue(d[i]);
      assert d[..i + 1][..i] == d[..i];
      assert AllDigits(d[..i + 1]);
      assert acc' == Value(d[..i + 1]);
      DigitPrefixWithinLeading(d, i + 1);
      if acc' > max {
        ValueMonotone(d, i + 1, k);
      } else {
        ScanDigitsCorrect(d, i + 1, acc', max);
      }
    }
  }

  /** The decimal form of `n` parses back to `n`, or overflows when `n` exceeds `max`. */
  lemma FormatThenParse(n: nat, max: nat)
    ensures Fits(ToDecimal(n), max) <==> n <= max
    ensures ParseUnsigned(ToDecimal(n), max) == if n <= max then Ok(n) else Err(PosOverflow)
  {
    var s := ToDecimal(n);
    assert Magnitude(s) == s;
    DigitPrefixWithinLeading(s, |s|);
    assert s[..|s|] == s;
  }

  /** A digit string that does not start with `0` denotes at least its first digit. */
  lemma LeadingDigitBound(s: string)
    requires s != [] && AllDigits(s)
    ensures Value(s) >= DigitValue(s[0])
  {
    ValueMonotone(s, 1, |s|);
    assert s[..|s|] == s;
    assert s[..1][..0] == [];
  }

  /**
   * Conversely, a canonical decimal string (digits only, no leading zero
   * unless it is `0`) is the decimal form of its value.
   */
  lemma {:induction false} ParseThenFormat(s: string)
    requires s != [] && AllDigits(s) && (|s| > 1 ==> s[0] != '0')
    ensures ToDecimal(Value(s)) == s
    decreases |s|
  {
    var t, c := s[..|s| - 1], s[|s| - 1];
    assert s == t + [c];
    if |s| > 1 {
      assert t[0] == s[0];
      LeadingDigitBound(t);
      ParseThenFormat(t);
      assert Value(s) / 10 == Value(t) && Value(s) % 10 == DigitValue(c);
    }
  }

  /** A number below `10^k` has at most `k` decimal digits. */
  lemma {:induction false} DecimalLength(n: nat, k: nat)
    requires 1 <= k && n < Pow10(k)
    ensures |ToDecimal(n)| <= k
  {
    if n >= 10 {
      assert k >= 2;
      DecimalLength(n / 10, k - 1);
    }
  }

  /** Every `u64` prints in at most twenty digits. */
  lemma U64DecimalLength(n: nat)
    requires n <= U64_MAX
    ensures |ToDecimal(n)| <= 20
  {
    assert Pow10(5) == 100_000;
    assert Pow10(10) == 10_000_000_000;
    assert Pow10(15) == 1_000_000_000_000_000;
    assert Pow10(20) == 100_000_000_000_000_000_000;
    DecimalLength(n, 20);
  }
}
