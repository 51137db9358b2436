/** The few pieces of the Java platform the book service leans on: the ranges
    of `int` and `long`, the decimal rendering that `"%d".formatted(id)`
    produces for a `Long`, and a jakarta.validation constraint violation. */
module Platform {
  import opened Wrappers

  const MinInt32: int := -0x8000_0000
  const MaxInt32: int := 0x7fff_ffff
  const MinInt64: int := -0x8000_0000_0000_0000
  const MaxInt64: int := 0x7fff_ffff_ffff_ffff

  /** Java `int`. */
  type Int32 = x: int | MinInt32 <= x <= MaxInt32
  /** Java `long` (the unboxed value of a non-null `Long`). */
  type Int64 = x: int | MinInt64 <= x <= MaxInt64

  // ---------------------------------------------------------------------
  // Decimal rendering of an integer, as `%d` writes it (ASCII digits, a
  // leading '-' for negatives, no grouping), and its inverse.
  // ---------------------------------------------------------------------

  predicate IsDigit(c: char) {
    '0' <= c <= '9'
  }

  function DigitChar(d: nat): (c: char)
    requires d < 10
    ensures IsDigit(c) && c as int - '0' as int == d
  {
    (d + '0' as int) as char
  }

  /** The digits of `n`, most significant first, without leading zeros. */
  function Digits(n: nat): (s: string)
    ensures |s| >= 1
    ensures forall i :: 0 <= i < |s| ==> IsDigit(s[i])
    decreases n
  {
    if n < 10 then [DigitChar(n)] else Digits(n / 10) + [DigitChar(n % 10)]
  }

  function DecimalString(n: int): (s: string) {
    if n < 0 then "-" + Digits(-n) else Digits(n)
  }

  /** Reads a non-empty run of ASCII digits; None on anything else. */
  function ParseDigits(s: string): (r: Option<nat>)
    decreases |s|
  {
    if s == [] || !IsDigit(s[|s| - 1]) then None
    else
      var d := s[|s| - 1] as int - '0' as int;
      if |s| == 1 then Some(d)
      else match ParseDigits(s[..|s| - 1])
        case None => None
        case Some(v) => Some(v * 10 + d)
  }

  /** Reads what DecimalString writes: an optional '-' and then digits. */
  function ParseDecimal(s: string): (r: Option<int>) {
    if |s| > 0 && s[0] == '-' then
      match ParseDigits(s[1..])
      case None => None
      case Some(v) => var w: int := v; Some(-w)
    else
      match ParseDigits(s)
      case None => None
      case Some(v) => Some(v)
  }

  lemma {:induction false} ParseDigitsInvertsDigits(n: nat)
    ensures ParseDigits(Digits(n)) == Some(n)
    decreases n
  {
    if n >= 10 {
      var s := Digits(n);
      assert s == Digits(n / 10) + [DigitChar(n % 10)];
      assert s[..|s| - 1] == Digits(n / 10);
      ParseDigitsInvertsDigits(n / 10);
    }
  }

  /** The rendered id can be read back: `%d` loses nothing. */
  lemma DecimalStringRoundTrip(n: int)
    ensures ParseDecimal(DecimalString(n)) == Some(n)
  {
    var s := DecimalString(n);
    if n < 0 {
      assert s[0] == '-' && s[1..] == Digits(-n);
      ParseDigitsInvertsDigits(-n);
      assert ParseDigits(s[1..]) == Some(-n);
    } else {
      assert s == Digits(n) && IsDigit(s[0]);
      ParseDigitsInvertsDigits(n);
    }
  }

  /** `sub` occurs in `s` starting at index `i`. */
  predicate OccursAt(s: string, sub: string, i: int) {
    0 <= i <= |s| - |sub| && s[i..i + |sub|] == sub
  }

  /** `s.contains(sub)` of java.lang.String. */
  predicate Contains(s: string, sub: string) {
    exists i :: 0 <= i <= |s| && OccursAt(s, sub, i)
  }

  // ---------------------------------------------------------------------
  // jakarta.validation
  // ---------------------------------------------------------------------

  /** One ConstraintViolation: the offending property's path and the
      constraint's message. */
  datatype Violation = Violation(property: string, message: string)

  /** What a `@NotNull(message = m)` constraint on `property` reports. */
  function NotNull<T>(property: string, value: Option<T>, message: string): (vs: set<Violation>)
    ensures vs == {} <==> value.Some?
    ensures forall v :: v in vs ==> v == Violation(property, message)
  {
    if value.None? then {Violation(property, message)} else {}
  }
}
