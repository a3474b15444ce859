/** Go integers as text: strconv's base-10 parsing and printing, and the
    conversions between integer widths. */
module Decimals {

  /** The two widths Go's `int` has. */
  datatype IntWidth = Int32Bits | Int64Bits

  const HALF32: int := 0x8000_0000
  const HALF64: int := 0x8000_0000_0000_0000

  function Half(w: IntWidth): int {
    if w.Int32Bits? then HALF32 else HALF64
  }

  function MaxInt(w: IntWidth): int {
    Half(w) - 1
  }

  predicate FitsInt(n: int, w: IntWidth) {
    -Half(w) <= n < Half(w)
  }

  predicate FitsInt64(n: int) {
    -HALF64 <= n < HALF64
  }

  /** The Go conversion int(n): two's complement, so it wraps. */
  function WrapInt(n: int, w: IntWidth): (r: int)
    ensures FitsInt(r, w)
    ensures r == n <==> FitsInt(n, w)
    ensures (n - r) % (2 * Half(w)) == 0
  {
    (n + Half(w)) % (2 * Half(w)) - Half(w)
  }

  /** What strconv returns: the number, or the value that accompanies the error. */
  datatype Parse = Number(n: int) | Malformed | OutOfRange(clamped: int)

  function Fallback(p: Parse): int {
    match p
    case Number(n) => n
    case Malformed => 0
    case OutOfRange(c) => c
  }

  predicate IsDigit(c: char) {
    '0' <= c <= '9'
  }

  function DigitValue(c: char): nat
    requires IsDigit(c)
  {
    (c - '0') as int
  }

  /** ParseUint reads left to right and stops at the first character that is not a
      digit or pushes the value past `max`. */
  function ScanUint(acc: nat, s: string, max: nat): Parse
    decreases s
  {
    if s == "" then Number(acc)
    else if !IsDigit(s[0]) then Malformed
    else if acc * 10 + DigitValue(s[0]) > max then OutOfRange(max)
    else ScanUint(acc * 10 + DigitValue(s[0]), s[1..], max)
  }

  function ParseUint(s: string, max: nat): (p: Parse)
    ensures p.Number? ==> 0 <= p.n <= max
  {
    if s == "" then Malformed else ScanUintBound(0, s, max); ScanUint(0, s, max)
  }

  lemma {:induction false} ScanUintBound(acc: nat, s: string, max: nat)
    ensures acc <= max && ScanUint(acc, s, max).Number? ==> acc <= ScanUint(acc, s, max).n <= max
    decreases s
  {
    if s != "" && IsDigit(s[0]) && acc * 10 + DigitValue(s[0]) <= max {
      ScanUintBound(acc * 10 + DigitValue(s[0]), s[1..], max);
    }
  }

  /** ParseInt(s, 10, bits) with half == 2^(bits-1). */
  function ParseInt(s: string, half: int): (p: Parse)
    requires half > 0
    ensures p.Number? ==> -half <= p.n < half
  {
    if s == "" then Malformed
    else
      var neg := s[0] == '-';
      var digits := if neg || s[0] == '+' then s[1..] else s;
      match ParseUint(digits, 2 * half - 1)
      case Malformed => Malformed
      case OutOfRange(_) => OutOfRange(if neg then -half else half - 1)
      case Number(u) =>
        if neg then (if u > half then OutOfRange(-half) else Number(-u))
        else if u >= half then OutOfRange(half - 1)
        else Number(u)
  }

  // ---- which texts are read ----

  /** A run of digits, read on from `acc`. */
  function DigitsValue(acc: nat, s: string): nat
    requires forall c :: c in s ==> IsDigit(c)
    decreases s
  {
    if s == "" then acc
    else
      assert s[0] in s && forall c :: c in s[1..] ==> c in s;
      DigitsValue(acc * 10 + DigitValue(s[0]), s[1..])
  }

  function Unsigned(s: string): string {
    if s != "" && (s[0] == '-' || s[0] == '+') then s[1..] else s
  }

  /** Digits with an optional sign in front: no fraction, no exponent. */
  predicate PlainDecimal(s: string) {
    Unsigned(s) != "" && forall c :: c in Unsigned(s) ==> IsDigit(c)
  }

  function DecimalValue(s: string): int
    requires PlainDecimal(s)
  {
    if s[0] == '-' then 0 - DigitsValue(0, Unsigned(s)) else DigitsValue(0, Unsigned(s))
  }

  lemma {:induction false} DigitsValueGrows(acc: nat, s: string)
    requires forall c :: c in s ==> IsDigit(c)
    ensures DigitsValue(acc, s) >= acc
    decreases s
  {
    if s == "" {
    } else {
      assert s[0] in s && forall c :: c in s[1..] ==> c in s;
      DigitsValueGrows(acc * 10 + DigitValue(s[0]), s[1..]);
    }
  }

  lemma {:induction false} ScanUintExact(acc: nat, s: string, max: nat)
    requires acc <= max
    ensures ScanUint(acc, s, max).Number? <==> (forall c :: c in s ==> IsDigit(c)) && DigitsValue(acc, s) <= max
    ensures ScanUint(acc, s, max).Number? ==> ScanUint(acc, s, max).n == DigitsValue(acc, s)
    decreases s
  {
    if s == "" {
    } else {
      assert s[0] in s && forall c :: c in s <==> c == s[0] || c in s[1..];
      if IsDigit(s[0]) {
        var next := acc * 10 + DigitValue(s[0]);
        if next <= max {
          ScanUintExact(next, s[1..], max);
        } else if forall c :: c in s[1..] ==> IsDigit(c) {
          DigitsValueGrows(next, s[1..]);
        }
      }
    }
  }

  /** ParseInt reads exactly the plain decimals in range, each as the integer it denotes. */
  lemma ParseIntExact(s: string, half: int)
    requires half > 0
    ensures ParseInt(s, half).Number? <==> PlainDecimal(s) && -half <= DecimalValue(s) < half
    ensures ParseInt(s, half).Number? ==> ParseInt(s, half).n == DecimalValue(s)
  {
    ScanUintExact(0, Unsigned(s), 2 * half - 1);
  }

  function Atoi(s: string, w: IntWidth): Parse {
    ParseInt(s, Half(w))
  }

  function Digit(d: int): char
    requires 0 <= d < 10
  {
    '0' + d as char
  }

  function PrintNat(n: nat): (s: string)
    ensures s != "" && forall c :: c in s ==> IsDigit(c)
  {
    if n < 10 then [Digit(n)] else PrintNat(n / 10) + [Digit(n % 10)]
  }

  function FormatInt(n: int): string {
    if n < 0 then "-" + PrintNat(-n) else PrintNat(n)
  }

  /** The widths in figures. */
  lemma IntRanges(n: int)
    ensures FitsInt(n, Int32Bits) <==> -2_147_483_648 <= n <= 2_147_483_647
    ensures FitsInt(n, Int64Bits) <==> -9_223_372_036_854_775_808 <= n <= 9_223_372_036_854_775_807
    ensures FitsInt64(n) <==> FitsInt(n, Int64Bits)
    ensures MaxInt(Int32Bits) == 2_147_483_647 && MaxInt(Int64Bits) == 9_223_372_036_854_775_807
  {
  }

  /** A printed number carries a minus exactly when it is negative, and no leading zero. */
  lemma {:induction false} PrintedExactly(n: int)
    ensures var s := FormatInt(n);
            var digits := if n < 0 then s[1..] else s;
            && (n < 0 ==> s[0] == '-')
            && digits != "" && (forall c :: c in digits ==> IsDigit(c))
            && (|digits| > 1 ==> digits[0] != '0')
            && DigitsValue(0, digits) == if n < 0 then -n else n
  {
    var m := if n < 0 then -n else n;
    NoLeadingZero(m);
    ScanPrinted(m, m);
    ScanUintExact(0, PrintNat(m), m);
    assert n < 0 ==> FormatInt(n)[1..] == PrintNat(m);
  }

  lemma {:induction false} NoLeadingZero(n: nat)
    ensures |PrintNat(n)| > 1 ==> PrintNat(n)[0] != '0'
    ensures n > 0 ==> PrintNat(n)[0] != '0'
  {
    if n < 10 {
    } else {
      NoLeadingZero(n / 10);
    }
  }

  /** ParseUint reads exactly the digit runs up to the bound: no sign. */
  lemma ParseUintExact(s: string, max: nat)
    ensures ParseUint(s, max).Number? <==>
              s != "" && (forall c :: c in s ==> '0' <= c <= '9') && DigitsValue(0, s) <= max
    ensures ParseUint(s, max).Number? ==> ParseUint(s, max).n == DigitsValue(0, s)
  {
    ScanUintExact(0, s, max);
  }

  lemma {:induction false} ScanUintAppend(acc: nat, s: string, c: char, max: nat)
    requires ScanUint(acc, s, max).Number? && IsDigit(c)
    ensures var m := ScanUint(acc, s, max).n;
            ScanUint(acc, s + [c], max) ==
              if m * 10 + DigitValue(c) > max then OutOfRange(max) else Number(m * 10 + DigitValue(c))
    ensures ScanUint(acc, s, max).n >= 0
    decreases s
  {
    if s == "" {
      assert s + [c] == [c] && [c][1..] == "";
    } else {
      assert (s + [c])[1..] == s[1..] + [c];
      ScanUintAppend(acc * 10 + DigitValue(s[0]), s[1..], c, max);
    }
  }

  lemma {:induction false} ScanPrinted(n: nat, max: nat)
    requires n <= max
    ensures ScanUint(0, PrintNat(n), max) == Number(n)
  {
    if n < 10 {
      assert [Digit(n)][1..] == "";
    } else {
      ScanPrinted(n / 10, max);
      ScanUintAppend(0, PrintNat(n / 10), Digit(n % 10), max);
    }
  }

  /** Printing an unsigned number and parsing it back. */
  lemma PrintedUintParses(n: nat, max: nat)
    requires n <= max
    ensures ParseUint(PrintNat(n), max) == Number(n)
  {
    ScanPrinted(n, max);
  }

  /** Printing any signed number that fits and parsing it back. */
  lemma FormattedIntParses(n: int, half: int)
    requires half > 0 && -half <= n < half
    ensures ParseInt(FormatInt(n), half) == Number(n)
  {
    if n < 0 {
      ScanPrinted(-n, 2 * half - 1);
      assert FormatInt(n)[1..] == PrintNat(-n);
    } else {
      ScanPrinted(n, 2 * half - 1);
      assert PrintNat(n)[0] in PrintNat(n);
    }
  }
}
