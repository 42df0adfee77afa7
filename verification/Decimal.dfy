// Go's strconv.FormatInt and strconv.ParseInt in base 10, for any bit size: printing,
// parsing with its two errors, and the exact round trip between them.
module Decimal {

  // A syntax error gives 0 and a range error the nearest bound; callers here ignore
  // which of the errors it was, but not the value that comes with it.
  datatype Scanned = Unsigned(value: nat) | Syntax | Range

  function Power2(bits: nat): (r: nat)
    ensures r > 0
  {
    if bits == 0 then 1 else 2 * Power2(bits - 1)
  }

  predicate Fits(n: int, bits: nat)
    requires bits > 0
  {
    0 <= n + Power2(bits - 1) && n < Power2(bits - 1)
  }

  function Digit(d: nat): char
    requires d < 10
  {
    '0' + d as char
  }

  function Digits(n: nat): (s: string)
    ensures |s| > 0 && '0' <= s[0] <= '9'
  {
    if n < 10 then [Digit(n)] else Digits(n / 10) + [Digit(n % 10)]
  }

  function FormatInt(n: int): string {
    if n < 0 then "-" + Digits(-n) else Digits(n)
  }

  function Append(n: nat, c: char, max: nat): Scanned {
    if !('0' <= c <= '9') then Syntax
    else
      var n' := 10 * n + (c as int - '0' as int);
      if n' > max then Range else Unsigned(n')
  }

  // The digits left to right; the first problem decides.
  function ScanFrom(n: nat, s: string, max: nat): Scanned
    decreases |s|
  {
    if s == "" then Unsigned(n)
    else
      match Append(n, s[0], max)
      case Unsigned(n') => ScanFrom(n', s[1..], max)
      case error => error
  }

  function ParseUint(s: string, max: nat): Scanned {
    if s == "" then Syntax else ScanFrom(0, s, max)
  }

  function ParseInt(s: string, bits: nat): int
    requires bits > 0
  {
    if s == "" then 0
    else
      var negative := s[0] == '-';
      var digits := if negative || s[0] == '+' then s[1..] else s;
      var max := Power2(bits) - 1;
      match ParseUint(digits, max)
      case Syntax => 0
      case Range => WithSign(negative, max, bits)
      case Unsigned(value) => WithSign(negative, value, bits)
  }

  function WithSign(negative: bool, value: int, bits: nat): int
    requires bits > 0
  {
    var cutoff: int := Power2(bits - 1);
    if !negative && value >= cutoff then cutoff - 1
    else if negative && value > cutoff then -cutoff
    else if negative then -value
    else value
  }

  function Clamp(n: int, bits: nat): (r: int)
    requires bits > 0
    ensures r == n <==> Fits(n, bits)
  {
    var cutoff: int := Power2(bits - 1);
    if n < -cutoff then -cutoff else if n >= cutoff then cutoff - 1 else n
  }

  // Printing any integer and parsing it back gives the nearest value of the bit size.
  lemma ParseOfFormat(n: int, bits: nat)
    requires bits > 0
    ensures ParseInt(FormatInt(n), bits) == Clamp(n, bits)
  {
    var magnitude: nat := if n < 0 then -n else n;
    var s := FormatInt(n);
    assert (if n < 0 then s[1..] else s) == Digits(magnitude);
    ScanOfDigits(magnitude, Power2(bits) - 1);
  }

  lemma RoundTripIff(n: int, bits: nat)
    requires bits > 0
    ensures ParseInt(FormatInt(n), bits) == n <==> Fits(n, bits)
  {
    ParseOfFormat(n, bits);
  }

  lemma {:induction false} ScanOfDigits(n: nat, max: nat)
    ensures ScanFrom(0, Digits(n), max) == if n <= max then Unsigned(n) else Range
  {
    if n >= 10 {
      ScanOfDigits(n / 10, max);
      ScanSnoc(0, Digits(n / 10), Digit(n % 10), max);
    }
  }

  lemma {:induction false} ScanSnoc(n: nat, s: string, c: char, max: nat)
    ensures ScanFrom(n, s + [c], max) ==
            match ScanFrom(n, s, max)
            case Unsigned(m) => Append(m, c, max)
            case error => error
    decreases |s|
  {
    if s == "" {
    } else {
      assert (s + [c])[1..] == s[1..] + [c];
      var next := Append(n, s[0], max);
      if next.Unsigned? {
        ScanSnoc(next.value, s[1..], c, max);
      }
    }
  }

  // What the text looks like: decimal digits without a leading zero, the last of them
  // the remainder by ten and the ones before it the text of the quotient; a minus sign
  // in front of a negative number's.
  lemma {:induction false} DecimalText(n: nat)
    ensures var s := FormatInt(n);
            && |s| > 0 && (forall c <- s :: '0' <= c <= '9') && (|s| > 1 ==> s[0] != '0')
            && s[|s| - 1] as int == '0' as int + n % 10
            && s[..|s| - 1] == if n < 10 then "" else FormatInt(n / 10)
    ensures n > 0 ==> FormatInt(0 - n) == "-" + FormatInt(n)
  {
    if n >= 10 {
      DecimalText(n / 10);
      NoLeadingZero(n / 10);
    }
  }

  lemma {:induction false} NoLeadingZero(n: nat)
    requires n > 0
    ensures Digits(n)[0] != '0'
  {
    if n >= 10 {
      NoLeadingZero(n / 10);
    }
  }
}
