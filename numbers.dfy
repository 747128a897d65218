/**
 * Integer rendering and parsing as the framing code uses it: strconv.Itoa and fmt's %d
 * (decimal), fmt's %X (upper-case hexadecimal) and strconv.Atoi on a 64-bit platform.
 */
module Numbers {
  import opened Errors
  import opened Bytes

  const Plus: Byte := 43
  const Minus: Byte := 45
  const Zero: Byte := 48

  const MaxInt64: int := 0x7fff_ffff_ffff_ffff
  const MinInt64: int := -0x8000_0000_0000_0000

  predicate IsDigit(b: Byte) { 48 <= b <= 57 }

  predicate AllDigits(s: Bytes) {
    forall i | 0 <= i < |s| :: IsDigit(s[i])
  }

  /** The decimal digits of `n`, most significant first, without a leading zero. */
  function Decimal(n: nat): (r: Bytes)
    ensures |r| >= 1 && AllDigits(r)
    ensures r[0] == Zero ==> n == 0 && |r| == 1
    decreases n
  {
    if n < 10 then [Zero + n] else Decimal(n / 10) + [Zero + n % 10]
  }

  /** The value of a string of decimal digits, most significant first. */
  function DecimalValue(s: Bytes): nat
    requires AllDigits(s)
  {
    if s == [] then 0 else DecimalValue(s[..|s| - 1]) * 10 + (s[|s| - 1] - Zero)
  }

  lemma {:induction false} DecimalValueOfDecimal(n: nat)
    ensures DecimalValue(Decimal(n)) == n
    decreases n
  {
    if n >= 10 {
      var d := Decimal(n / 10);
      assert (d + [Zero + n % 10])[..|d|] == d;
      DecimalValueOfDecimal(n / 10);
    }
  }

  /** strconv.Itoa and fmt's %d: a '-' before the digits of a negative number. */
  function Itoa(n: int): Bytes {
    if n < 0 then [Minus] + Decimal(-n) else Decimal(n)
  }

  /**
   * strconv.Atoi: an optional '+' or '-', then one or more decimal digits (leading zeros
   * allowed), whose value must fit in 64 bits; anything else is an error.
   */
  function Atoi(s: Bytes): (r: Option<int>)
    ensures r.Some? ==> MinInt64 <= r.value <= MaxInt64
  {
    if s == [] then None
    else
      var digits := if s[0] == Plus || s[0] == Minus then s[1..] else s;
      if digits == [] || !AllDigits(digits) then None
      else
        var v: int := if s[0] == Minus then -(DecimalValue(digits) as int) else DecimalValue(digits);
        if v < MinInt64 || v > MaxInt64 then None else Some(v)
  }

  /** Atoi reads back what Itoa writes, for every 64-bit integer. */
  lemma AtoiItoa(n: int)
    requires MinInt64 <= n <= MaxInt64
    ensures Atoi(Itoa(n)) == Some(n)
  {
    if n < 0 {
      AtoiNegative(n);
    } else {
      DecimalValueOfDecimal(n);
      AtoiDigits(Decimal(n));
    }
  }

  /** Digits alone, the first not being a sign, read as their value when it fits. */
  lemma AtoiDigits(s: Bytes)
    requires |s| >= 1 && AllDigits(s) && DecimalValue(s) <= MaxInt64
    ensures Atoi(s) == Some(DecimalValue(s))
  {
    assert IsDigit(s[0]);
  }

  lemma AtoiNegative(n: int)
    requires MinInt64 <= n < 0
    ensures Atoi([Minus] + Decimal(-n)) == Some(n)
  {
    var s := [Minus] + Decimal(-n);
    assert s[0] == Minus;
    assert s[1..] == Decimal(-n);
    DecimalValueOfDecimal(-n);
  }

  // ---------------------------------------------------------------------------
  // Hexadecimal

  predicate IsHexDigit(b: Byte) {
    IsDigit(b) || 65 <= b <= 70 || 97 <= b <= 102
  }

  predicate AllHex(s: Bytes) {
    forall i | 0 <= i < |s| :: IsHexDigit(s[i])
  }

  /** The value of a hexadecimal digit of either case. */
  function HexDigitValue(b: Byte): (d: nat)
    requires IsHexDigit(b)
    ensures d < 16
  {
    if IsDigit(b) then b - 48 else if b <= 70 then b - 55 else b - 87
  }

  /** The upper-case hexadecimal digit of `d`. */
  function HexDigit(d: nat): (b: Byte)
    requires d < 16
    ensures IsHexDigit(b) && !IsLowerLetter(b) && HexDigitValue(b) == d
  {
    if d < 10 then Zero + d else 55 + d
  }

  /** fmt's %X: upper-case hexadecimal digits of `n`, without a leading zero. */
  function Hex(n: nat): (r: Bytes)
    ensures |r| >= 1 && AllHex(r)
    ensures forall i | 0 <= i < |r| :: !IsLowerLetter(r[i])
    ensures r[0] == Zero ==> n == 0 && |r| == 1
    decreases n
  {
    if n < 16 then [HexDigit(n)] else Hex(n / 16) + [HexDigit(n % 16)]
  }

  /** The value of a string of hexadecimal digits, most significant first. */
  function HexValue(s: Bytes): nat
    requires AllHex(s)
  {
    if s == [] then 0 else HexValue(s[..|s| - 1]) * 16 + HexDigitValue(s[|s| - 1])
  }

  lemma {:induction false} HexValueOfHex(n: nat)
    ensures HexValue(Hex(n)) == n
    decreases n
  {
    if n >= 16 {
      var h := Hex(n / 16);
      assert (h + [HexDigit(n % 16)])[..|h|] == h;
      HexValueOfHex(n / 16);
    }
  }
}
