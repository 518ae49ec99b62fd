/** Decimal printing and Go's strconv.Atoi and strconv.ParseUint(s, 0, 16). */
module Numbers {
  import opened Options

  const MAX_INT64: int := 0x7FFF_FFFF_FFFF_FFFF

  /** The value of a digit in bases up to 16, and 99 for any other character. */
  function DigitValue(c: char): nat {
    if '0' <= c <= '9' then c as int - '0' as int
    else if 'a' <= c <= 'f' then c as int - 'a' as int + 10
    else if 'A' <= c <= 'F' then c as int - 'A' as int + 10
    else 99
  }

  predicate DigitsOf(s: string, base: nat) {
    forall i :: 0 <= i < |s| ==> DigitValue(s[i]) < base
  }

  /** Horner evaluation. */
  function Value(s: string, base: nat): nat {
    if s == "" then 0 else Value(s[..|s| - 1], base) * base + DigitValue(s[|s| - 1])
  }

  function Unsigned(s: string, base: nat): Option<nat> {
    if s != "" && DigitsOf(s, base) then Some(Value(s, base)) else None
  }

  /** strconv.Atoi: an optional sign, decimal digits, 64-bit range. */
  function Atoi(s: string): Option<int> {
    var negative := s != "" && s[0] == '-';
    var digits := if s != "" && (s[0] == '-' || s[0] == '+') then s[1..] else s;
    match Unsigned(digits, 10)
    case None => None
    case Some(n) =>
      var v: int := if negative then 0 - n else n;
      if -MAX_INT64 - 1 <= v <= MAX_INT64 then Some(v) else None
  }

  /** strconv.ParseUint(s, 0, 16): hexadecimal after 0x, octal after 0, else decimal; 16-bit range. */
  function ParseUint16(s: string): (r: Option<nat>)
    ensures r.Some? ==> r.value < 0x1_0000
  {
    var parsed :=
      if |s| > 1 && s[0] == '0' && (s[1] == 'x' || s[1] == 'X') then Unsigned(s[2..], 16)
      else if s != "" && s[0] == '0' then Unsigned(s, 8)
      else Unsigned(s, 10);
    if parsed.Some? && parsed.value < 0x1_0000 then parsed else None
  }

  /** The character of a digit in bases up to 16. */
  function DigitChar(d: nat): (c: char)
    requires d < 16
    ensures DigitValue(c) == d
  {
    if d < 10 then ('0' as int + d) as char else ('a' as int + d - 10) as char
  }

  /** The digits, in either case; no other character is one. */
  lemma DigitTable(d: nat)
    requires d < 16
    ensures DigitChar(d) == "0123456789abcdef"[d]
    ensures DigitValue("0123456789abcdef"[d]) == d == DigitValue("0123456789ABCDEF"[d])
  {
  }

  lemma NoOtherDigit(c: char)
    requires !IsDecimal(c) && !('a' <= c <= 'f') && !('A' <= c <= 'F')
    ensures DigitValue(c) >= 16
  {
  }

  /** A non-negative integer written in a base. */
  function PrintIn(n: nat, base: nat): (s: string)
    requires 2 <= base <= 16
    ensures s != ""
  {
    if n < base then [DigitChar(n)] else PrintIn(n / base, base) + [DigitChar(n % base)]
  }

  /** fmt.Sprint of a non-negative integer. */
  function Print(n: nat): (s: string)
    ensures s != ""
  {
    PrintIn(n, 10)
  }

  /** The last digit of a printed number is its remainder by ten, the others print the quotient. */
  lemma PrintDigits(n: nat, d: nat)
    requires d < 10
    ensures Print(10 * n + d) == (if n == 0 then "" else Print(n)) + ["0123456789"[d]]
  {
    assert (10 * n + d) / 10 == n && (10 * n + d) % 10 == d;
  }

  lemma DivMod(n: nat, base: nat)
    requires base > 0
    ensures n / base * base + n % base == n
  {
  }

  lemma ValueSnoc(s: string, d: nat, base: nat)
    requires d < base <= 16 && DigitsOf(s, base)
    ensures DigitsOf(s + [DigitChar(d)], base) && Value(s + [DigitChar(d)], base) == Value(s, base) * base + d
  {
    var t := s + [DigitChar(d)];
    assert t[..|t| - 1] == s;
  }

  lemma OneDigit(n: nat, base: nat)
    requires n < base <= 16
    ensures DigitsOf([DigitChar(n)], base) && Value([DigitChar(n)], base) == n
  {
    ValueSnoc("", n, base);
    assert "" + [DigitChar(n)] == [DigitChar(n)];
  }

  /** Written numbers are digits of their base, without a leading zero unless the number is zero. */
  lemma {:induction false} PrintInShape(n: nat, base: nat)
    requires 2 <= base <= 16
    ensures DigitsOf(PrintIn(n, base), base) && Value(PrintIn(n, base), base) == n
    ensures PrintIn(n, base)[0] == '0' ==> n == 0
    ensures n == 0 ==> PrintIn(n, base) == "0"
  {
    if n < base {
      OneDigit(n, base);
    } else {
      var front := PrintIn(n / base, base);
      PrintInShape(n / base, base);
      QuotientPositive(n, base);
      ValueSnoc(front, n % base, base);
      DivMod(n, base);
      assert PrintIn(n, base) == front + [DigitChar(n % base)];
    }
  }

  lemma QuotientPositive(n: nat, base: nat)
    requires 0 < base <= n
    ensures n / base > 0
  {
  }

  lemma PrintShape(n: nat)
    ensures DigitsOf(Print(n), 10) && Value(Print(n), 10) == n
    ensures Print(n)[0] == '0' ==> n == 0
    ensures n == 0 ==> Print(n) == "0"
  {
    PrintInShape(n, 10);
  }

  /** Reading a printed number in base 0 gives it back, if it has 16 bits, and is refused otherwise. */
  lemma PrintParse(n: nat)
    ensures ParseUint16(Print(n)) == if n < 0x1_0000 then Some(n) else None
  {
    PrintShape(n);
    if n == 0 {
      assert "0"[..0] == "";
    } else {
      DecimalIsNotHex(Print(n));
    }
  }

  lemma DecimalIsNotHex(s: string)
    requires DigitsOf(s, 10) && s != "" && s[0] != '0'
    ensures ParseUint16(s) == if Value(s, 10) < 0x1_0000 then Some(Value(s, 10)) else None
  {
  }

  /** So are hexadecimal numbers behind 0x or 0X, and octal numbers behind 0. */
  lemma PrefixedParse(n: nat, prefix: string)
    requires prefix in {"0x", "0X", "0"}
    ensures ParseUint16(prefix + PrintIn(n, if prefix == "0" then 8 else 16)) == if n < 0x1_0000 then Some(n) else None
  {
    var base := if prefix == "0" then 8 else 16;
    var digits := PrintIn(n, base);
    var s := prefix + digits;
    PrintInShape(n, base);
    if prefix == "0" {
      assert s == ['0'] + digits;
      LeadingZero(digits, 8);
      assert DigitValue(s[1]) < 8;
    } else {
      assert s[2..] == digits;
    }
  }

  /** Refused: no digits at all, or a character that is no digit of the base that the prefix names. */
  lemma ParseRefuses(s: string)
    ensures s in {"", "0x", "0X"} ==> ParseUint16(s).None?
    ensures s != "" && s[0] != '0' && (exists i :: 0 <= i < |s| && !IsDecimal(s[i])) ==> ParseUint16(s).None?
    ensures |s| > 1 && s[0] == '0' && s[1] != 'x' && s[1] != 'X' && (exists i :: 0 <= i < |s| && !('0' <= s[i] <= '7'))
            ==> ParseUint16(s).None?
  {
    assert s in {"0x", "0X"} ==> s[2..] == "";
    assert forall c :: !IsDecimal(c) ==> DigitValue(c) >= 10;
    assert forall c :: !('0' <= c <= '7') ==> DigitValue(c) >= 8;
  }

  lemma {:induction false} LeadingZero(s: string, base: nat)
    requires DigitsOf(s, base) && base > 0
    ensures DigitsOf(['0'] + s, base) && Value(['0'] + s, base) == Value(s, base)
  {
    var t := ['0'] + s;
    if s == "" {
      assert t[..0] == "";
    } else {
      assert t[..|t| - 1] == ['0'] + s[..|s| - 1];
      LeadingZero(s[..|s| - 1], base);
    }
  }

  // ---------- strconv.Atoi ----------

  lemma AtoiUnsigned(digits: string)
    requires digits != "" && DigitsOf(digits, 10)
    ensures Atoi(digits) == if Value(digits, 10) <= MAX_INT64 then Some(Value(digits, 10)) else None
  {
    assert DigitValue('-') == 99 && DigitValue('+') == 99;
    assert DigitValue(digits[0]) < 10;
  }

  lemma AtoiSigned(digits: string)
    requires digits != "" && DigitsOf(digits, 10)
    ensures Atoi("+" + digits) == if Value(digits, 10) <= MAX_INT64 then Some(Value(digits, 10)) else None
    ensures Atoi("-" + digits) == if Value(digits, 10) <= MAX_INT64 + 1 then Some(0 - Value(digits, 10)) else None
  {
    assert ("+" + digits)[1..] == digits && ("-" + digits)[1..] == digits;
  }

  /** Atoi reads a printed number back, with either sign and leading zeros, up to 64 bits. */
  lemma AtoiPrinted(n: nat)
    ensures Atoi(Print(n)) == if n <= 9_223_372_036_854_775_807 then Some(n) else None
    ensures Atoi("+" + Print(n)) == if n <= 9_223_372_036_854_775_807 then Some(n) else None
    ensures Atoi("-" + Print(n)) == if n <= 9_223_372_036_854_775_808 then Some(0 - n) else None
    ensures Atoi("0" + Print(n)) == if n <= 9_223_372_036_854_775_807 then Some(n) else None
  {
    var digits := Print(n);
    PrintShape(n);
    AtoiUnsigned(digits);
    AtoiSigned(digits);
    LeadingZero(digits, 10);
    assert "0" + digits == ['0'] + digits;
    AtoiUnsigned("0" + digits);
  }

  /** Atoi refuses the empty text, a bare sign, and any text with another character than a digit behind the sign. */
  lemma AtoiRefuses(s: string)
    requires s == "" || s == "-" || s == "+" || (!IsDecimal(s[0]) && s[0] != '-' && s[0] != '+')
             || exists i :: 0 < i < |s| && !IsDecimal(s[i])
    ensures Atoi(s).None?
  {
    if s != "" {
      var digits := if s[0] == '-' || s[0] == '+' then s[1..] else s;
      forall i | 0 < i < |s| && !IsDecimal(s[i]) ensures !DigitsOf(digits, 10) {
        assert DigitValue(s[i]) >= 10;
        assert s[i] == digits[if |digits| < |s| then i - 1 else i];
      }
      if !IsDecimal(s[0]) && s[0] != '-' && s[0] != '+' {
        assert DigitValue(digits[0]) >= 10;
      }
    }
  }

  /** Nothing else is refused but what exceeds 64 bits. */
  lemma AtoiAccepts(s: string, sign: string)
    requires sign in {"", "-", "+"} && s != "" && forall i :: 0 <= i < |s| ==> IsDecimal(s[i])
    ensures Atoi(sign + s).Some? <==>
            Value(s, 10) <= if sign == "-" then 9_223_372_036_854_775_808 else 9_223_372_036_854_775_807
  {
    assert forall i :: 0 <= i < |s| ==> DigitValue(s[i]) < 10;
    AtoiUnsigned(s);
    AtoiSigned(s);
    assert "" + s == s;
  }

  predicate IsDecimal(c: char) {
    '0' <= c <= '9'
  }
}
