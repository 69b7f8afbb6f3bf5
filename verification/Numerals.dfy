/** Numbers in text: the numeral every formatter should print, and the digit loops of
    libc/stdio/printf.c (itoa, utoa) and kernel/kernel/debug.c (the buffers of vsnprintf). */
module Numerals {
  import opened Bits

  type int32 = x: int | -0x8000_0000 <= x < 0x8000_0000

  const INT_MAX := 0x7FFF_FFFF
  const INT_MIN := -0x8000_0000

  // ----- Specification -----

  /** The two bases in use. */
  datatype Radix = Dec | Hex

  function Times(r: Radix, n: nat): nat
  {
    if r == Dec then 10 * n else 16 * n
  }

  function Quot(n: nat, r: Radix): (q: nat)
    ensures n > 0 ==> q < n
    ensures n == Times(r, q) + Rem(n, r)
  {
    if r == Dec then n / 10 else n / 16
  }

  function Rem(n: nat, r: Radix): (d: nat)
    ensures d < 16
  {
    if r == Dec then n % 10 else n % 16
  }

  /** C's `value & 0xF` and `value >>= 4` take the last hexadecimal digit off. */
  lemma HexStep(value: nat)
    ensures And(value, 0xF) == Rem(value, Hex) && Shr(value, 4) == Quot(value, Hex)
  {
    ByNibble(value);
  }

  /** The digit characters, with upper- or lower-case letters. */
  function Digit(d: nat, upper: bool): char
    requires d < 16
  {
    if upper then "0123456789ABCDEF"[d] else "0123456789abcdef"[d]
  }

  /** The digits before the last one. */
  function Leading(n: nat, r: Radix, upper: bool): string
    decreases n, 0
  {
    if Quot(n, r) == 0 then "" else Numeral(Quot(n, r), r, upper)
  }

  /** The numeral of `n`, most significant digit first. */
  function Numeral(n: nat, r: Radix, upper: bool): (s: string)
    ensures |s| > 0
    decreases n, 1
  {
    Leading(n, r, upper) + [Digit(Rem(n, r), upper)]
  }

  function Signed(i: int): string
  {
    if i < 0 then "-" + Numeral(-i, Dec, true) else Numeral(i, Dec, true)
  }

  /** The value of a digit character of either case. */
  function DigitValue(c: char): nat
  {
    if '0' <= c <= '9' then c as nat - '0' as nat
    else if 'a' <= c <= 'f' then c as nat - 'a' as nat + 10
    else if 'A' <= c <= 'F' then c as nat - 'A' as nat + 10
    else 0
  }

  function Parse(s: string, r: Radix): nat
  {
    if s == "" then 0 else Times(r, Parse(s[..|s| - 1], r)) + DigitValue(s[|s| - 1])
  }

  function ParseSigned(s: string): int
  {
    if s != "" && s[0] == '-' then 0 - Parse(s[1..], Dec) else Parse(s, Dec)
  }

  lemma DigitRoundTrip(d: nat, upper: bool)
    requires d < 16
    ensures DigitValue(Digit(d, upper)) == d && (Digit(d, upper) == '0' <==> d == 0) && Digit(d, upper) != '-'
  {
  }

  lemma ParseAppend(s: string, c: char, r: Radix)
    ensures Parse(s + [c], r) == Times(r, Parse(s, r)) + DigitValue(c)
  {
  }

  /** Parsing a numeral gives the number back; only zero's numeral starts with 0. */
  lemma {:induction false} NumeralRoundTrip(n: nat, r: Radix, upper: bool)
    ensures var s := Numeral(n, r, upper);
            Parse(s, r) == n && (s[0] == '0' <==> n == 0) && s[0] != '-'
  {
    DigitRoundTrip(Rem(n, r), upper);
    ParseAppend(Leading(n, r, upper), Digit(Rem(n, r), upper), r);
    if Quot(n, r) != 0 {
      NumeralRoundTrip(Quot(n, r), r, upper);
    }
  }

  lemma SignedRoundTrip(i: int)
    ensures ParseSigned(Signed(i)) == i
  {
    NumeralRoundTrip(if i < 0 then -i else i, Dec, true);
    if i < 0 {
      assert Signed(i)[1..] == Numeral(-i, Dec, true);
    }
  }

  // ----- Numerals, by their characters -----

  /** The digits 0 to 9 are the codes from 48 on; the letters follow 'A' or 'a'. */
  lemma DigitCodes(d: nat, upper: bool)
    requires d < 16
    ensures Digit(d, upper) as int == if d < 10 then 48 + d else if upper then 55 + d else 87 + d
    ensures DigitValue(Digit(d, upper)) == d
  {
  }

  predicate Decimal(s: string)
  {
    s != "" && forall i :: 0 <= i < |s| ==> '0' <= s[i] <= '9'
  }

  predicate Hexadecimal(s: string, upper: bool)
  {
    s != "" && forall i :: 0 <= i < |s| ==> '0' <= s[i] <= '9' || if upper then 'A' <= s[i] <= 'F' else 'a' <= s[i] <= 'f'
  }

  lemma {:induction false} NumeralDecimal(n: nat, upper: bool)
    ensures Decimal(Numeral(n, Dec, upper))
  {
    DigitCodes(Rem(n, Dec), upper);
    if Quot(n, Dec) != 0 {
      NumeralDecimal(Quot(n, Dec), upper);
    }
  }

  lemma {:induction false} NumeralHexadecimal(n: nat, upper: bool)
    ensures Hexadecimal(Numeral(n, Hex, upper), upper)
  {
    DigitCodes(Rem(n, Hex), upper);
    if Quot(n, Hex) != 0 {
      NumeralHexadecimal(Quot(n, Hex), upper);
    }
  }

  /** `s` is the numeral of `n`, said by its characters and its value. */
  predicate Says(s: string, n: nat, r: Radix, upper: bool)
  {
    Parse(s, r) == n && if r == Dec then Decimal(s) else Hexadecimal(s, upper)
  }

  lemma NumeralSays(n: nat, r: Radix, upper: bool)
    ensures Says(Numeral(n, r, upper), n, r, upper)
  {
    NumeralRoundTrip(n, r, upper);
    if r == Dec {
      NumeralDecimal(n, upper);
    } else {
      NumeralHexadecimal(n, upper);
    }
  }

  function Power(r: Radix, k: nat): (p: nat)
    ensures p > 0
  {
    if k == 0 then 1 else Times(r, Power(r, k - 1))
  }

  /** A numeral has at most k digits exactly when the number is below the k-th power of the base. */
  lemma {:induction false} NumeralLength(n: nat, r: Radix, upper: bool, k: nat)
    requires k > 0
    ensures |Numeral(n, r, upper)| <= k <==> n < Power(r, k)
  {
    if Quot(n, r) != 0 {
      if k == 1 {
        assert Power(r, 1) == Times(r, Power(r, 0));
      } else {
        NumeralLength(Quot(n, r), r, upper, k - 1);
      }
    } else {
      assert Power(r, k) == Times(r, Power(r, k - 1));
    }
  }

  /** 32-bit numbers have at most ten decimal and eight hexadecimal digits. */
  lemma WordLength(n: uint32, r: Radix, upper: bool)
    ensures |Numeral(n, r, upper)| <= (if r == Dec then 10 else 8)
  {
    WordPowers();
    NumeralLength(n, r, upper, if r == Dec then 10 else 8);
  }

  lemma WordPowers()
    ensures Power(Dec, 10) == 10000000000
    ensures Power(Hex, 7) == 0x1000_0000 && Power(Hex, 8) == 0x1_0000_0000
  {
  }

  // ----- Reversal -----

  function Reverse(s: string): (r: string)
    ensures |r| == |s|
    ensures forall i :: 0 <= i < |s| ==> r[i] == s[|s| - 1 - i]
  {
    if s == "" then "" else Reverse(s[1..]) + [s[0]]
  }

  lemma ReverseIs(s: string, r: string)
    requires |r| == |s| && forall i :: 0 <= i < |s| ==> r[i] == s[|s| - 1 - i]
    ensures r == Reverse(s)
  {
  }

  lemma ReverseAppend(s: string, c: char)
    ensures Reverse(s + [c]) == [c] + Reverse(s)
  {
  }

  // ----- Digit loops -----

  /** One round of a digit loop: the digits collected so far, reversed, complete the rest. */
  lemma OneDigit(value: nat, rest: nat, r: Radix, upper: bool, done: string)
    requires Numeral(rest, r, upper) + Reverse(done) == Numeral(value, r, upper)
    ensures var digit := Digit(Rem(rest, r), upper);
            Leading(rest, r, upper) + Reverse(done + [digit]) == Numeral(value, r, upper)
  {
    ReverseAppend(done, Digit(Rem(rest, r), upper));
  }

  /** One digit off `value`: by division in base 10, by mask and shift in base 16. */
  method LastDigit(value: nat, r: Radix) returns (digit: nat, next: nat)
    ensures digit == Rem(value, r) && next == Quot(value, r)
  {
    if r == Dec {
      digit, next := value % 10, value / 10;
    } else {
      HexStep(value);
      digit, next := And(value, 0xF), Shr(value, 4);
    }
  }

  /** The do-while digit loop of vsnprintf: least significant digit first, never cut by the buffer. */
  method CollectReversed(buffer: array<char>, value: uint32, r: Radix, upper: bool) returns (pos: nat)
    requires buffer.Length == 32
    modifies buffer
    ensures 0 < pos <= 10
    ensures Reverse(buffer[..pos]) == Numeral(value, r, upper)
  {
    WordLength(value, r, upper);
    pos := 0;
    var rest: nat := value;
    while true
      invariant pos + |Numeral(rest, r, upper)| == |Numeral(value, r, upper)|
      invariant Numeral(rest, r, upper) + Reverse(buffer[..pos]) == Numeral(value, r, upper)
      decreases rest
    {
      OneDigit(value, rest, r, upper, buffer[..pos]);
      ghost var before := buffer[..pos];
      var digit, next := LastDigit(rest, r);
      buffer[pos] := Digit(digit, upper);
      assert buffer[..pos + 1] == before + [buffer[pos]];
      pos := pos + 1;
      rest := next;
      if !(rest != 0 && pos < 31) {
        break;
      }
    }
  }

  /** What it leaves, read backwards, is the numeral: its characters and its value. */
  method DigitsReversed(buffer: array<char>, value: uint32, r: Radix, upper: bool) returns (pos: nat)
    requires buffer.Length == 32
    modifies buffer
    ensures 0 < pos <= 10
    ensures Reverse(buffer[..pos]) == Numeral(value, r, upper) && Says(Reverse(buffer[..pos]), value, r, upper)
  {
    pos := CollectReversed(buffer, value, r, upper);
    NumeralSays(value, r, upper);
  }

  /** The swap loop that reverses str[0..n) in place. */
  method ReverseInPlace(str: array<char>, n: nat)
    requires n <= str.Length
    modifies str
    ensures str[..n] == Reverse(old(str[..n]))
    ensures str[n..] == old(str[n..])
  {
    var start, end := 0, n - 1;
    while start < end
      invariant 0 <= start && end == n - 1 - start && start <= end + 2
      invariant forall i :: 0 <= i < start ==> str[i] == old(str[n - 1 - i]) && str[n - 1 - i] == old(str[i])
      invariant forall i :: start <= i <= end ==> str[i] == old(str[i])
      invariant forall i :: n <= i < str.Length ==> str[i] == old(str[i])
    {
      var temp := str[start];
      str[start] := str[end];
      str[end] := temp;
      start := start + 1;
      end := end - 1;
    }
    ReverseIs(old(str[..n]), str[..n]);
  }

  /** The digit loop of utoa and itoa for a non-zero number, least significant digit first. */
  method CollectDigits(str: array<char>, num: uint32, r: Radix) returns (i: nat)
    requires str.Length >= 32 && num > 0
    modifies str
    ensures 0 < i <= 10
    ensures Reverse(str[..i]) == Numeral(num, r, true)
  {
    WordLength(num, r, true);
    i := 0;
    var rest: nat := num;
    while rest != 0
      invariant rest != 0 ==> i + |Numeral(rest, r, true)| == |Numeral(num, r, true)|
      invariant rest == 0 ==> 0 < i == |Numeral(num, r, true)|
      invariant (if rest == 0 then "" else Numeral(rest, r, true)) + Reverse(str[..i]) == Numeral(num, r, true)
    {
      OneDigit(num, rest, r, true, str[..i]);
      ghost var before := str[..i];
      str[i] := Digit(Rem(rest, r), true);
      assert str[..i + 1] == before + [str[i]];
      i := i + 1;
      rest := Quot(rest, r);
    }
  }

  /** str = "0". */
  method StoreZero(str: array<char>)
    requires str.Length == 32
    modifies str
    ensures str[..1] == Numeral(0, Dec, true) == Numeral(0, Hex, true) && str[1] == '\0'
  {
    str[0] := '0';
    str[1] := '\0';
  }

  /** The end of both: the digits in the right order, and the terminator. */
  method Finish(str: array<char>, i: nat)
    requires i < str.Length
    modifies str
    ensures str[..i] == Reverse(old(str[..i])) && str[i] == '\0'
  {
    ReverseInPlace(str, i);
    str[i] := '\0';
  }

  method Utoa(str: array<char>, num: uint32, r: Radix) returns (i: nat)
    requires str.Length == 32
    modifies str
    ensures i <= 10 && str[..i] == Numeral(num, r, true) && str[i] == '\0'
    ensures Says(str[..i], num, r, true)
  {
    if num == 0 {
      StoreZero(str);
      i := 1;
    } else {
      i := CollectDigits(str, num, r);
      Finish(str, i);
    }
    NumeralSays(num, r, true);
  }

  /** itoa as printf calls it, in base 10. Negating INT_MIN overflows in C. */
  method Itoa(str: array<char>, num: int32) returns (i: nat)
    requires str.Length == 32 && num > INT_MIN
    modifies str
    ensures i <= 11 && str[..i] == Signed(num) && str[i] == '\0'
    ensures ParseSigned(str[..i]) == num
  {
    if num == 0 {
      StoreZero(str);
      i := 1;
    } else {
      i := SignedDigits(str, num);
      Finish(str, i);
    }
    SignedRoundTrip(num);
  }

  /** The digits of a non-zero number and its sign, reversed. */
  method SignedDigits(str: array<char>, num: int32) returns (i: nat)
    requires str.Length == 32 && num > INT_MIN && num != 0
    modifies str
    ensures 0 < i <= 11 && Reverse(str[..i]) == Signed(num)
  {
    var negative := num < 0;
    var magnitude := if negative then -num else num;
    i := CollectDigits(str, magnitude, Dec);
    if negative {
      ghost var digits := str[..i];
      str[i] := '-';
      assert str[..i + 1] == digits + ['-'];
      ReverseAppend(digits, '-');
      i := i + 1;
    }
  }
}
