/** What the two formatters print, said by characters and values: the laws that fix every rendering
    without reference to how numerals are built. */
module Meanings {
  import opened Bits
  import opened Wrappers
  import opened Numerals
  import opened Pieces
  import opened Formats

  /** Leading zeroes do not change the value. */
  lemma {:induction false} ZeroesParse(k: nat, s: string)
    ensures Parse(ZeroDigits(k) + s, Hex) == Parse(s, Hex)
    decreases |s|, k
  {
    if s != "" {
      var t := ZeroDigits(k) + s;
      assert t[..|t| - 1] == ZeroDigits(k) + s[..|s| - 1];
      ZeroesParse(k, s[..|s| - 1]);
    } else if k > 0 {
      var t := ZeroDigits(k) + s;
      assert t[..|t| - 1] == ZeroDigits(k - 1) + "";
      ZeroesParse(k - 1, "");
    }
  }

  // ----- One conversion -----

  /** `t` is the decimal numeral of `n`, without leading zeroes. */
  predicate SaysDec(t: string, n: nat)
  {
    Decimal(t) && Parse(t, Dec) == n && (t[0] == '0' ==> n == 0)
  }

  predicate SaysSigned(t: string, i: int)
  {
    if i < 0 then t != "" && t[0] == '-' && SaysDec(t[1..], -i) else SaysDec(t, i)
  }

  /** `t` is "0x" and hexadecimal digits of `n`, with letters of one case. */
  predicate SaysHex(t: string, n: nat, upper: bool)
  {
    |t| > 2 && t[0] == '0' && t[1] == 'x' && Hexadecimal(t[2..], upper) && Parse(t[2..], Hex) == n
  }

  lemma SignedSays(i: int)
    ensures SaysSigned(Signed(i), i)
  {
    var n := if i < 0 then -i else i;
    NumeralRoundTrip(n, Dec, true);
    NumeralDecimal(n, true);
    if i < 0 {
      assert Signed(i)[1..] == Numeral(n, Dec, true);
    }
  }

  lemma HexSays(n: nat, upper: bool)
    ensures SaysHex("0x" + Numeral(n, Hex, upper), n, upper)
    ensures ("0x" + Numeral(n, Hex, upper))[2] == '0' <==> n == 0
  {
    NumeralRoundTrip(n, Hex, upper);
    NumeralHexadecimal(n, upper);
    assert ("0x" + Numeral(n, Hex, upper))[2..] == Numeral(n, Hex, upper);
  }

  lemma PaddedSays(s: string, p: nat)
    requires Hexadecimal(s, false) && Parse(s, Hex) == p && |s| <= 8
    ensures var t := ZeroDigits(8 - |s|) + s;
            |t| == 8 && Hexadecimal(t, false) && Parse(t, Hex) == p
  {
    ZeroesParse(8 - |s|, s);
  }

  lemma PaddedIsEight(p: uint32)
    ensures var t := Padded(p);
            |t| == 8 && Hexadecimal(t, false) && Parse(t, Hex) == p
  {
    var s := Numeral(p, Hex, false);
    NumeralRoundTrip(p, Hex, false);
    NumeralHexadecimal(p, false);
    WordLength(p, Hex, false);
    PaddedSays(s, p);
  }

  lemma PointerSays(p: uint32)
    ensures SaysHex("0x" + Padded(p), p, false) && |"0x" + Padded(p)| == 10
  {
    PaddedIsEight(p);
    assert ("0x" + Padded(p))[2..] == Padded(p);
  }

  /** What both formatters print for %d, %i, %u, %s, %c and a NULL %p. */
  predicate SaysPlain(c: char, a: Arg, t: string)
    requires IsConversion(c) && Fits(c, a)
  {
    && (c == 'd' || c == 'i' ==> SaysSigned(t, a.i))
    && (c == 'u' ==> SaysDec(t, a.u))
    && (c == 's' ==> t == if a.s.Some? then a.s.value else "(null)")
    && (c == 'c' ==> |t| == 1 && t[0] as int == a.i % 256)
    && (c == 'p' && a.p == 0 ==> t == "(nil)")
  }

  /** vsnprintf prints %x in lower case, %X in upper case, and pointers in lower case with eight digits. */
  lemma ConvertMeans(c: char, a: Arg)
    requires IsConversion(c) && Fits(c, a)
    ensures SaysPlain(c, a, Convert(c, a))
    ensures c == 'x' || c == 'X' ==> SaysHex(Convert(c, a), a.u, c == 'X') && (Convert(c, a)[2] == '0' ==> a.u == 0)
    ensures c == 'p' && a.p != 0 ==> SaysHex(Convert(c, a), a.p, false) && |Convert(c, a)| == 10
  {
    match a
    case Int(i) => SignedSays(i);
    case UInt(u) =>
      SignedSays(u);
      HexSays(u, c == 'X');
    case Ptr(p) => PointerSays(p);
    case Str(_) =>
  }

  /** printf prints %x, %X and pointers in upper case, without leading zeroes. */
  lemma PrintfConvertMeans(c: char, a: Arg)
    requires IsConversion(c) && Fits(c, a)
    ensures SaysPlain(c, a, PrintfConvert(c, a))
    ensures c == 'x' || c == 'X' ==> SaysHex(PrintfConvert(c, a), a.u, true) && (PrintfConvert(c, a)[2] == '0' ==> a.u == 0)
    ensures c == 'p' && a.p != 0 ==> SaysHex(PrintfConvert(c, a), a.p, true) && PrintfConvert(c, a)[2] != '0'
  {
    match a
    case Int(i) => SignedSays(i);
    case UInt(u) =>
      SignedSays(u);
      HexSays(u, true);
    case Ptr(p) => HexSays(p, true);
    case Str(_) =>
  }

  /** vsnprintf stores a conversion as far as it fits, but nothing of one that starts with "0x" when a
      single byte is left. */
  lemma ConversionRoom(c: char, a: Arg, room: nat)
    requires IsConversion(c) && Fits(c, a)
    ensures Reads(['%', c], [a], room)
    ensures Bounded(['%', c], [a], room) ==
            if room == 1 && (c == 'x' || c == 'X' || (c == 'p' && a.p != 0)) then ""
            else if |Convert(c, a)| <= room then Convert(c, a) else Convert(c, a)[..room]
  {
    var f, args := ['%', c], [a];
    assert Rest(f) == "";
    var t := if room == 0 then "" else Stored(Head(f, args), room);
    assert t + "" == t;
  }

  // ----- Whole formats -----

  predicate Known(c: char)
  {
    c in {'d', 'i', 'u', 'x', 'X', 'p', 's', 'c'}
  }

  /** The four kinds of text in a format, for vsnprintf: characters stand for themselves, "%%" for '%', a
      conversion for its argument, and anything else after '%' for itself; a '%' at the end is dropped. */
  lemma RenderLaws(c: char, g: string, args: seq<Arg>)
    ensures Render("", args) == "" && Render("%", args) == ""
    ensures c != '%' && Matches([c] + g, args) ==>
              Matches(g, args) && Render([c] + g, args) == [c] + Render(g, args)
    ensures Matches("%%" + g, args) ==> Matches(g, args) && Render("%%" + g, args) == "%" + Render(g, args)
    ensures Known(c) && Matches(['%', c] + g, args) ==>
              && args != [] && IsConversion(c) && Fits(c, args[0]) && Matches(g, args[1..])
              && Render(['%', c] + g, args) == Convert(c, args[0]) + Render(g, args[1..])
    ensures !Known(c) && c != '%' && Matches(['%', c] + g, args) ==>
              Matches(g, args) && Render(['%', c] + g, args) == ['%', c] + Render(g, args)
  {
    var one, two, pair := [c] + g, "%%" + g, ['%', c] + g;
    assert one[0] == c && one[1..] == g && two[2..] == g && pair[2..] == g;
    if c != '%' && Matches(one, args) {
      RenderStep(one, args);
    }
    if Matches(two, args) {
      RenderStep(two, args);
    }
    if c != '%' && Matches(pair, args) {
      RenderStep(pair, args);
    }
  }

  /** The same for printf, which prints the rest of the format as it is from an unknown conversion or a
      '%' at the end on. */
  lemma PrintfLaws(c: char, g: string, args: seq<Arg>)
    ensures PrintfRender("", args) == "" && PrintfRender("%", args) == "%"
    ensures c != '%' && PrintfMatches([c] + g, args) ==>
              PrintfMatches(g, args) && PrintfRender([c] + g, args) == [c] + PrintfRender(g, args)
    ensures PrintfMatches("%%" + g, args) ==>
              PrintfMatches(g, args) && PrintfRender("%%" + g, args) == "%" + PrintfRender(g, args)
    ensures Known(c) && PrintfMatches(['%', c] + g, args) ==>
              && args != [] && IsConversion(c) && Fits(c, args[0]) && PrintfMatches(g, args[1..])
              && PrintfRender(['%', c] + g, args) == PrintfConvert(c, args[0]) + PrintfRender(g, args[1..])
    ensures !Known(c) && c != '%' ==>
              PrintfMatches(['%', c] + g, args) && PrintfRender(['%', c] + g, args) == ['%', c] + g
  {
    assert ([c] + g)[1..] == g && ("%%" + g)[2..] == g && (['%', c] + g)[2..] == g;
  }
}
