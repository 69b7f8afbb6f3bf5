/** What the format strings of kernel/kernel/debug.c and libc/stdio/printf.c mean, without buffers. */
module Formats {
  import opened Bits
  import opened Wrappers
  import opened Numerals
  import opened Pieces

  /** The variable arguments, tagged by the type va_arg is called with. */
  datatype Arg = Int(i: int32) | UInt(u: uint32) | Ptr(p: uint32) | Str(s: Option<string>)

  /** The conversions both formatters know. Neither knows widths or flags. */
  predicate IsConversion(c: char)
  {
    c == 'd' || c == 'i' || c == 'u' || c == 'x' || c == 'X' || c == 'p' || c == 's' || c == 'c'
  }

  /** Argument `a` is what conversion `c` reads; C strings have no NUL, and -INT_MIN overflows. */
  predicate Fits(c: char, a: Arg)
  {
    match a
    case Int(i) => c == 'c' || ((c == 'd' || c == 'i') && i > INT_MIN)
    case UInt(_) => c == 'u' || c == 'x' || c == 'X'
    case Ptr(_) => c == 'p'
    case Str(s) => c == 's' && (s.Some? ==> '\0' !in s.value)
  }

  function StringOf(a: Arg): string
    requires a.Str?
  {
    if a.s.Some? then a.s.value else "(null)"
  }

  function CharOf(a: Arg): char
    requires a.Int?
  {
    (a.i % 256) as char
  }

  // ----- vsnprintf -----

  function ZeroDigits(n: nat): (s: string)
    ensures |s| == n && forall i :: 0 <= i < n ==> s[i] == '0'
  {
    if n == 0 then "" else ['0'] + ZeroDigits(n - 1)
  }

  /** Eight digits at least, for pointers. */
  function Padded(n: uint32): string
  {
    var s := Numeral(n, Hex, false);
    if |s| < 8 then ZeroDigits(8 - |s|) + s else s
  }

  /** What vsnprintf prints for one conversion. */
  function Convert(c: char, a: Arg): string
    requires IsConversion(c) && Fits(c, a)
  {
    match c
    case 'd' => Signed(a.i)
    case 'i' => Signed(a.i)
    case 'u' => Numeral(a.u, Dec, true)
    case 'x' => "0x" + Numeral(a.u, Hex, false)
    case 'X' => "0x" + Numeral(a.u, Hex, true)
    case 'p' => if a.p == 0 then "(nil)" else "0x" + Padded(a.p)
    case 's' => StringOf(a)
    case _ => [CharOf(a)]
  }

  /** The conversions that print "0x" first, and print nothing when only one byte is left. */
  predicate HasPrefix(c: char, a: Arg)
    requires IsConversion(c) && Fits(c, a)
  {
    c == 'x' || c == 'X' || (c == 'p' && a.p != 0)
  }

  /** vsnprintf stops at the end of the format, or at a '%' that ends it. */
  predicate Ends(f: string)
  {
    f == "" || f == "%"
  }

  /** The argument that the first step through the format reads, if any, is there and fits. */
  predicate HeadOk(f: string, args: seq<Arg>)
  {
    !Ends(f) && (f[0] == '%' && IsConversion(f[1]) ==> args != [] && Fits(f[1], args[0]))
  }

  /** One step of vsnprintf through its format: what it prints, the rest and its arguments. */
  function Head(f: string, args: seq<Arg>): Piece
    requires HeadOk(f, args)
  {
    if f[0] != '%' then Text([f[0]])
    else if f[1] == '%' then Text("%")
    else if !IsConversion(f[1]) then Text(['%', f[1]])
    else if HasPrefix(f[1], args[0]) then Prefixed(Convert(f[1], args[0]))
    else Text(Convert(f[1], args[0]))
  }

  function Rest(f: string): (r: string)
    requires !Ends(f)
    ensures |r| < |f|
  {
    if f[0] != '%' then f[1..] else f[2..]
  }

  function RestArgs(f: string, args: seq<Arg>): seq<Arg>
    requires HeadOk(f, args)
  {
    if f[0] == '%' && IsConversion(f[1]) then args[1..] else args
  }

  /** The arguments are what all conversions of `f` read, in order. */
  predicate Matches(f: string, args: seq<Arg>)
    decreases |f|
  {
    Ends(f) || (HeadOk(f, args) && Matches(Rest(f), RestArgs(f, args)))
  }

  /** The arguments are what the conversions of `f` read that vsnprintf reaches before `room`
      characters are full. */
  predicate Reads(f: string, args: seq<Arg>, room: nat)
    decreases |f|
  {
    Ends(f) || room == 0 ||
    (HeadOk(f, args) && Reads(Rest(f), RestArgs(f, args), room - |Stored(Head(f, args), room)|))
  }

  /** What vsnprintf stores when `room` characters are left before the terminator. */
  function Bounded(f: string, args: seq<Arg>, room: nat): (r: string)
    requires Reads(f, args, room)
    ensures |r| <= room
    decreases |f|
  {
    if Ends(f) || room == 0 then ""
    else
      var t := Stored(Head(f, args), room);
      t + Bounded(Rest(f), RestArgs(f, args), room - |t|)
  }

  function PiecesOf(f: string, args: seq<Arg>): (ps: seq<Piece>)
    requires Matches(f, args)
    decreases |f|
  {
    if Ends(f) then [] else [Head(f, args)] + PiecesOf(Rest(f), RestArgs(f, args))
  }

  /** The ideal output of a format. */
  function Render(f: string, args: seq<Arg>): string
    requires Matches(f, args)
  {
    Whole(PiecesOf(f, args))
  }

  lemma PiecesStep(f: string, args: seq<Arg>)
    requires !Ends(f) && Matches(f, args)
    ensures PiecesOf(f, args) != [] && PiecesOf(f, args)[0] == Head(f, args)
    ensures PiecesOf(f, args)[1..] == PiecesOf(Rest(f), RestArgs(f, args))
  {
  }

  lemma RenderStep(f: string, args: seq<Arg>)
    requires !Ends(f) && Matches(f, args)
    ensures Render(f, args) == Head(f, args).t + Render(Rest(f), RestArgs(f, args))
  {
    PiecesStep(f, args);
  }

  /** When all arguments match, what is stored is what is cut from the list of all pieces. */
  lemma {:induction false} BoundedIsCut(f: string, args: seq<Arg>, room: nat)
    requires Matches(f, args)
    ensures Reads(f, args, room) && Bounded(f, args, room) == Cut(PiecesOf(f, args), room)
    decreases |f|
  {
    if !Ends(f) && room > 0 {
      PiecesStep(f, args);
      BoundedIsCut(Rest(f), RestArgs(f, args), room - |Stored(Head(f, args), room)|);
    }
  }

  /** Every "0x" piece is at least "0x" and a digit. */
  lemma {:induction false} PrefixesStart(f: string, args: seq<Arg>)
    requires Matches(f, args)
    ensures PiecesOk(PiecesOf(f, args))
    decreases |f|
  {
    if !Ends(f) {
      PrefixesStart(Rest(f), RestArgs(f, args));
    }
  }

  /** vsnprintf stores the longest prefix of the ideal output that fits, exactly when no "0x"
      conversion starts with one character left, or the plain text after it starts with '0' too. */
  lemma LongestPrefix(f: string, args: seq<Arg>, room: nat)
    requires Matches(f, args)
    ensures Reads(f, args, room)
    ensures var starved := Starved(PiecesOf(f, args), room);
            Bounded(f, args, room) == Take(Render(f, args), room) <==>
              starved.None? || FirstPlain(starved.value) == Some('0')
  {
    BoundedIsCut(f, args, room);
    PrefixesStart(f, args);
    CutIsPrefix(PiecesOf(f, args), room);
  }

  /** With room for all of it, nothing is lost. */
  lemma EnoughRoom(f: string, args: seq<Arg>, room: nat)
    requires Matches(f, args) && |Render(f, args)| <= room
    ensures Reads(f, args, room) && Bounded(f, args, room) == Render(f, args)
  {
    BoundedIsCut(f, args, room);
    PrefixesStart(f, args);
    NothingLost(PiecesOf(f, args), room);
  }

  // ----- printf -----

  /** What printf prints for one conversion: always upper-case hexadecimal, never padded. */
  function PrintfConvert(c: char, a: Arg): string
    requires IsConversion(c) && Fits(c, a)
  {
    match c
    case 'd' => Signed(a.i)
    case 'i' => Signed(a.i)
    case 'u' => Numeral(a.u, Dec, true)
    case 'x' => "0x" + Numeral(a.u, Hex, true)
    case 'X' => "0x" + Numeral(a.u, Hex, true)
    case 'p' => if a.p == 0 then "(nil)" else "0x" + Numeral(a.p, Hex, true)
    case 's' => StringOf(a)
    case _ => [CharOf(a)]
  }

  /** The conversion printf does not know makes it print the rest of the format as it is. */
  predicate Gives(f: string)
  {
    f != "" && f[0] == '%' && (|f| == 1 || (f[1] != '%' && !IsConversion(f[1])))
  }

  /** The arguments match as far as printf reads the format. */
  predicate PrintfMatches(f: string, args: seq<Arg>)
    decreases |f|
  {
    if f == "" || Gives(f) then true
    else if f[0] != '%' then PrintfMatches(f[1..], args)
    else if f[1] == '%' then PrintfMatches(f[2..], args)
    else args != [] && Fits(f[1], args[0]) && PrintfMatches(f[2..], args[1..])
  }

  function PrintfRender(f: string, args: seq<Arg>): string
    requires PrintfMatches(f, args)
    decreases |f|
  {
    if f == "" || Gives(f) then f
    else if f[0] != '%' then [f[0]] + PrintfRender(f[1..], args)
    else if f[1] == '%' then "%" + PrintfRender(f[2..], args)
    else PrintfConvert(f[1], args[0]) + PrintfRender(f[2..], args[1..])
  }

  // ----- Where the two agree -----

  /** The hexadecimal numeral of `n` has a letter. */
  predicate HasLetter(n: nat)
  {
    Rem(n, Hex) >= 10 || (Quot(n, Hex) != 0 && HasLetter(Quot(n, Hex)))
  }

  lemma DigitCase(d: nat)
    requires d < 16
    ensures Digit(d, false) == Digit(d, true) <==> d < 10
  {
  }

  lemma {:induction false} CaseMatters(n: nat)
    ensures |Numeral(n, Hex, false)| == |Numeral(n, Hex, true)|
    ensures Numeral(n, Hex, false) == Numeral(n, Hex, true) <==> !HasLetter(n)
  {
    DigitCase(Rem(n, Hex));
    var low, up := Numeral(n, Hex, false), Numeral(n, Hex, true);
    if Quot(n, Hex) != 0 {
      CaseMatters(Quot(n, Hex));
      assert low[..|low| - 1] == Leading(n, Hex, false) && up[..|up| - 1] == Leading(n, Hex, true);
    }
    assert low[|low| - 1] == Digit(Rem(n, Hex), false) && up[|up| - 1] == Digit(Rem(n, Hex), true);
  }

  /** A conversion on which the two formatters agree. */
  predicate Common(c: char, a: Arg)
    requires IsConversion(c) && Fits(c, a)
  {
    match c
    case 'x' => !HasLetter(a.u)
    case 'p' => a.p == 0 || (a.p >= 0x1000_0000 && !HasLetter(a.p))
    case _ => true
  }

  lemma PointerAgrees(p: uint32)
    ensures Padded(p) == Numeral(p, Hex, true) <==> p >= 0x1000_0000 && !HasLetter(p)
  {
    CaseMatters(p);
    WordPowers();
    NumeralLength(p, Hex, false, 7);
    WordLength(p, Hex, false);
  }

  /** The two formatters print a conversion alike exactly when it is Common. */
  lemma ConversionsAgree(c: char, a: Arg)
    requires IsConversion(c) && Fits(c, a)
    ensures Convert(c, a) == PrintfConvert(c, a) <==> Common(c, a)
  {
    if c == 'x' {
      CaseMatters(a.u);
      SamePrefix("0x", Numeral(a.u, Hex, false), Numeral(a.u, Hex, true));
    } else if c == 'p' && a.p != 0 {
      PointerAgrees(a.p);
      SamePrefix("0x", Padded(a.p), Numeral(a.p, Hex, true));
    }
  }

  /** Two texts that differ at some place differ whatever follows them. */
  predicate Clash(s: string, t: string)
  {
    exists i :: 0 <= i < |s| && i < |t| && s[i] != t[i]
  }

  lemma ClashStays(s: string, t: string, s': string, t': string)
    requires Clash(s, t)
    ensures s + s' != t + t'
  {
    var i :| 0 <= i < |s| && i < |t| && s[i] != t[i];
    assert (s + s')[i] != (t + t')[i];
  }

  lemma SameLengthClash(s: string, t: string)
    requires |s| == |t| && s != t
    ensures Clash(s, t) && Clash("0x" + s, "0x" + t)
  {
    var i :| 0 <= i < |s| && s[i] != t[i];
    assert ("0x" + s)[i + 2] != ("0x" + t)[i + 2];
  }

  /** Conversions that the formatters print differently clash: no text after them can hide it. */
  lemma DifferencesShow(c: char, a: Arg)
    requires IsConversion(c) && Fits(c, a) && !Common(c, a)
    ensures Clash(Convert(c, a), PrintfConvert(c, a))
  {
    if c == 'x' {
      CaseMatters(a.u);
      SameLengthClash(Numeral(a.u, Hex, false), Numeral(a.u, Hex, true));
    } else {
      PointerClash(a.p);
    }
  }

  lemma PointerClash(p: uint32)
    requires p != 0 && !(p >= 0x1000_0000 && !HasLetter(p))
    ensures Clash("0x" + Padded(p), "0x" + Numeral(p, Hex, true))
  {
    CaseMatters(p);
    PointerAgrees(p);
    NumeralRoundTrip(p, Hex, true);
    var low, up := Numeral(p, Hex, false), Numeral(p, Hex, true);
    if |low| < 8 {
      FirstClash(ZeroDigits(8 - |low|) + low, up);
    } else {
      SameLengthClash(low, up);
    }
  }

  lemma FirstClash(s: string, t: string)
    requires s != "" && t != "" && s[0] != t[0]
    ensures Clash("0x" + s, "0x" + t)
  {
    assert ("0x" + s)[2] == s[0] && ("0x" + t)[2] == t[0];
  }

  /** printf reads no more arguments than vsnprintf. */
  lemma {:induction false} MatchesBoth(f: string, args: seq<Arg>)
    requires Matches(f, args)
    ensures PrintfMatches(f, args)
    decreases |f|
  {
    if f != "" && !Gives(f) {
      MatchesBoth(Rest(f), RestArgs(f, args));
    }
  }

  /** Text without '%' renders as itself. */
  lemma {:induction false} PlainRender(f: string, args: seq<Arg>)
    requires '%' !in f
    ensures Matches(f, args) && Render(f, args) == f
    decreases |f|
  {
    if f != "" {
      PlainRender(f[1..], args);
      RenderStep(f, args);
    }
  }

  /** Formats of literals, %% and common conversions. After a conversion neither knows, printf prints
      the rest as it is, so vsnprintf must render it as it is; a format must not end in a lone '%'. */
  predicate Portable(f: string, args: seq<Arg>)
    requires Matches(f, args)
    decreases |f|
  {
    if f == "" then true
    else if Gives(f) then |f| > 1 && Render(f[2..], args) == f[2..]
    else if f[0] != '%' || f[1] == '%' then Portable(Rest(f), RestArgs(f, args))
    else Common(f[1], args[0]) && Portable(Rest(f), RestArgs(f, args))
  }

  /** One step of printf next to one step of vsnprintf. */
  lemma PrintfStep(f: string, args: seq<Arg>)
    requires Matches(f, args) && PrintfMatches(f, args) && f != "" && !Gives(f)
    ensures PrintfMatches(Rest(f), RestArgs(f, args))
    ensures var head := if f[0] == '%' && f[1] != '%' then PrintfConvert(f[1], args[0]) else Head(f, args).t;
            PrintfRender(f, args) == head + PrintfRender(Rest(f), RestArgs(f, args))
  {
  }

  /** At a conversion neither knows. */
  lemma GivesStep(f: string, args: seq<Arg>)
    requires Matches(f, args) && Gives(f)
    ensures Render(f, args) == f <==> |f| > 1 && Render(f[2..], args) == f[2..]
  {
    if |f| > 1 {
      RenderStep(f, args);
      assert f == ['%', f[1]] + f[2..];
      SamePrefix(['%', f[1]], Render(f[2..], args), f[2..]);
    }
  }

  /** The two formatters render a format and its arguments alike exactly when they are portable. */
  lemma {:induction false} FormattersAgree(f: string, args: seq<Arg>)
    requires Matches(f, args)
    ensures PrintfMatches(f, args) && (Render(f, args) == PrintfRender(f, args) <==> Portable(f, args))
    decreases |f|
  {
    MatchesBoth(f, args);
    if Gives(f) {
      GivesStep(f, args);
    } else if f != "" {
      RenderStep(f, args);
      PrintfStep(f, args);
      FormattersAgree(Rest(f), RestArgs(f, args));
      var r, q := Render(Rest(f), RestArgs(f, args)), PrintfRender(Rest(f), RestArgs(f, args));
      if f[0] == '%' && f[1] != '%' && !Common(f[1], args[0]) {
        DifferencesShow(f[1], args[0]);
        ClashStays(Convert(f[1], args[0]), PrintfConvert(f[1], args[0]), r, q);
      } else {
        if f[0] == '%' && f[1] != '%' {
          ConversionsAgree(f[1], args[0]);
        }
        SamePrefix(Head(f, args).t, r, q);
      }
    }
  }

  /** A condition read off the format: an unknown conversion does no harm when no '%' follows it. */
  lemma UnknownPortable(f: string, args: seq<Arg>)
    requires Gives(f) && |f| > 1 && '%' !in f[2..]
    ensures Matches(f, args) && Portable(f, args) && Render(f, args) == f
  {
    PlainRender(f[2..], args);
    GivesStep(f, args);
  }

  // ----- Where the two agree, read off the format -----

  /** Every '%' starts a conversion that neither formatter knows. */
  predicate Inert(g: string)
    decreases |g|
  {
    g == "" || (if g[0] == '%' then |g| > 1 && Gives(g) && Inert(g[2..]) else Inert(g[1..]))
  }

  /** No string or character argument puts a '%', or nothing, where its conversion stands. */
  predicate Calm(f: string, args: seq<Arg>)
    requires Matches(f, args)
    decreases |f|
  {
    Ends(f) ||
    (&& (f[0] == '%' && IsConversion(f[1]) ==> CalmArg(f[1], args[0]))
     && Calm(Rest(f), RestArgs(f, args)))
  }

  predicate CalmArg(c: char, a: Arg)
    requires IsConversion(c) && Fits(c, a)
  {
    match c
    case 's' => StringOf(a) != "" && StringOf(a)[0] != '%'
    case 'c' => CharOf(a) != '%'
    case _ => true
  }

  lemma {:induction false} NumeralStart(n: nat, r: Radix, upper: bool)
    ensures Numeral(n, r, upper)[0] != '%'
  {
    if Quot(n, r) != 0 {
      NumeralStart(Quot(n, r), r, upper);
    }
  }

  lemma CalmText(c: char, a: Arg)
    requires IsConversion(c) && Fits(c, a) && CalmArg(c, a)
    ensures Convert(c, a) != "" && Convert(c, a)[0] != '%'
  {
    if a.Int? && c != 'c' {
      NumeralStart(if a.i < 0 then -a.i else a.i, Dec, true);
    } else if c == 'u' {
      NumeralStart(a.u, Dec, true);
    }
  }

  /** How many '%' signs a text starts with. */
  function Percents(s: string): nat
  {
    if s != "" && s[0] == '%' then 1 + Percents(s[1..]) else 0
  }

  lemma PercentsStart(c: char, s: string)
    ensures Percents([c] + s) == if c == '%' then 1 + Percents(s) else 0
  {
    assert ([c] + s)[1..] == s;
  }

  lemma PercentsNone(s: string, t: string)
    requires s != "" && s[0] != '%'
    ensures Percents(s + t) == 0
  {
  }

  lemma PercentsTwo(c: char, s: string)
    ensures Percents(['%', c] + s) == if c == '%' then 2 + Percents(s) else 1
  {
    assert ['%', c] + s == ['%'] + ([c] + s);
    PercentsStart('%', [c] + s);
    PercentsStart(c, s);
  }

  /** Rendering adds no '%' signs at the start of a format, and takes some of "%%" away. */
  lemma {:induction false} PercentsShrink(f: string, args: seq<Arg>)
    requires Matches(f, args) && Calm(f, args)
    ensures Percents(Render(f, args)) <= Percents(f)
    ensures |f| > 1 && f[0] == '%' && f[1] == '%' ==> Percents(Render(f, args)) < Percents(f)
    decreases |f|
  {
    if !Ends(f) {
      RenderStep(f, args);
      var later := Render(Rest(f), RestArgs(f, args));
      if f[0] == '%' && IsConversion(f[1]) {
        CalmText(f[1], args[0]);
        PercentsNone(Convert(f[1], args[0]), later);
      } else if f[0] == '%' {
        assert f == ['%', f[1]] + f[2..];
        PercentsTwo(f[1], f[2..]);
        PercentsShrink(f[2..], args);
        PercentsStart('%', later);
        PercentsTwo(f[1], later);
      } else {
        PercentsNone([f[0]], later);
      }
    }
  }

  /** With calm arguments only an inert format renders as itself. */
  lemma {:induction false} RendersAsItself(f: string, args: seq<Arg>)
    requires Matches(f, args) && Calm(f, args)
    ensures Render(f, args) == f <==> Inert(f)
    decreases |f|
  {
    if !Ends(f) {
      RenderStep(f, args);
      var later := Render(Rest(f), RestArgs(f, args));
      if f[0] == '%' && f[1] == '%' {
        PercentsShrink(f, args);
      } else if f[0] == '%' && IsConversion(f[1]) {
        CalmText(f[1], args[0]);
      } else {
        var head := Head(f, args).t;
        assert f == head + Rest(f);
        RendersAsItself(Rest(f), RestArgs(f, args));
        SamePrefix(head, later, Rest(f));
      }
    }
  }

  /** An inert format reads no argument and renders as itself, whatever the arguments. */
  lemma {:induction false} InertRender(f: string, args: seq<Arg>)
    requires Inert(f)
    ensures Matches(f, args) && Calm(f, args) && Render(f, args) == f
    decreases |f|
  {
    if f != "" {
      InertRender(Rest(f), args);
      RendersAsItself(f, args);
    }
  }

  /** Portable, with the text after an unknown conversion judged by the format alone. */
  predicate Settled(f: string, args: seq<Arg>)
    requires Matches(f, args)
    decreases |f|
  {
    if f == "" then true
    else if Gives(f) then Inert(f)
    else (f[0] == '%' && f[1] != '%' ==> Common(f[1], args[0])) && Settled(Rest(f), RestArgs(f, args))
  }

  lemma {:induction false} SettledPortable(f: string, args: seq<Arg>)
    requires Matches(f, args)
    ensures Settled(f, args) ==> Portable(f, args)
    ensures Calm(f, args) ==> (Settled(f, args) <==> Portable(f, args))
    decreases |f|
  {
    if Gives(f) {
      GivesStep(f, args);
      if Calm(f, args) {
        RendersAsItself(f, args);
      }
      if Inert(f) {
        InertRender(f, args);
      }
    } else if f != "" {
      SettledPortable(Rest(f), RestArgs(f, args));
    }
  }

  /** For arguments whose strings and characters do not start with '%', the two formatters agree exactly
      when every conversion before the first unknown one is common and from there on every '%' starts an
      unknown one. */
  lemma CalmAgree(f: string, args: seq<Arg>)
    requires Matches(f, args)
    ensures PrintfMatches(f, args)
    ensures Settled(f, args) ==> Render(f, args) == PrintfRender(f, args)
    ensures Calm(f, args) ==> (Render(f, args) == PrintfRender(f, args) <==> Settled(f, args))
  {
    FormattersAgree(f, args);
    SettledPortable(f, args);
  }

  /** A format on which the two agree whatever the arguments: no %x and no %p before the first unknown
      conversion, and no '%' after it but those of unknown conversions. */
  predicate Alike(f: string)
    decreases |f|
  {
    if f == "" then true
    else if Gives(f) then Inert(f)
    else (f[0] == '%' && f[1] != '%' ==> f[1] != 'x' && f[1] != 'p') && Alike(Rest(f))
  }

  /** For each conversion, an argument that shows what it does. */
  function SampleArg(c: char): (a: Arg)
    requires IsConversion(c)
    ensures Fits(c, a) && CalmArg(c, a) && (Common(c, a) <==> c != 'x' && c != 'p')
  {
    match c
    case 'u' => UInt(0)
    case 'x' => UInt(10)
    case 'X' => UInt(10)
    case 'p' => Ptr(1)
    case 's' => Str(Some("a"))
    case _ => Int(97)
  }

  function Sample(f: string): (args: seq<Arg>)
    ensures Matches(f, args) && Calm(f, args)
    decreases |f|
  {
    if Ends(f) then []
    else if f[0] == '%' && IsConversion(f[1]) then [SampleArg(f[1])] + Sample(f[2..])
    else Sample(Rest(f))
  }

  lemma SampleStep(f: string)
    requires !Ends(f)
    ensures RestArgs(f, Sample(f)) == Sample(Rest(f))
    ensures f[0] == '%' && IsConversion(f[1]) ==> Sample(f)[0] == SampleArg(f[1])
  {
  }

  /** The samples tell: they are settled only for a format that always is. */
  lemma {:induction false} SampleTells(f: string)
    ensures Settled(f, Sample(f)) <==> Alike(f)
    decreases |f|
  {
    if f != "" && !Gives(f) {
      SampleStep(f);
      SampleTells(Rest(f));
    }
  }

  lemma {:induction false} AlikeSettled(f: string, args: seq<Arg>)
    requires Matches(f, args) && Alike(f)
    ensures Settled(f, args)
    decreases |f|
  {
    if f != "" && !Gives(f) {
      AlikeSettled(Rest(f), RestArgs(f, args));
    }
  }

  /** The two formatters print a format alike for all its arguments exactly when it is Alike: a
      condition on the format literal, which no argument enters. */
  lemma AlikeExact(f: string)
    ensures Alike(f) <==>
            forall args :: Matches(f, args) ==> PrintfMatches(f, args) && Render(f, args) == PrintfRender(f, args)
  {
    forall args | Matches(f, args)
      ensures PrintfMatches(f, args) && (Alike(f) ==> Render(f, args) == PrintfRender(f, args))
    {
      CalmAgree(f, args);
      if Alike(f) {
        AlikeSettled(f, args);
      }
    }
    CalmAgree(f, Sample(f));
    SampleTells(f);
  }
}
