/** printf of libc/stdio/printf.c as code: it prints chunk by chunk through print, and so to the
    screen and to COM1. */
module Printing {
  import opened Bits
  import opened Numerals
  import opened Pieces
  import opened Formats
  import opened Formatters
  import opened ByteMemory
  import opened Document
  import opened Terminal
  import opened Placement
  import opened Wrappers

  // ----- From text to screen and COM1 -----

  /** The characters of a text as the bytes that print hands to putchar. */
  function BytesOf(text: string): (s: seq<byte>)
    ensures |s| == |text|
  {
    seq(|text|, i requires 0 <= i < |text| => text[i] as int % 256)
  }

  lemma BytesJoin(a: string, b: string)
    ensures BytesOf(a + b) == BytesOf(a) + BytesOf(b)
  {
  }

  /** Printing `text` turns screen `s0` into `s`, and `sent0` on COM1 into `sent`. */
  predicate Shown(r: Routing, s0: Screen, sent0: seq<byte>, s: Screen, sent: seq<byte>, text: string)
  {
    ScreenOk(s0) && s == PutAll(s0, BytesOf(text)) && sent == sent0 + Stream(r, BytesOf(text))
  }

  lemma ShownNothing(r: Routing, s: Screen, sent: seq<byte>)
    requires ScreenOk(s)
    ensures Shown(r, s, sent, s, sent, "")
  {
    assert sent + [] == sent;
  }

  lemma ShownMore(r: Routing, s0: Screen, sent0: seq<byte>, s1: Screen, sent1: seq<byte>, s2: Screen, sent2: seq<byte>,
                  a: string, b: string)
    requires Shown(r, s0, sent0, s1, sent1, a) && Shown(r, s1, sent1, s2, sent2, b)
    ensures Shown(r, s0, sent0, s2, sent2, a + b)
  {
    BytesJoin(a, b);
    ChunksCompose(r, s0, BytesOf(a), BytesOf(b));
  }

  /** What reaches COM1 of a text. */
  function Delivered(r: Routing, text: seq<byte>): seq<byte>
  {
    if Doubled(r) then Twice(text) else if Wanted(r) then Crlf(text) else []
  }

  /** A text that is printed extends the document whose window the screen is, and is delivered to COM1
      once, twice or not at all, as the flags say. */
  lemma ShownDocument(r: Routing, d: Doc, sent0: seq<byte>, s: Screen, sent: seq<byte>, text: string)
    requires DocOk(d) && Shown(r, Window(d), sent0, s, sent, text)
    ensures s == Window(DriveDoc(d, Chars(BytesOf(text))))
    ensures sent == sent0 + Delivered(r, BytesOf(text))
  {
    WriteRefines(d, BytesOf(text));
    if Doubled(r) {
      StreamTwice(r, BytesOf(text));
    } else {
      StreamOnce(r, BytesOf(text));
    }
  }

  /** `codes` are the codes of the characters of `text`. */
  predicate Codes(text: string, codes: seq<byte>)
  {
    |codes| == |text| && forall i :: 0 <= i < |text| ==> text[i] as int == codes[i] as int
  }

  lemma CodesBytes(text: string, codes: seq<byte>)
    requires Codes(text, codes)
    ensures BytesOf(text) == codes
  {
  }

  /** Characters from space to '~'. */
  predicate Plain(text: string)
  {
    forall i :: 0 <= i < |text| ==> 32 <= text[i] as int <= 126
  }

  /** The cell at `at` after `text` has been typed on `d`: code in the low byte and colour in the high byte
      if it is one of the cells from the cursor on, and otherwise as it was. */
  predicate TypedAt(d: Doc, d': Doc, text: string, at: nat)
    requires DocOk(d) && DocOk(d')
  {
    var p := 80 * d.row + d.col;
    if p <= at < p + |text| then CellOf(d', at) % 256 == text[at - p] as int && CellOf(d', at) / 256 == d.color as int
    else CellOf(d', at) == CellOf(d, at)
  }

  /** `text` stands in consecutive cells from the cursor of `d` on, and nothing else has changed. */
  ghost predicate Typed(d: Doc, d': Doc, text: string)
  {
    && DocOk(d) && DocOk(d') && d'.color == d.color && 80 * d'.row + d'.col == 80 * d.row + d.col + |text|
    && forall at: nat :: TypedAt(d, d', text, at)
  }

  lemma {:induction false} PlainPosition(p: nat, codes: seq<byte>, at: nat)
    requires forall i :: 0 <= i < |codes| ==> 32 <= codes[i]
    ensures Position(p, codes) == p + |codes|
    ensures Drawn(p, codes, at) == if p <= at < p + |codes| then Some(codes[at - p]) else None
    decreases |codes|
  {
    if codes != [] {
      PlainPosition(p, codes[..|codes| - 1], at);
    }
  }

  lemma PlainTypedAt(d: Doc, text: string, codes: seq<byte>, at: nat)
    requires DocOk(d) && Plain(text) && Codes(text, codes)
    ensures var d' := DriveDoc(d, Chars(codes));
            && TypedAt(d, d', text, at) && d'.color == d.color
            && 80 * d'.row + d'.col == 80 * d.row + d.col + |text|
  {
    TextPlaced(d, codes, at);
    PlainPosition(80 * d.row + d.col, codes, at);
    PlacedTyped(d, DriveDoc(d, Chars(codes)), text, codes, at);
  }

  lemma PlacedTyped(d: Doc, d': Doc, text: string, codes: seq<byte>, at: nat)
    requires Placed(d, d', codes, at) && Codes(text, codes)
    requires var p := 80 * d.row + d.col;
             Drawn(p, codes, at) == if p <= at < p + |codes| then Some(codes[at - p]) else None
    ensures TypedAt(d, d', text, at)
  {
  }

  /** Plain text is typed. */
  lemma PlainTyped(d: Doc, text: string, codes: seq<byte>)
    requires DocOk(d) && Plain(text) && Codes(text, codes)
    ensures Typed(d, DriveDoc(d, Chars(codes)), text)
  {
    forall at: nat {
      PlainTypedAt(d, text, codes, at);
    }
    PlainTypedAt(d, text, codes, 0);
  }

  /** Plain text goes to COM1 as it is, when one part copies. */
  lemma {:induction false} PlainStream(r: Routing, codes: seq<byte>)
    requires (r.terminal || r.printf != r.putchar) && forall i :: 0 <= i < |codes| ==> 32 <= codes[i]
    ensures Stream(r, codes) == codes
  {
    StreamPairs(r, codes);
    if codes != [] {
      PlainStream(r, codes[1..]);
      SerialOfCounts(r, codes[0]);
    }
  }

  // ----- printf -----

  /** `out` is what one branch of printf prints of `text` after `written` characters: all of it, or a
      part when all of it would exceed INT_MAX. */
  predicate Part(written: nat, text: string, ok: bool, out: string)
  {
    && ok == (written + |text| <= INT_MAX)
    && if ok then out == text else written + |out| <= INT_MAX && out <= text
  }

  /** The length check and print call that every branch of printf makes. */
  method Emit(console: Console, written: nat, text: string) returns (ok: bool, now: nat, ghost out: string)
    requires console.Valid() && written <= INT_MAX
    modifies console`row, console`col, console`com1, console.buffer
    ensures console.Valid() && now == written + |out| && Part(written, text, ok, out)
    ensures Shown(console.routing, old(console.View()), old(console.com1), console.View(), console.com1, out)
  {
    var maxrem := INT_MAX - written;
    if maxrem < |text| {
      ShownNothing(console.routing, console.View(), console.com1);
      return false, written, "";
    }
    ok := console.Print(BytesOf(text));
    now, out := written + |text|, text;
  }

  /** "0x" and the digits of utoa, each with its own check. */
  method EmitHex(console: Console, written: nat, num: uint32) returns (ok: bool, now: nat, ghost out: string)
    requires console.Valid() && written <= INT_MAX
    modifies console`row, console`col, console`com1, console.buffer
    ensures console.Valid() && now == written + |out| && Part(written, "0x" + Numeral(num, Hex, true), ok, out)
    ensures Shown(console.routing, old(console.View()), old(console.com1), console.View(), console.com1, out)
  {
    ghost var s0, sent0 := console.View(), console.com1;
    ok, now, out := Emit(console, written, "0x");
    if ok {
      ghost var s1, sent1, digits := console.View(), console.com1, "";
      var buffer := new char[32];
      var len := Utoa(buffer, num, Hex);
      ok, now, digits := Emit(console, now, buffer[..len]);
      ShownMore(console.routing, s0, sent0, s1, sent1, console.View(), console.com1, "0x", digits);
      out := "0x" + digits;
    }
  }

  /** The conversions of printf. */
  method EmitConversion(console: Console, written: nat, c: char, a: Arg) returns (ok: bool, now: nat, ghost out: string)
    requires console.Valid() && written <= INT_MAX && IsConversion(c) && Fits(c, a)
    modifies console`row, console`col, console`com1, console.buffer
    ensures console.Valid() && now == written + |out| && Part(written, PrintfConvert(c, a), ok, out)
    ensures Shown(console.routing, old(console.View()), old(console.com1), console.View(), console.com1, out)
  {
    match c
    case 'c' => ok, now, out := Emit(console, written, [CharOf(a)]);
    case 's' => ok, now, out := Emit(console, written, StringOf(a));
    case 'u' =>
      var buffer := new char[32];
      var len := Utoa(buffer, a.u, Dec);
      ok, now, out := Emit(console, written, buffer[..len]);
    case 'x' => ok, now, out := EmitHex(console, written, a.u);
    case 'X' => ok, now, out := EmitHex(console, written, a.u);
    case 'p' =>
      if a.p == 0 {
        ok, now, out := Emit(console, written, "(nil)");
      } else {
        ok, now, out := EmitHex(console, written, a.p);
      }
    case _ =>
      var buffer := new char[32];
      var len := Itoa(buffer, a.i);
      ok, now, out := Emit(console, written, buffer[..len]);
  }

  /** Characters other than '%' render as themselves, however they are chunked. */
  lemma {:induction false} LiteralRun(run: string, tail: string, args: seq<Arg>)
    requires '%' !in run && PrintfMatches(run + tail, args)
    ensures PrintfMatches(tail, args) && PrintfRender(run + tail, args) == run + PrintfRender(tail, args)
    decreases |run|
  {
    if run == "" {
      assert run + tail == tail;
    } else {
      assert (run + tail)[1..] == run[1..] + tail;
      LiteralRun(run[1..], tail, args);
      Regroup([run[0]], run[1..], PrintfRender(tail, args));
      assert [run[0]] + run[1..] == run;
    }
  }

  /** The scan for the end of a literal chunk: one character, then all up to the next '%'. */
  method ScanLiteral(f: string) returns (amount: nat)
    requires f != ""
    ensures 1 <= amount <= |f| && '%' !in f[1..amount]
  {
    amount := 1;
    while amount < |f| && f[amount] != '%'
      invariant 1 <= amount <= |f| && '%' !in f[1..amount]
    {
      assert f[1..amount + 1] == f[1..amount] + [f[amount]];
      amount := amount + 1;
    }
  }

  /** The first character of a literal chunk, which may be the second of "%%". */
  lemma FirstLiteral(f: string, args: seq<Arg>, g: string)
    requires PrintfMatches(f, args) && f != "" && !Gives(f) && (f[0] != '%' || f[1] == '%')
    requires g == if f[0] == '%' then f[1..] else f
    ensures PrintfMatches(g[1..], args) && PrintfRender(f, args) == [g[0]] + PrintfRender(g[1..], args)
  {
  }

  /** The text of one round of printf and the format and arguments it leaves. */
  lemma ChunkRender(f: string, args: seq<Arg>, g: string, amount: nat)
    requires PrintfMatches(f, args) && f != "" && !Gives(f) && (f[0] != '%' || f[1] == '%')
    requires g == (if f[0] == '%' then f[1..] else f) && 1 <= amount <= |g| && '%' !in g[1..amount]
    ensures PrintfMatches(g[amount..], args) && PrintfRender(f, args) == g[..amount] + PrintfRender(g[amount..], args)
  {
    FirstLiteral(f, args, g);
    SplitChunk(g, amount);
    LiteralRun(g[1..amount], g[amount..], args);
    Regroup([g[0]], g[1..amount], PrintfRender(g[amount..], args));
  }

  lemma SplitChunk(g: string, amount: nat)
    requires 1 <= amount <= |g|
    ensures g[1..] == g[1..amount] + g[amount..] && [g[0]] + g[1..amount] == g[..amount]
  {
  }

  /** `out` is what printf leaves of `goal`: all of it, or a proper part and the result -1. */
  predicate PrintfResult(goal: string, written: int, out: string)
  {
    if |goal| <= INT_MAX then written == |goal| && out == goal
    else written == -1 && |out| <= INT_MAX && out <= goal
  }

  /** After `text`, printf goes on with `f'` and `args'`. */
  ghost predicate GoesOn(f: string, args: seq<Arg>, text: string, f': string, args': seq<Arg>)
    requires PrintfMatches(f, args)
  {
    |f'| < |f| && PrintfMatches(f', args') && PrintfRender(f, args) == text + PrintfRender(f', args')
  }

  /** One round of printf. */
  method PrintRound(console: Console, written: nat, f: string, args: seq<Arg>)
    returns (ok: bool, now: nat, f': string, args': seq<Arg>, ghost text: string, ghost out: string)
    requires console.Valid() && written <= INT_MAX && f != "" && PrintfMatches(f, args)
    modifies console`row, console`col, console`com1, console.buffer
    ensures console.Valid() && now == written + |out| && Part(written, text, ok, out) && GoesOn(f, args, text, f', args')
    ensures Shown(console.routing, old(console.View()), old(console.com1), console.View(), console.com1, out)
  {
    if f[0] != '%' || (|f| > 1 && f[1] == '%') {
      var g := if f[0] == '%' then f[1..] else f;
      var amount := ScanLiteral(g);
      ChunkRender(f, args, g, amount);
      text, f', args' := g[..amount], g[amount..], args;
      ok, now, out := Emit(console, written, g[..amount]);
    } else if |f| > 1 && IsConversion(f[1]) {
      text, f', args' := PrintfConvert(f[1], args[0]), f[2..], args[1..];
      ok, now, out := EmitConversion(console, written, f[1], args[0]);
    } else {
      text, f', args' := f, "", args;
      assert f + "" == f;
      ok, now, out := Emit(console, written, f);
    }
  }

  /** A round that fails leaves a proper part of the whole text. */
  lemma FailedRound(done: string, text: string, out: string, later: string)
    requires |done| <= INT_MAX && Part(|done|, text, false, out)
    ensures PrintfResult(done + (text + later), -1, done + out)
  {
    Regroup(done, text, later);
    assert done + out <= done + text <= done + text + later;
  }

  /** A format without '%' is printed as it is. */
  lemma PlainFormat(format: string, args: seq<Arg>, written: int, out: string)
    requires '%' !in format && PrintfMatches(format, args)
    requires PrintfResult(PrintfRender(format, args), written, out)
    ensures if |format| <= 0x7FFF_FFFF then out == format && written == |format| else out <= format && written == -1
  {
    assert format + "" == format;
    LiteralRun(format, "", args);
  }

  /** What printing `text` on the window of `d` comes to, by the codes of its characters. */
  ghost predicate ShownCodes(r: Routing, d: Doc, sent0: seq<byte>, s: Screen, sent: seq<byte>, codes: seq<byte>)
  {
    DocOk(d) && s == Window(DriveDoc(d, Chars(codes))) && sent == sent0 + Delivered(r, codes)
  }

  lemma ShownByCodes(r: Routing, d: Doc, sent0: seq<byte>, s: Screen, sent: seq<byte>, text: string, codes: seq<byte>)
    requires DocOk(d) && Shown(r, Window(d), sent0, s, sent, text) && Codes(text, codes)
    ensures ShownCodes(r, d, sent0, s, sent, codes)
  {
    CodesBytes(text, codes);
    ShownDocument(r, d, sent0, s, sent, text);
  }

  /** The screen shows a document on which `text` has been typed after `d`. */
  ghost predicate TypedOn(d: Doc, s: Screen, text: string)
  {
    exists d': Doc :: Typed(d, d', text) && s == Window(d')
  }

  lemma ShownTyped(r: Routing, d: Doc, sent0: seq<byte>, s: Screen, sent: seq<byte>, text: string)
    requires DocOk(d) && Shown(r, Window(d), sent0, s, sent, text) && Plain(text)
    ensures TypedOn(d, s, text)
  {
    ShownDocument(r, d, sent0, s, sent, text);
    PlainTyped(d, text, BytesOf(text));
  }

  /** Plain text reaches COM1 as its codes when one part copies. */
  lemma ShownSent(r: Routing, s0: Screen, sent0: seq<byte>, s: Screen, sent: seq<byte>, text: string)
    requires Shown(r, s0, sent0, s, sent, text) && Plain(text) && (r.terminal || r.printf != r.putchar)
    ensures sent0 <= sent && Codes(text, sent[|sent0|..])
  {
    PlainBytes(text);
    PlainStream(r, BytesOf(text));
    AppendedCodes(sent0, BytesOf(text), text);
  }

  lemma PlainBytes(text: string)
    requires Plain(text)
    ensures Codes(text, BytesOf(text)) && forall i :: 0 <= i < |text| ==> 32 <= BytesOf(text)[i]
  {
  }

  lemma AppendedCodes(sent0: seq<byte>, codes: seq<byte>, text: string)
    requires Codes(text, codes)
    ensures sent0 <= sent0 + codes && Codes(text, (sent0 + codes)[|sent0|..])
  {
    assert (sent0 + codes)[|sent0|..] == codes;
  }

  /** printf: prints its rendering chunk by chunk and returns its length, or stops with -1 before the
      length would exceed INT_MAX. All that it prints extends the document behind the screen and is
      delivered to COM1; plain text ends up in consecutive cells, and its codes on COM1. */
  method Printf(console: Console, format: string, args: seq<Arg>) returns (written: int, ghost out: string)
    requires console.Valid() && PrintfMatches(format, args) && '\0' !in format
    modifies console`row, console`col, console`com1, console.buffer
    ensures console.Valid() && PrintfResult(PrintfRender(format, args), written, out)
    ensures '%' !in format && |format| <= 0x7FFF_FFFF ==> out == format && written == |format|
    ensures '%' !in format && |format| > 0x7FFF_FFFF ==> out <= format && written == -1
    ensures Shown(console.routing, old(console.View()), old(console.com1), console.View(), console.com1, out)
    ensures forall d: Doc, codes :: DocOk(d) && old(console.View()) == Window(d) && Codes(out, codes) ==>
              ShownCodes(console.routing, d, old(console.com1), console.View(), console.com1, codes)
    ensures Plain(out) ==> forall d: Doc :: DocOk(d) && old(console.View()) == Window(d) ==> TypedOn(d, console.View(), out)
    ensures Plain(out) && (console.routing.terminal || console.routing.printf != console.routing.putchar) ==>
              old(console.com1) <= console.com1 && Codes(out, console.com1[|old(console.com1)|..])
  {
    written, out := PrintAll(console, format, args);
    ghost var r, sent0, s, sent := console.routing, old(console.com1), console.View(), console.com1;
    if '%' !in format {
      PlainFormat(format, args, written, out);
    }
    forall d: Doc, codes | DocOk(d) && old(console.View()) == Window(d) && Codes(out, codes)
      ensures ShownCodes(r, d, sent0, s, sent, codes)
    {
      ShownByCodes(r, d, sent0, s, sent, out, codes);
    }
    if Plain(out) {
      forall d: Doc | DocOk(d) && old(console.View()) == Window(d)
        ensures TypedOn(d, s, out)
      {
        ShownTyped(r, d, sent0, s, sent, out);
      }
      if r.terminal || r.printf != r.putchar {
        ShownSent(r, old(console.View()), sent0, s, sent, out);
      }
    }
  }

  /** The loop of printf. */
  method PrintAll(console: Console, format: string, args: seq<Arg>) returns (written: int, ghost out: string)
    requires console.Valid() && PrintfMatches(format, args)
    modifies console`row, console`col, console`com1, console.buffer
    ensures console.Valid() && PrintfResult(PrintfRender(format, args), written, out)
    ensures Shown(console.routing, old(console.View()), old(console.com1), console.View(), console.com1, out)
  {
    ghost var goal, s0, sent0 := PrintfRender(format, args), console.View(), console.com1;
    var f, rest := format, args;
    written, out := 0, "";
    ShownNothing(console.routing, s0, sent0);
    assert out + goal == goal;
    while f != ""
      invariant console.Valid() && 0 <= written == |out| <= INT_MAX
      invariant PrintfMatches(f, rest) && out + PrintfRender(f, rest) == goal
      invariant Shown(console.routing, s0, sent0, console.View(), console.com1, out)
      decreases |f|
    {
      ghost var s1, sent1, done := console.View(), console.com1, out;
      ghost var text, part;
      var ok;
      ok, written, f, rest, text, part := PrintRound(console, written, f, rest);
      ShownMore(console.routing, s0, sent0, s1, sent1, console.View(), console.com1, done, part);
      out := done + part;
      if !ok {
        FailedRound(done, text, part, PrintfRender(f, rest));
        return -1, out;
      }
      Regroup(done, text, PrintfRender(f, rest));
    }
  }

  /** For portable formats whose text fits, both formatters have the same text to put out ... */
  lemma OneRendering(format: string, args: seq<Arg>, size: nat)
    requires Matches(format, args) && Portable(format, args) && |Render(format, args)| < size
    ensures PrintfMatches(format, args) && Reads(format, args, size - 1)
    ensures PrintfRender(format, args) == Bounded(format, args, size - 1) == Render(format, args)
  {
    FormattersAgree(format, args);
    EnoughRoom(format, args, size - 1);
  }

  /** ... so printf, if the text is not beyond INT_MAX, puts out what vsnprintf stores and returns the
      same count. */
  lemma SameOutput(format: string, args: seq<Arg>, size: nat, written: int, out: string)
    requires Matches(format, args) && Portable(format, args)
    requires |Render(format, args)| < size && |Render(format, args)| <= INT_MAX
    requires PrintfMatches(format, args) && PrintfResult(PrintfRender(format, args), written, out)
    ensures Reads(format, args, size - 1)
    ensures out == Bounded(format, args, size - 1) && written == |Bounded(format, args, size - 1)|
  {
    OneRendering(format, args, size);
  }

  /** For a format that is alike this needs no look at the arguments. */
  lemma AlikeOutput(format: string, args: seq<Arg>, size: nat, written: int, out: string)
    requires Alike(format) && Matches(format, args)
    requires |Render(format, args)| < size && |Render(format, args)| <= INT_MAX
    requires PrintfMatches(format, args) && PrintfResult(PrintfRender(format, args), written, out)
    ensures Reads(format, args, size - 1)
    ensures out == Bounded(format, args, size - 1) && written == |Bounded(format, args, size - 1)|
  {
    AlikeSettled(format, args);
    SettledPortable(format, args);
    SameOutput(format, args, size, written, out);
  }

  // ----- The memory map line of validate_boot -----

  const REGION_HEAD := "  Region: base="
  const REGION_TAIL := "%08x, length=%x%08x, type=%d\n"

  /** Literal text, one %x, and from an unknown conversion on the format itself. */
  lemma HexThenRaw(head: string, tail: string, args: seq<Arg>)
    requires '%' !in head && Gives(tail) && PrintfMatches(head + ("%x" + tail), args)
    ensures args != [] && args[0].UInt?
    ensures PrintfRender(head + ("%x" + tail), args) == head + ("0x" + Numeral(args[0].u, Hex, true) + tail)
  {
    LiteralRun(head, "%x" + tail, args);
    assert ("%x" + tail)[2..] == tail;
  }

  /** The line that validate_boot prints for a memory map entry shows the upper half of its base and
      then format text: %08x is unknown, so the low half, the length and the type are never printed. */
  lemma RegionLine(args: seq<Arg>)
    requires PrintfMatches(REGION_HEAD + ("%x" + REGION_TAIL), args)
    ensures args != [] && args[0].UInt?
    ensures PrintfRender(REGION_HEAD + ("%x" + REGION_TAIL), args)
            == REGION_HEAD + ("0x" + Numeral(args[0].u, Hex, true) + REGION_TAIL)
  {
    HexThenRaw(REGION_HEAD, REGION_TAIL, args);
  }

  /** Two memory map entries get the same line exactly when their bases have the same upper half. */
  lemma RegionTells(a: seq<Arg>, b: seq<Arg>)
    requires PrintfMatches(REGION_HEAD + ("%x" + REGION_TAIL), a) && PrintfMatches(REGION_HEAD + ("%x" + REGION_TAIL), b)
    ensures a != [] && b != [] && (PrintfRender(REGION_HEAD + ("%x" + REGION_TAIL), a) == PrintfRender(REGION_HEAD + ("%x" + REGION_TAIL), b) <==> a[0] == b[0])
  {
    RegionLine(a);
    RegionLine(b);
    var x, y := Numeral(a[0].u, Hex, true), Numeral(b[0].u, Hex, true);
    SamePrefix(REGION_HEAD, "0x" + x + REGION_TAIL, "0x" + y + REGION_TAIL);
    SameSuffix("0x" + x, "0x" + y, REGION_TAIL);
    SamePrefix("0x", x, y);
    NumeralRoundTrip(a[0].u, Hex, true);
    NumeralRoundTrip(b[0].u, Hex, true);
  }

  lemma SameSuffix(a: string, b: string, c: string)
    ensures a + c == b + c <==> a == b
  {
    if a + c == b + c {
      assert |a| == |b| && (a + c)[..|a|] == a && (b + c)[..|b|] == b;
    }
  }
}
