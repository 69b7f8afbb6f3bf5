/** The log lines and the hex dump of kernel/kernel/debug.c, inside their fixed buffers. */
module DebugLog {
  import opened Bits
  import opened ByteMemory
  import opened Wrappers
  import opened Numerals
  import opened Pieces
  import opened Formats
  import opened Formatters

  const BUFFER_SIZE := 1024

  /** The C string at the start of a buffer: everything before the first NUL. */
  function CString(s: seq<char>): string
  {
    if s == [] || s[0] == '\0' then "" else [s[0]] + CString(s[1..])
  }

  lemma {:induction false} CStringOf(t: string, rest: seq<char>)
    requires '\0' !in t
    ensures CString(t + ['\0'] + rest) == t
  {
    if t == "" {
      assert (t + ['\0'] + rest)[0] == '\0';
    } else {
      assert (t + ['\0'] + rest)[1..] == t[1..] + ['\0'] + rest;
      CStringOf(t[1..], rest);
    }
  }

  function LevelPrefix(level: int): (p: string)
    ensures |p| <= 8 && '\0' !in p
  {
    match level
    case 1 => "[ERROR] "
    case 2 => "[WARN]  "
    case 3 => "[INFO]  "
    case 4 => "[DEBUG] "
    case 5 => "[TRACE] "
    case _ => ""
  }

  // ----- NUL characters -----

  lemma {:induction false} NumeralNoNul(n: nat, r: Radix, upper: bool)
    ensures '\0' !in Numeral(n, r, upper)
  {
    if Quot(n, r) != 0 {
      NumeralNoNul(Quot(n, r), r, upper);
    }
  }

  /** A conversion prints NUL only for %c of a multiple of 256. */
  lemma ConvertNoNul(c: char, a: Arg)
    requires IsConversion(c) && Fits(c, a)
    ensures '\0' in Convert(c, a) <==> c == 'c' && a.i % 256 == 0
  {
    match a
    case Int(i) => SignedNoNul(i);
    case UInt(u) =>
      NumeralNoNul(u, Dec, true);
      NumeralNoNul(u, Hex, c == 'X');
    case Ptr(p) => NumeralNoNul(p, Hex, false);
    case Str(_) =>
  }

  lemma SignedNoNul(i: int)
    ensures '\0' !in Signed(i)
  {
    NumeralNoNul(if i < 0 then -i else i, Dec, true);
  }

  /** A step of vsnprintf prints NUL. */
  predicate NulHead(f: string, args: seq<Arg>)
    requires HeadOk(f, args)
  {
    f[0] == '%' && f[1] == 'c' && args[0].i % 256 == 0
  }

  /** A %c of a multiple of 256 is reached with at least one character of room. */
  predicate NulReached(f: string, args: seq<Arg>, room: nat)
    requires Reads(f, args, room)
    decreases |f|
  {
    && !Ends(f) && room > 0
    && (NulHead(f, args) || NulReached(Rest(f), RestArgs(f, args), room - |Stored(Head(f, args), room)|))
  }

  lemma HeadNul(f: string, args: seq<Arg>, room: nat)
    requires HeadOk(f, args) && '\0' !in f && room > 0
    ensures '\0' in Stored(Head(f, args), room) <==> NulHead(f, args)
  {
    if f[0] == '%' && IsConversion(f[1]) {
      ConvertNoNul(f[1], args[0]);
    }
    assert '\0' in Head(f, args).t <==> NulHead(f, args);
  }

  /** A NUL is stored exactly when such a %c is reached. */
  lemma {:induction false} NulStored(f: string, args: seq<Arg>, room: nat)
    requires Reads(f, args, room) && '\0' !in f
    ensures '\0' in Bounded(f, args, room) <==> NulReached(f, args, room)
    decreases |f|
  {
    if !Ends(f) && room > 0 {
      HeadNul(f, args, room);
      assert forall c :: c in Rest(f) ==> c in f;
      NulStored(Rest(f), RestArgs(f, args), room - |Stored(Head(f, args), room)|);
    }
  }

  /** The room vsnprintf gets for the message of a log line. */
  function LineRoom(level: int): nat
  {
    BUFFER_SIZE - |LevelPrefix(level)| - 3
  }

  /** The bytes of a log line: level prefix, message, CR LF NUL. */
  function Line(level: int, format: string, args: seq<Arg>): (s: seq<char>)
    requires Reads(format, args, LineRoom(level))
    ensures |s| <= BUFFER_SIZE
  {
    LevelPrefix(level) + Bounded(format, args, LineRoom(level)) + "\r\n\0"
  }

  lemma LineEnd(t: string)
    ensures t + "\r\n\0" == t + "\r\n" + ['\0']
  {
  }

  /** A line reaches its reader whole, with its CR LF, exactly when no %c of a multiple of 256 is
      reached before the line is full. */
  lemma LineWhole(level: int, format: string, args: seq<Arg>, rest: seq<char>)
    requires '\0' !in format && Reads(format, args, LineRoom(level))
    ensures CString(Line(level, format, args) + rest)
            == LevelPrefix(level) + Bounded(format, args, LineRoom(level)) + "\r\n"
            <==> !NulReached(format, args, LineRoom(level))
  {
    NulStored(format, args, LineRoom(level));
    WholeText(LevelPrefix(level), Bounded(format, args, LineRoom(level)), rest);
  }

  /** The five levels and their prefixes, and the room they leave. */
  const PREFIXES := ["[ERROR] ", "[WARN]  ", "[INFO]  ", "[DEBUG] ", "[TRACE] "]

  lemma LevelPrefixes(level: int)
    ensures 1 <= level <= 5 ==> LevelPrefix(level) == PREFIXES[level - 1] && LineRoom(level) == 1013
    ensures !(1 <= level <= 5) ==> LevelPrefix(level) == "" && LineRoom(level) == 1021
  {
  }

  /** Text without '%' is stored as far as it fits. */
  lemma {:induction false} PlainBounded(f: string, args: seq<Arg>, room: nat)
    requires '%' !in f
    ensures Reads(f, args, room) && Bounded(f, args, room) == if |f| <= room then f else f[..room]
    decreases |f|
  {
    if f != "" && room > 0 {
      PlainBounded(f[1..], args, room - 1);
      assert f == [f[0]] + f[1..];
      assert Stored(Head(f, args), room) == [f[0]];
    }
  }

  /** A message without '%' and NUL is logged behind the prefix of its level, up to 1013 characters of it,
      and ends in CR LF. */
  lemma PlainLine(level: int, format: string, args: seq<Arg>, rest: seq<char>)
    requires '%' !in format && '\0' !in format && 1 <= level <= 5
    ensures Reads(format, args, LineRoom(level))
    ensures CString(Line(level, format, args) + rest)
            == PREFIXES[level - 1] + (if |format| <= 1013 then format else format[..1013]) + "\r\n"
  {
    LevelPrefixes(level);
    PlainBounded(format, args, 1013);
    NulStored(format, args, 1013);
    LineWhole(level, format, args, rest);
  }

  /** `s` is the part of `b` before its first NUL. */
  predicate CutAt(b: string, s: string)
  {
    |s| < |b| && '\0' !in s && b[..|s|] == s && b[|s|] == '\0'
  }

  /** What is stored before the first NUL that a %c prints. */
  function BeforeNul(f: string, args: seq<Arg>, room: nat): string
    requires Reads(f, args, room) && NulReached(f, args, room)
    decreases |f|
  {
    if NulHead(f, args) then ""
    else
      var t := Stored(Head(f, args), room);
      t + BeforeNul(Rest(f), RestArgs(f, args), room - |t|)
  }

  lemma CutAfter(h: string, b: string, s: string)
    requires CutAt(b, s) && '\0' !in h
    ensures CutAt(h + b, h + s)
  {
    assert (h + b)[..|h + s|] == h + s;
  }

  lemma {:induction false} NulSplits(f: string, args: seq<Arg>, room: nat)
    requires Reads(f, args, room) && NulReached(f, args, room) && '\0' !in f
    ensures CutAt(Bounded(f, args, room), BeforeNul(f, args, room))
    decreases |f|
  {
    if NulHead(f, args) {
      NulFirst(f, args, room);
    } else {
      NulLater(f, args, room);
      var t, rest, later := Stored(Head(f, args), room), Rest(f), RestArgs(f, args);
      NulSplits(rest, later, room - |t|);
      CutAfter(t, Bounded(rest, later, room - |t|), BeforeNul(rest, later, room - |t|));
    }
  }

  /** The first NUL comes after the first step. */
  lemma NulLater(f: string, args: seq<Arg>, room: nat)
    requires Reads(f, args, room) && NulReached(f, args, room) && '\0' !in f && !NulHead(f, args)
    ensures !Ends(f) && HeadOk(f, args) && '\0' !in Rest(f)
    ensures var t, rest, later := Stored(Head(f, args), room), Rest(f), RestArgs(f, args);
            && '\0' !in t && Reads(rest, later, room - |t|) && NulReached(rest, later, room - |t|)
            && Bounded(f, args, room) == t + Bounded(rest, later, room - |t|)
            && BeforeNul(f, args, room) == t + BeforeNul(rest, later, room - |t|)
  {
    HeadNul(f, args, room);
    assert forall c :: c in Rest(f) ==> c in f;
  }

  lemma NulFirst(f: string, args: seq<Arg>, room: nat)
    requires Reads(f, args, room) && !Ends(f) && room > 0 && NulHead(f, args)
    ensures CutAt(Bounded(f, args, room), "")
  {
    assert Head(f, args).t == ['\0'];
  }

  /** Otherwise the reader gets the level prefix and what comes before that %c, and no line end. */
  lemma LineCutShort(level: int, format: string, args: seq<Arg>, rest: seq<char>)
    requires '\0' !in format && Reads(format, args, LineRoom(level)) && NulReached(format, args, LineRoom(level))
    ensures CString(Line(level, format, args) + rest)
            == LevelPrefix(level) + BeforeNul(format, args, LineRoom(level))
  {
    NulSplits(format, args, LineRoom(level));
    CutText(LevelPrefix(level), Bounded(format, args, LineRoom(level)), BeforeNul(format, args, LineRoom(level)), rest);
  }

  lemma CutText(prefix: string, body: string, s: string, rest: seq<char>)
    requires '\0' !in prefix && CutAt(body, s)
    ensures CString(prefix + body + "\r\n\0" + rest) == prefix + s
  {
    var after := body[|s| + 1..] + "\r\n\0" + rest;
    assert body == s + ['\0'] + body[|s| + 1..];
    assert prefix + body + "\r\n\0" + rest == (prefix + s) + ['\0'] + after;
    CStringOf(prefix + s, after);
  }

  /** A format that starts with such a %c: the reader gets the level prefix alone. */
  lemma LostLine(level: int, format: string, args: seq<Arg>, rest: seq<char>)
    requires '\0' !in format && Reads(format, args, LineRoom(level)) && !Ends(format) && NulHead(format, args)
    ensures CString(Line(level, format, args) + rest) == LevelPrefix(level)
  {
    LineCutShort(level, format, args, rest);
  }

  /** The log call ("%c", 256). */
  lemma LostCharacter(level: int, rest: seq<char>)
    ensures Reads("%c", [Int(256)], LineRoom(level)) && !Ends("%c") && NulHead("%c", [Int(256)])
    ensures CString(Line(level, "%c", [Int(256)]) + rest) == LevelPrefix(level)
  {
    assert Rest("%c") == "";
    LostLine(level, "%c", [Int(256)], rest);
  }

  lemma {:induction false} CStringNoNul(s: seq<char>)
    ensures '\0' !in CString(s)
  {
    if s != [] && s[0] != '\0' {
      CStringNoNul(s[1..]);
    }
  }

  lemma WholeText(prefix: string, body: string, rest: seq<char>)
    requires '\0' !in prefix
    ensures CString(prefix + body + "\r\n\0" + rest) == prefix + body + "\r\n" <==> '\0' !in body
  {
    var text := prefix + body + "\r\n";
    assert '\0' in text <==> '\0' in body;
    LineEnd(prefix + body);
    CStringNoNul(text + ['\0'] + rest);
    if '\0' !in body {
      CStringOf(text, rest);
    }
  }

  // ----- The code -----

  class Log {
    const buffer: array<char>
    var level: int

    ghost predicate Valid()
      reads this
    {
      buffer.Length == BUFFER_SIZE
    }

    constructor ()
      ensures Valid() && fresh(buffer) && level == 3
    {
      buffer := new char[BUFFER_SIZE];
      level := 3;
    }

    /** debug_format_and_write: the string handed to debug_write, if the level lets it through. The
        clamp on the total length never acts. */
    method FormatAndWrite(level: int, format: string, args: seq<Arg>) returns (out: Option<string>)
      requires Valid() && '\0' !in format && (level <= this.level ==> Reads(format, args, LineRoom(level)))
      modifies buffer
      ensures level > this.level ==> out == None && buffer[..] == old(buffer[..])
      ensures level <= this.level ==>
                && Wrote(old(buffer[..]), buffer[..], 0, Line(level, format, args))
                && out == Some(CString(buffer[..]))
      ensures level <= this.level && 1 <= level <= 5 ==> buffer[..8] == PREFIXES[level - 1]
      ensures level <= this.level && 1 <= level <= 5 && '%' !in format ==>
                out == Some(PREFIXES[level - 1] + (if |format| <= 1013 then format else format[..1013]) + "\r\n")
    {
      if level > this.level {
        return None;
      }
      var prefix := LevelPrefix(level);
      var prefixLen := |prefix|;
      ghost var s0, body := buffer[..], Bounded(format, args, BUFFER_SIZE - prefixLen - 3);
      var totalLen := WriteMessage(prefix, BUFFER_SIZE - prefixLen - 3, format, args);
      ghost var s1 := buffer[..];
      totalLen := if totalLen > BUFFER_SIZE - 3 then BUFFER_SIZE - 3 else totalLen;
      var end := CopyText(buffer, totalLen, BUFFER_SIZE, "\r\n\0");
      Overwrite(s0, s1, buffer[..], prefix + body, ['\0'], "\r\n\0");
      out := Some(CString(buffer[..]));
      LineStarts(s0, buffer[..], level, format, args);
    }

    /** The level prefix. */
    method WritePrefix(prefix: string) returns (prefixLen: nat)
      requires Valid() && |prefix| <= BUFFER_SIZE
      modifies buffer
      ensures prefixLen == |prefix| && Wrote(old(buffer[..]), buffer[..], 0, prefix)
    {
      assert Take(prefix, |prefix|) == prefix;
      prefixLen := CopyText(buffer, 0, |prefix|, prefix);
    }

    /** The prefix and the message, before the line end is added. */
    method WriteMessage(prefix: string, room: nat, format: string, args: seq<Arg>) returns (totalLen: nat)
      requires Valid() && '\0' !in format && |prefix| + room + 3 == BUFFER_SIZE && Reads(format, args, room)
      modifies buffer
      ensures var body := Bounded(format, args, room);
              totalLen == |prefix + body| && Wrote(old(buffer[..]), buffer[..], 0, prefix + body + ['\0'])
    {
      ghost var s0 := buffer[..];
      var prefixLen := WritePrefix(prefix);
      ghost var s1 := buffer[..];
      var messageLen := Vsnprintf(buffer, prefixLen, room + 1, format, args);
      Joined(s0, s1, buffer[..], prefix, Bounded(format, args, room));
      totalLen := prefixLen + messageLen;
    }

    /** debug_vprint. */
    method Vprint(format: string, args: seq<Arg>) returns (out: string)
      requires Valid() && '\0' !in format && Reads(format, args, BUFFER_SIZE - 2)
      modifies buffer
      ensures Wrote(old(buffer[..]), buffer[..], 0, Bounded(format, args, BUFFER_SIZE - 2) + ['\0'])
      ensures out == CString(buffer[..])
    {
      ghost var s0, body := buffer[..], Bounded(format, args, BUFFER_SIZE - 2);
      var messageLen := Vsnprintf(buffer, 0, BUFFER_SIZE - 1, format, args);
      ghost var s1 := buffer[..];
      messageLen := if messageLen >= BUFFER_SIZE then BUFFER_SIZE - 1 else messageLen;
      StoreChar(buffer, messageLen, '\0');
      Overwrite(s0, s1, buffer[..], body, ['\0'], ['\0']);
      out := CString(buffer[..]);
    }

    /** One round of debug_hex_dump. */
    method DumpRow(bytes: seq<byte>, address: uint32) returns (out: string)
      requires Valid() && |bytes| <= 16
      modifies buffer
      ensures out == DumpLine(bytes) + "\r\n"
    {
      var line := BuildLine(bytes, address);
      LineRender(line);
      ghost var before := buffer[..];
      out := Vprint("%s\r\n", [Str(Some(line))]);
      Shows(before, buffer[..], line + "\r\n");
    }

    /** debug_hex_dump: one line per sixteen bytes, each written whole. */
    method HexDump(data: seq<byte>, address: uint32) returns (lines: seq<string>)
      requires Valid()
      modifies buffer
      ensures |lines| == (|data| + 15) / 16 && DumpOf(data, lines)
    {
      lines := [];
      var i := 0;
      while i < |data|
        invariant 0 <= i && i == 16 * |lines| && DumpOf(data, lines)
      {
        var out := DumpRow(Row(data, i), (address + i) % WORD_LIMIT);
        DumpNext(data, lines, out);
        lines := lines + [out];
        i := i + 16;
      }
      RowCount(|data|, |lines|);
    }
  }

  lemma LineStarts(before: seq<char>, after: seq<char>, level: int, format: string, args: seq<Arg>)
    requires '\0' !in format && Reads(format, args, LineRoom(level)) && Wrote(before, after, 0, Line(level, format, args))
    requires |after| == BUFFER_SIZE
    ensures 1 <= level <= 5 ==> after[..8] == PREFIXES[level - 1]
    ensures 1 <= level <= 5 && '%' !in format ==>
              CString(after) == PREFIXES[level - 1] + (if |format| <= 1013 then format else format[..1013]) + "\r\n"
  {
    var line := Line(level, format, args);
    assert after == line + after[|line|..];
    if 1 <= level <= 5 {
      LevelPrefixes(level);
      assert |LevelPrefix(level)| == 8 && line[..8] == LevelPrefix(level);
      if '%' !in format {
        PlainLine(level, format, args, after[|line|..]);
      }
    }
  }

  /** Every line shows its sixteen bytes and ends in CR LF. */
  predicate DumpOf(data: seq<byte>, lines: seq<string>)
  {
    16 * |lines| < |data| + 16 && forall r :: 0 <= r < |lines| ==> lines[r] == RowLine(data, r)
  }

  function RowLine(data: seq<byte>, r: nat): string
    requires 16 * r < |data|
  {
    DumpLine(Row(data, 16 * r)) + "\r\n"
  }

  lemma DumpNext(data: seq<byte>, lines: seq<string>, out: string)
    requires DumpOf(data, lines) && 16 * |lines| < |data| && out == RowLine(data, |lines|)
    ensures DumpOf(data, lines + [out])
  {
    var more := lines + [out];
    forall r | 0 <= r < |more|
      ensures more[r] == RowLine(data, r)
    {
      if r < |lines| {
        assert more[r] == lines[r];
      } else {
        assert more[r] == out && r == |lines|;
      }
    }
  }

  lemma RowCount(n: nat, rows: nat)
    requires n <= 16 * rows < n + 16
    ensures rows == (n + 15) / 16
  {
  }

  lemma Joined(s0: seq<char>, s1: seq<char>, s2: seq<char>, prefix: string, body: string)
    requires Wrote(s0, s1, 0, prefix) && Wrote(s1, s2, |prefix|, body + ['\0'])
    ensures Wrote(s0, s2, 0, prefix + body + ['\0'])
  {
  }

  /** The sixteen bytes, or what is left, from `i`. */
  function Row(data: seq<byte>, i: nat): (r: seq<byte>)
    requires i < |data|
    ensures |r| <= 16
  {
    if i + 16 <= |data| then data[i..i + 16] else data[i..]
  }

  /** Row `r` of the dump shows the bytes from 16 * r on. */
  lemma RowHolds(data: seq<byte>, r: nat, k: nat)
    requires 16 * r < |data| && k < 16 && 16 * r + k < |data|
    ensures k < |Row(data, 16 * r)| && Row(data, 16 * r)[k] == data[16 * r + k]
    ensures |Row(data, 16 * r)| == if 16 * r + 16 <= |data| then 16 else |data| - 16 * r
  {
  }

  lemma LineRender(line: string)
    requires |line| <= 107 && '\0' !in line
    ensures Reads("%s\r\n", [Str(Some(line))], BUFFER_SIZE - 2)
    ensures Bounded("%s\r\n", [Str(Some(line))], BUFFER_SIZE - 2) == line + "\r\n"
  {
    var f, args := "%s\r\n", [Str(Some(line))];
    PlainRender("\r\n", []);
    assert f[2..] == "\r\n" && args[1..] == [];
    assert Head(f, args) == Text(line);
    RenderStep(f, args);
    EnoughRoom(f, args, BUFFER_SIZE - 2);
  }

  lemma Shows(before: seq<char>, after: seq<char>, t: string)
    requires Wrote(before, after, 0, t + ['\0']) && '\0' !in t
    ensures CString(after) == t
  {
    Terminated(before, after, 0, t);
    assert after == t + ['\0'] + after[|t| + 1..];
    CStringOf(t, after[|t| + 1..]);
  }

  /** Writing again from the end of `t` replaces what was written after it. */
  lemma Overwrite(s0: seq<char>, s1: seq<char>, s2: seq<char>, t: string, u: string, v: string)
    requires Wrote(s0, s1, 0, t + u) && Wrote(s1, s2, |t|, v) && |u| <= |v|
    ensures Wrote(s0, s2, 0, t + v)
  {
  }

  // ----- The hex dump -----

  /** Column `j` of a dump line: widths are not supported, so the digits never appear. */
  function HexColumn(n: nat, j: nat): (s: string)
    ensures |s| <= 5 + (if j == 7 then 1 else 0) && '\0' !in s
  {
    (if j < n then "%02x " else "   ") + (if j == 7 then " " else "")
  }

  function HexColumns(n: nat, j: nat): (s: string)
    ensures |s| <= 5 * j + 1 && (j <= 7 ==> |s| <= 5 * j) && '\0' !in s
  {
    if j == 0 then ""
    else HexColumns(n, j - 1) + HexColumn(n, j - 1)
  }

  function Shown(b: byte): (c: char)
    ensures c != '\0'
  {
    if 32 <= b <= 126 then b as char else '.'
  }

  function AsciiColumns(bytes: seq<byte>, j: nat): (s: string)
    requires j <= 16
    ensures |s| <= j && '\0' !in s
  {
    if j == 0 then ""
    else AsciiColumns(bytes, j - 1) + (if j - 1 < |bytes| then [Shown(bytes[j - 1])] else "")
  }

  /** The line for the bytes of one row. */
  function DumpLine(bytes: seq<byte>): (s: string)
    requires |bytes| <= 16
    ensures |s| <= 107 && '\0' !in s
  {
    "%08x: " + HexColumns(|bytes|, 16) + "| " + AsciiColumns(bytes, 16) + " |"
  }

  lemma {:induction false} HexLength(n: nat, j: nat)
    requires n <= 16 && j <= 16
    ensures |HexColumns(n, j)| == 3 * j + 2 * (if j < n then j else n) + (if j > 7 then 1 else 0)
  {
    if j > 0 {
      HexLength(n, j - 1);
    }
  }

  lemma {:induction false} AsciiShows(bytes: seq<byte>, j: nat)
    requires j <= 16
    ensures |AsciiColumns(bytes, j)| == if j < |bytes| then j else |bytes|
    ensures forall i :: 0 <= i < j && i < |bytes| ==> AsciiColumns(bytes, j)[i] == Shown(bytes[i])
  {
    if j > 0 {
      AsciiShows(bytes, j - 1);
    }
  }

  lemma AsciiExact(a: seq<byte>, b: seq<byte>)
    requires |a| == |b| <= 16
    ensures AsciiColumns(a, 16) == AsciiColumns(b, 16) <==> forall i :: 0 <= i < |a| ==> Shown(a[i]) == Shown(b[i])
  {
    AsciiShows(a, 16);
    AsciiShows(b, 16);
    if AsciiColumns(a, 16) == AsciiColumns(b, 16) {
      forall i | 0 <= i < |a|
        ensures Shown(a[i]) == Shown(b[i])
      {
        assert AsciiColumns(a, 16)[i] == AsciiColumns(b, 16)[i];
      }
    }
  }

  lemma DumpLength(bytes: seq<byte>)
    requires |bytes| <= 16
    ensures |DumpLine(bytes)| == 59 + 3 * |bytes|
  {
    HexLength(|bytes|, 16);
    AsciiShows(bytes, 16);
  }

  lemma {:induction false} HexPrefix(n: nat, j: nat, k: nat)
    requires j < k <= 16
    ensures HexColumns(n, j) + HexColumn(n, j) <= HexColumns(n, k)
  {
    if j < k - 1 {
      HexPrefix(n, j, k - 1);
    }
  }

  /** Where column `j` starts, counted from the end of the address column. */
  function ColumnStart(n: nat, j: nat): nat
  {
    3 * j + 2 * (if j < n then j else n) + (if j > 7 then 1 else 0)
  }

  function ColumnText(n: nat, j: nat): string
  {
    if j < n then "%02x " else "   "
  }

  lemma ColumnsAt(n: nat, j: nat)
    requires n <= 16 && j < 16
    ensures ShowsAt(HexColumns(n, 16), ColumnStart(n, j), ColumnText(n, j))
  {
    HexLength(n, j);
    HexPrefix(n, j, 16);
    ColumnBegins(n, j);
    ColumnSlice(HexColumns(n, 16), HexColumns(n, j), HexColumn(n, j));
    SubSlice(HexColumns(n, 16), |HexColumns(n, j)|, HexColumn(n, j), |ColumnText(n, j)|);
  }

  lemma ColumnBegins(n: nat, j: nat)
    ensures |ColumnText(n, j)| <= |HexColumn(n, j)| && HexColumn(n, j)[..|ColumnText(n, j)|] == ColumnText(n, j)
  {
  }

  /** `text` stands in `line` from `at` on. */
  predicate ShowsAt(line: string, at: nat, text: string)
  {
    at + |text| <= |line| && line[at..at + |text|] == text
  }

  lemma ShowsAfter(head: string, part: string, tail: string, at: nat, text: string)
    requires ShowsAt(part, at, text)
    ensures ShowsAt(head + part + tail, |head| + at, text) && ShowsAt(head + part + tail, 0, head)
  {
    var line := head + part + tail;
    assert line[|head| + at..|head| + at + |text|] == part[at..at + |text|];
  }

  /** The line, place by place: the address column and the hexadecimal columns are format text ... */
  lemma DumpColumns(bytes: seq<byte>, j: nat)
    requires |bytes| <= 16 && j < 16
    ensures ShowsAt(DumpLine(bytes), 0, "%08x: ")
    ensures ShowsAt(DumpLine(bytes), 6 + ColumnStart(|bytes|, j), if j < |bytes| then "%02x " else "   ")
  {
    ColumnsAt(|bytes|, j);
    LineTail(bytes);
    ShowsAfter("%08x: ", HexColumns(|bytes|, 16), "| " + AsciiColumns(bytes, 16) + " |",
               ColumnStart(|bytes|, j), ColumnText(|bytes|, j));
  }

  lemma LineTail(bytes: seq<byte>)
    requires |bytes| <= 16
    ensures DumpLine(bytes) == "%08x: " + HexColumns(|bytes|, 16) + ("| " + AsciiColumns(bytes, 16) + " |")
  {
    ConcatFour("%08x: " + HexColumns(|bytes|, 16), "| ", AsciiColumns(bytes, 16), " |");
  }

  lemma ConcatFour(a: string, b: string, c: string, d: string)
    ensures a + b + c + d == a + (b + c + d)
  {
  }

  lemma ColumnSlice(columns: string, before: string, column: string)
    requires before + column <= columns
    ensures columns[|before|..|before| + |column|] == column
  {
  }

  lemma SubSlice(line: string, at: nat, column: string, k: nat)
    requires at + |column| <= |line| && line[at..at + |column|] == column && k <= |column|
    ensures line[at..at + k] == column[..k]
  {
    assert line[at..at + |column|][..k] == line[at..at + k];
  }

  lemma ShownCode(b: byte)
    ensures Shown(b) as int == if 32 <= b <= 126 then b as int else 46
  {
  }

  /** ... and byte `i` shows as itself when its code is from 32 to 126, and as '.' otherwise. */
  lemma DumpCharacter(bytes: seq<byte>, i: nat)
    requires i < |bytes| <= 16
    ensures ShowsAt(DumpLine(bytes), 55 + 2 * |bytes|, "| ") && ShowsAt(DumpLine(bytes), 57 + 3 * |bytes|, " |")
    ensures ShowsAt(DumpLine(bytes), 57 + 2 * |bytes| + i, [Shown(bytes[i])])
    ensures Shown(bytes[i]) as int == if 32 <= bytes[i] <= 126 then bytes[i] as int else 46
  {
    ShownCode(bytes[i]);
    var columns, ascii := DumpParts(bytes, i);
    LinePlaces(DumpLine(bytes), columns, ascii, |bytes|, i, Shown(bytes[i]));
  }

  lemma DumpParts(bytes: seq<byte>, i: nat) returns (columns: string, ascii: string)
    requires i < |bytes| <= 16
    ensures DumpLine(bytes) == "%08x: " + columns + ("| " + ascii + " |")
    ensures |columns| == 49 + 2 * |bytes| && |ascii| == |bytes| && ascii[i] == Shown(bytes[i])
  {
    HexLength(|bytes|, 16);
    AsciiShows(bytes, 16);
    LineTail(bytes);
    columns, ascii := HexColumns(|bytes|, 16), AsciiColumns(bytes, 16);
  }

  lemma LinePlaces(line: string, columns: string, ascii: string, n: nat, i: nat, c: char)
    requires line == "%08x: " + columns + ("| " + ascii + " |") && |columns| == 49 + 2 * n
    requires i < |ascii| == n && ascii[i] == c
    ensures ShowsAt(line, 55 + 2 * n, "| ") && ShowsAt(line, 57 + 2 * n + i, [c]) && ShowsAt(line, 57 + 3 * n, " |")
  {
    var head, tail := "%08x: " + columns, "| " + ascii + " |";
    assert |head| == 55 + 2 * n && line == head + tail;
    assert tail[0..2] == "| " && tail[2 + i..3 + i] == [c] && tail[2 + n..4 + n] == " |";
    assert forall k :: 0 <= k < |tail| ==> line[55 + 2 * n + k] == tail[k];
  }

  /** All that a dump line tells about its bytes: their number and their printable characters. Two
      rows that differ only in unprintable bytes give one line. */
  lemma DumpTells(a: seq<byte>, b: seq<byte>)
    requires |a| <= 16 && |b| <= 16
    ensures DumpLine(a) == DumpLine(b) <==> |a| == |b| && forall i :: 0 <= i < |a| ==> Shown(a[i]) == Shown(b[i])
  {
    DumpLength(a);
    DumpLength(b);
    if |a| == |b| {
      AsciiExact(a, b);
      SameMiddle("%08x: " + HexColumns(|a|, 16) + "| ", AsciiColumns(a, 16), AsciiColumns(b, 16), " |");
    }
  }

  lemma SameMiddle(prefix: string, s: string, t: string, suffix: string)
    ensures prefix + s + suffix == prefix + t + suffix <==> s == t
  {
    var x, y := prefix + s + suffix, prefix + t + suffix;
    assert |x| == |prefix| + |s| + |suffix| && |y| == |prefix| + |t| + |suffix|;
    assert x[|prefix|..|x| - |suffix|] == s && y[|prefix|..|y| - |suffix|] == t;
  }

  /** line_pos += snprintf(line + line_pos, sizeof(line) - line_pos, ...): whatever the format and
      arguments, the position stays inside the line. */
  method Append(line: array<char>, pos: nat, format: string, args: seq<Arg>) returns (end: nat)
    requires line.Length == 128 && pos <= 127 && '\0' !in format && Reads(format, args, 127 - pos)
    modifies line
    ensures end == pos + |Bounded(format, args, 127 - pos)| <= 127
    ensures line[..end] == old(line[..pos]) + Bounded(format, args, 127 - pos)
    ensures line[end] == '\0'
  {
    ghost var before := line[..];
    var count := Vsnprintf(line, pos, 128 - pos, format, args);
    Terminated(before, line[..], pos, Bounded(format, args, 127 - pos));
    end := pos + count;
    assert line[..end] == line[..][..end] && line[end] == line[..][end];
  }

  lemma Terminated(before: seq<char>, after: seq<char>, at: nat, t: string)
    requires Wrote(before, after, at, t + ['\0'])
    ensures after[..at + |t|] == before[..at] + t && after[at + |t|] == '\0'
  {
  }

  /** The text contains no '%', or one that introduces an unknown conversion at its start. */
  predicate Verbatim(text: string)
  {
    '%' !in text || (Gives(text) && |text| > 1 && '%' !in text[2..])
  }

  /** Such a text renders as it is. */
  lemma VerbatimBounded(text: string, args: seq<Arg>, room: nat)
    requires Verbatim(text) && |text| <= room
    ensures Reads(text, args, room) && Bounded(text, args, room) == text
  {
    if '%' in text {
      UnknownPortable(text, args);
    } else {
      PlainRender(text, args);
    }
    EnoughRoom(text, args, room);
  }

  /** Append of a text that renders as it is and fits. */
  method AppendText(line: array<char>, pos: nat, text: string, args: seq<Arg>) returns (end: nat)
    requires line.Length == 128 && pos + |text| <= 127 && '\0' !in text && Verbatim(text)
    modifies line
    ensures end == pos + |text| && line[..end] == old(line[..pos]) + text && line[end] == '\0'
  {
    VerbatimBounded(text, args, 127 - pos);
    end := Append(line, pos, text, args);
  }

  method AppendHex(line: array<char>, pos: nat, bytes: seq<byte>) returns (end: nat)
    requires line.Length == 128 && pos <= 6 && |bytes| <= 16
    modifies line
    ensures end == pos + |HexColumns(|bytes|, 16)| && line[..end] == old(line[..pos]) + HexColumns(|bytes|, 16)
  {
    end := pos;
    ghost var start := line[..pos];
    for j := 0 to 16
      invariant end == pos + |HexColumns(|bytes|, j)| && line[..end] == start + HexColumns(|bytes|, j)
    {
      end := AppendColumn(line, end, bytes, j);
    }
  }

  method AppendColumn(line: array<char>, pos: nat, bytes: seq<byte>, j: nat) returns (end: nat)
    requires line.Length == 128 && pos <= 100
    modifies line
    ensures end == pos + |HexColumn(|bytes|, j)| && line[..end] == old(line[..pos]) + HexColumn(|bytes|, j)
  {
    if j < |bytes| {
      end := AppendText(line, pos, "%02x ", [UInt(bytes[j])]);
    } else {
      end := AppendText(line, pos, "   ", []);
    }
    if j == 7 {
      end := AppendText(line, end, " ", []);
    }
  }

  method AppendAscii(line: array<char>, pos: nat, bytes: seq<byte>) returns (end: nat)
    requires line.Length == 128 && pos <= 100 && |bytes| <= 16
    modifies line
    ensures end == pos + |AsciiColumns(bytes, 16)| && line[..end] == old(line[..pos]) + AsciiColumns(bytes, 16)
  {
    end := pos;
    ghost var start := line[..pos];
    for j := 0 to 16
      invariant end == pos + |AsciiColumns(bytes, j)| && line[..end] == start + AsciiColumns(bytes, j)
    {
      ghost var before := line[..end];
      if j < |bytes| {
        end := AppendShown(line, end, bytes[j]);
      }
      AsciiStep(start, bytes, j, before, line[..end]);
    }
  }

  lemma AsciiStep(start: string, bytes: seq<byte>, j: nat, before: string, after: string)
    requires j < 16 && before == start + AsciiColumns(bytes, j)
    requires after == if j < |bytes| then before + [Shown(bytes[j])] else before
    ensures after == start + AsciiColumns(bytes, j + 1)
  {
    if j < |bytes| {
      Regroup(start, AsciiColumns(bytes, j), [Shown(bytes[j])]);
    } else {
      assert AsciiColumns(bytes, j) + "" == AsciiColumns(bytes, j);
    }
  }

  method AppendShown(line: array<char>, pos: nat, c: byte) returns (end: nat)
    requires line.Length == 128 && pos <= 126
    modifies line
    ensures end == pos + 1 && line[..end] == old(line[..pos]) + [Shown(c)]
  {
    if 32 <= c <= 126 {
      CharRender(c);
      EnoughRoom("%c", [Int(c)], 127 - pos);
      end := Append(line, pos, "%c", [Int(c)]);
    } else {
      end := AppendText(line, pos, ".", []);
    }
  }

  lemma CharRender(c: byte)
    ensures Matches("%c", [Int(c)]) && Render("%c", [Int(c)]) == [c as char]
  {
    var f, args := "%c", [Int(c)];
    assert Rest(f) == "" && RestArgs(f, args) == [];
    assert Head(f, args) == Text([c as char]);
    RenderStep(f, args);
  }

  /** One row of debug_hex_dump: the 128-byte line is never cut, whatever the data. */
  method BuildLine(bytes: seq<byte>, address: uint32) returns (text: string)
    requires |bytes| <= 16
    ensures text == DumpLine(bytes)
  {
    var line := new char[128];
    var pos := AppendText(line, 0, "%08x: ", [UInt(address)]);
    ghost var part := "%08x: ";
    assert line[..pos] == part;
    pos := AppendHex(line, pos, bytes);
    part := part + HexColumns(|bytes|, 16);
    assert line[..pos] == part;
    pos := AppendText(line, pos, "| ", []);
    part := part + "| ";
    assert line[..pos] == part;
    pos := AppendAscii(line, pos, bytes);
    part := part + AsciiColumns(bytes, 16);
    assert line[..pos] == part;
    pos := AppendText(line, pos, " |", []);
    text := line[..pos];
  }
}
