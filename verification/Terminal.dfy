/** kernel/arch/i386/tty.c on the bytes of the VGA buffer, and the serial stream that the terminal,
    libc/stdio/putchar.c and the print helper of libc/stdio/printf.c produce together. */
module Terminal {
  import opened ByteMemory
  import opened Document

  /** The 16-bit little-endian cells of a byte buffer. */
  function CellsOf(bytes: seq<byte>): (cells: seq<cell>)
    ensures |cells| == |bytes| / 2
    ensures forall i :: 0 <= i < |cells| ==> cells[i] == Entry(bytes[2 * i], bytes[2 * i + 1])
  {
    seq(|bytes| / 2, i requires 0 <= i < |bytes| / 2 => Entry(bytes[2 * i], bytes[2 * i + 1]))
  }

  /** The two byte operations of scroll shift every cell row up by one. */
  lemma ScrollBytes(m: seq<byte>)
    requires |m| == 2 * CELLS
    ensures CellsOf(Filled(Moved(m, 0, 2 * WIDTH, 2 * WIDTH * (HEIGHT - 1)), 2 * WIDTH * (HEIGHT - 1), 0, 2 * WIDTH))
            == ScrollUp(CellsOf(m))
  {
  }

  /** The buffer with the two bytes of cell `i` replaced. */
  function WithBytes(m: seq<byte>, i: nat, c: byte, color: byte): (r: seq<byte>)
    requires 2 * i + 1 < |m|
    ensures |r| == |m|
  {
    var low: seq<byte> := m[2 * i := c];
    low[2 * i + 1 := color]
  }

  /** Storing the two bytes of a cell changes that cell alone. */
  lemma CellStore(m: seq<byte>, i: nat, c: byte, color: byte)
    requires |m| == 2 * CELLS && i < CELLS
    ensures CellsOf(WithBytes(m, i, c, color)) == CellsOf(m)[i := Entry(c, color)]
  {
  }

  /** Where the two parts of a cell lie: the character in the even byte, the colour in the odd one. */
  lemma CellBytes(m: seq<byte>, i: nat)
    requires 2 * i + 1 < |m|
    ensures CellsOf(m)[i] % 256 == m[2 * i] && CellsOf(m)[i] / 256 == m[2 * i + 1]
  {
  }

  // ----- The serial stream -----

  /** A line feed as CR LF, any other character as it is. */
  function CrlfOf(c: byte): seq<byte>
  {
    if c == LF then [CR, LF] else [c]
  }

  function Crlf(text: seq<byte>): seq<byte>
  {
    if text == [] then [] else CrlfOf(text[0]) + Crlf(text[1..])
  }

  /** Who copies characters to COM1: the terminal, print, putchar. */
  datatype Routing = Routing(terminal: bool, printf: bool, putchar: bool)

  /** What one character of printf output sends to COM1. */
  function SerialOf(r: Routing, c: byte): seq<byte>
  {
    (if r.terminal then CrlfOf(c) else [])
    + (if r.putchar && !r.terminal then CrlfOf(c) else [])
    + (if r.printf && !r.terminal then CrlfOf(c) else [])
  }

  function Stream(r: Routing, text: seq<byte>): seq<byte>
  {
    if text == [] then [] else SerialOf(r, text[0]) + Stream(r, text[1..])
  }

  /** Whether some part is to copy to COM1, and whether two would. */
  predicate Wanted(r: Routing)
  {
    r.terminal || r.printf || r.putchar
  }

  predicate Doubled(r: Routing)
  {
    !r.terminal && r.printf && r.putchar
  }

  lemma SerialOfCounts(r: Routing, c: byte)
    ensures !Doubled(r) ==> SerialOf(r, c) == if Wanted(r) then CrlfOf(c) else []
    ensures Doubled(r) ==> SerialOf(r, c) == CrlfOf(c) + CrlfOf(c)
  {
  }

  lemma {:induction false} StreamOnce(r: Routing, text: seq<byte>)
    requires !Doubled(r)
    ensures Stream(r, text) == if Wanted(r) then Crlf(text) else []
  {
    if text != [] {
      SerialOfCounts(r, text[0]);
      StreamOnce(r, text[1..]);
    }
  }

  /** Every character sent twice in a row, each time with CR before LF. */
  function Twice(text: seq<byte>): seq<byte>
  {
    if text == [] then [] else CrlfOf(text[0]) + CrlfOf(text[0]) + Twice(text[1..])
  }

  lemma {:induction false} StreamTwice(r: Routing, text: seq<byte>)
    requires Doubled(r)
    ensures Stream(r, text) == Twice(text)
  {
    if text != [] {
      SerialOfCounts(r, text[0]);
      StreamTwice(r, text[1..]);
    }
  }

  /** Every character reaches COM1 once, with CR before LF, if some flag is on, and not at all
      otherwise: true of every text exactly when printf and putchar do not both copy behind a silent
      terminal. */
  lemma SerialStream(r: Routing)
    ensures (forall text :: Stream(r, text) == if Wanted(r) then Crlf(text) else []) <==> !Doubled(r)
  {
    if Doubled(r) {
      StreamTwice(r, [TAB]);
      assert Twice([TAB]) == [TAB, TAB] && Crlf([TAB]) == [TAB];
    } else {
      forall text {
        StreamOnce(r, text);
      }
    }
  }

  // ----- The stream, byte by byte -----

  /** Every LF (10) comes right after a CR (13). */
  predicate Paired(s: seq<byte>)
  {
    forall i :: 0 <= i < |s| && s[i] == 10 ==> i > 0 && s[i - 1] == 13
  }

  /** A stream without the byte before each LF. */
  function Unpaired(s: seq<byte>): seq<byte>
  {
    if |s| < 2 then s
    else if s[1] == 10 then Unpaired(s[1..])
    else [s[0]] + Unpaired(s[1..])
  }

  /** Every character twice. */
  function Doubling(text: seq<byte>): seq<byte>
  {
    if text == [] then [] else [text[0], text[0]] + Doubling(text[1..])
  }

  lemma PairedNext(c: byte, s: seq<byte>)
    requires Paired(s) && c != 10
    ensures Paired([c] + s) && Unpaired([c] + s) == [c] + Unpaired(s)
  {
    assert ([c] + s)[1..] == s;
    assert s != [] ==> s[0] != 10;
  }

  lemma PairedLine(s: seq<byte>)
    requires Paired(s)
    ensures Paired([13, 10] + s) && Unpaired([13, 10] + s) == [10] + Unpaired(s)
  {
    assert ([13, 10] + s)[1..] == [10] + s && ([10] + s)[1..] == s;
    assert s != [] ==> s[0] != 10;
  }

  /** One more character in front of a stream. */
  lemma PairedChar(c: byte, s: seq<byte>)
    requires Paired(s)
    ensures Paired(CrlfOf(c) + s) && Unpaired(CrlfOf(c) + s) == [c] + Unpaired(s)
    ensures |CrlfOf(c) + s| == |s| + if c == 10 then 2 else 1
  {
    if c == 10 {
      PairedLine(s);
    } else {
      PairedNext(c, s);
    }
  }

  lemma {:induction false} CrlfPairs(text: seq<byte>)
    ensures Paired(Crlf(text)) && Unpaired(Crlf(text)) == text
    ensures |Crlf(text)| == |text| + multiset(text)[10]
  {
    if text != [] {
      CrlfPairs(text[1..]);
      PairedChar(text[0], Crlf(text[1..]));
      assert text == [text[0]] + text[1..];
    }
  }

  lemma {:induction false} TwicePairs(text: seq<byte>)
    ensures Paired(Twice(text)) && Unpaired(Twice(text)) == Doubling(text)
  {
    if text != [] {
      var c, later := text[0], Twice(text[1..]);
      TwicePairs(text[1..]);
      PairedChar(c, later);
      PairedChar(c, CrlfOf(c) + later);
      assert Twice(text) == CrlfOf(c) + (CrlfOf(c) + later);
      assert [c] + ([c] + Unpaired(later)) == [c, c] + Unpaired(later);
    }
  }

  /** What printf output puts on COM1, with one copying part or with the terminal copying: each line feed
      right after an inserted carriage return, and without these exactly the text. */
  lemma StreamPairs(r: Routing, text: seq<byte>)
    requires r.terminal || r.printf != r.putchar
    ensures Paired(Stream(r, text)) && Unpaired(Stream(r, text)) == text
    ensures |Stream(r, text)| == |text| + multiset(text)[10]
  {
    StreamOnce(r, text);
    CrlfPairs(text);
  }

  /** With printf and putchar both copying behind a silent terminal the same holds of the text with every
      character doubled, and with no flag on nothing is sent. */
  lemma StreamElse(r: Routing, text: seq<byte>)
    requires !r.terminal && r.printf == r.putchar
    ensures r.printf ==> Paired(Stream(r, text)) && Unpaired(Stream(r, text)) == Doubling(text)
    ensures !r.printf ==> Stream(r, text) == []
  {
    if r.printf {
      StreamTwice(r, text);
      TwicePairs(text);
    } else {
      StreamOnce(r, text);
    }
  }

  /** Output in chunks shows and sends what it would in one piece. */
  lemma {:induction false} ChunksCompose(r: Routing, s: Screen, a: seq<byte>, b: seq<byte>)
    requires ScreenOk(s)
    ensures PutAll(s, a + b) == PutAll(PutAll(s, a), b)
    ensures Stream(r, a + b) == Stream(r, a) + Stream(r, b)
    decreases |a|
  {
    if a == [] {
      assert a + b == b;
    } else {
      assert (a + b)[1..] == a[1..] + b;
      ChunksCompose(r, Put(s, a[0]), a[1..], b);
    }
  }

  /** One round of an output loop: the screen and the bytes sent so far. */
  lemma OutputStep(r: Routing, s: Screen, sent: seq<byte>, data: seq<byte>, i: nat)
    requires ScreenOk(s) && i < |data|
    ensures PutAll(s, data[i..]) == PutAll(Put(s, data[i]), data[i + 1..])
    ensures sent + Stream(r, data[i..]) == sent + SerialOf(r, data[i]) + Stream(r, data[i + 1..])
  {
    assert data[i..][1..] == data[i + 1..];
  }

  lemma DriveStep(s: Screen, events: seq<Event>, i: nat)
    requires ScreenOk(s) && i < |events|
    ensures Drive(s, events[i..]) == Drive(Drive(s, [events[i]]), events[i + 1..])
  {
    assert events[i..][1..] == events[i + 1..] && [events[i]][1..] == [];
  }

  // ----- The code -----

  class Console {
    var buffer: array<byte>
    var row: nat
    var col: nat
    var color: byte
    var routing: Routing
    /** Bytes written to COM1 so far. */
    var com1: seq<byte>

    ghost predicate Valid()
      reads this
    {
      buffer.Length == 2 * CELLS && row < HEIGHT && col < WIDTH
    }

    ghost function View(): (s: Screen)
      requires Valid()
      reads this, buffer
      ensures ScreenOk(s)
    {
      Screen(CellsOf(buffer[..]), row, col, color)
    }

    /** The state before any output of terminal_initialize, with all serial flags off. */
    constructor (vga: array<byte>)
      requires vga.Length == 2 * CELLS
      ensures Valid() && buffer == vga && routing == Routing(false, false, false) && com1 == []
      ensures row == 0 && col == 0 && color == 7
    {
      buffer := vga;
      row, col, color := 0, 0, 7;
      routing := Routing(false, false, false);
      com1 := [];
    }

    /** The clear loop of terminal_initialize. */
    method Clear()
      requires Valid() && row == 0 && col == 0
      modifies buffer
      ensures View() == Window(Blank(color))
      ensures forall i :: 0 <= i < 2000 ==> buffer[2 * i] == 32 && buffer[2 * i + 1] == color
    {
      var y := 0;
      while y < HEIGHT
        invariant 0 <= y <= HEIGHT
        invariant forall i :: 0 <= i < y * WIDTH ==> CellsOf(buffer[..])[i] == Entry(32, color)
      {
        var x := 0;
        while x < WIDTH
          invariant 0 <= x <= WIDTH
          invariant forall i :: 0 <= i < y * WIDTH + x ==> CellsOf(buffer[..])[i] == Entry(32, color)
        {
          StoreCell(y * WIDTH + x, 32, color);
          x := x + 1;
        }
        y := y + 1;
      }
      assert View().cells == Window(Blank(color)).cells;
      forall i | 0 <= i < 2000
        ensures buffer[2 * i] == 32 && buffer[2 * i + 1] == color
      {
        CellBytes(buffer[..], i);
      }
    }

    /** terminal_buffer[index] = vga_entry(c, color). */
    method StoreCell(index: nat, c: byte, color: byte)
      requires Valid() && index < CELLS
      modifies buffer
      ensures CellsOf(buffer[..]) == old(CellsOf(buffer[..]))[index := Entry(c, color)]
      ensures buffer[..] == old(buffer[..])[2 * index := c][2 * index + 1 := color]
    {
      CellStore(buffer[..], index, c, color);
      ghost var before := buffer[..];
      buffer[2 * index] := c;
      buffer[2 * index + 1] := color;
      assert buffer[..] == WithBytes(before, index, c, color);
    }

    method PutEntryAt(c: byte, color: byte, x: nat, y: nat)
      requires Valid() && x < WIDTH && y < HEIGHT
      modifies buffer
      ensures CellsOf(buffer[..]) == old(CellsOf(buffer[..]))[y * WIDTH + x := Entry(c, color)]
      ensures buffer[..] == old(buffer[..])[160 * y + 2 * x := c][160 * y + 2 * x + 1 := color]
    {
      var index := y * WIDTH + x;
      StoreCell(index, c, color);
    }

    method Scroll()
      requires buffer.Length == 2 * CELLS
      modifies buffer, this`row
      ensures CellsOf(buffer[..]) == ScrollUp(old(CellsOf(buffer[..])))
      ensures row == if old(row) > 0 then old(row) - 1 else 0
    {
      ScrollBytes(buffer[..]);
      MemMove(buffer, 0, 2 * WIDTH, 2 * WIDTH * (HEIGHT - 1));
      MemSet(buffer, 2 * WIDTH * (HEIGHT - 1), 0, 2 * WIDTH);
      if row > 0 {
        row := row - 1;
      }
    }

    /** The line change that four branches of terminal_putchar share. */
    method LineFeed()
      requires buffer.Length == 2 * CELLS && row < HEIGHT && col <= WIDTH + 3
      modifies buffer, this`row, this`col
      ensures Valid()
      ensures View() == NextLine(Screen(old(CellsOf(buffer[..])), old(row), 0, color))
    {
      col := 0;
      row := row + 1;
      if row >= HEIGHT {
        Scroll();
      }
    }

    method PutChar(c: byte)
      requires Valid()
      modifies this`row, this`col, this`com1, buffer
      ensures Valid()
      ensures View() == Put(old(View()), c)
      ensures com1 == old(com1) + if routing.terminal then CrlfOf(c) else []
    {
      if c == LF {
        LineFeed();
        if routing.terminal {
          com1 := com1 + [CR];
          com1 := com1 + [LF];
        }
        return;
      }
      if c == CR {
        col := 0;
        if routing.terminal {
          com1 := com1 + [CR];
        }
        return;
      }
      if c == TAB {
        col := col + 4;
        if col >= WIDTH {
          LineFeed();
        }
        if routing.terminal {
          com1 := com1 + [TAB];
        }
        return;
      }
      Advance(c);
      if routing.terminal {
        com1 := com1 + [c];
      }
    }

    /** The branch of terminal_putchar that draws a character. */
    method Advance(c: byte)
      requires Valid() && Printable(c)
      modifies this`row, this`col, buffer
      ensures Valid()
      ensures View() == Put(old(View()), c)
    {
      PutEntryAt(c, color, col, row);
      col := col + 1;
      if col >= WIDTH {
        LineFeed();
      }
    }

    method SetColor(color: byte)
      requires Valid()
      modifies this`color
      ensures Valid() && View() == old(View()).(color := color)
    {
      this.color := color;
    }

    method Handle(e: Event)
      requires Valid()
      modifies this`row, this`col, this`color, this`com1, buffer
      ensures Valid() && View() == Drive(old(View()), [e])
    {
      assert [e][1..] == [];
      match e
      case Char(c) => PutChar(c);
      case Color(color) => SetColor(color);
    }

    /** Any sequence of terminal_putchar and terminal_setcolor: a screen that shows the window of a
        document shows the window of the document driven the same way. */
    method Perform(events: seq<Event>)
      requires Valid()
      modifies this`row, this`col, this`color, this`com1, buffer
      ensures Valid() && View() == Drive(old(View()), events)
      ensures forall d: Doc :: DocOk(d) && old(View()) == Window(d) ==> View() == Window(DriveDoc(d, events))
    {
      var i := 0;
      ghost var s0 := View();
      while i < |events|
        invariant 0 <= i <= |events| && Valid()
        invariant Drive(View(), events[i..]) == Drive(s0, events)
      {
        DriveStep(View(), events, i);
        Handle(events[i]);
        i := i + 1;
      }
      forall d: Doc | DocOk(d) && s0 == Window(d)
        ensures View() == Window(DriveDoc(d, events))
      {
        TerminalRefines(d, events);
      }
    }

    /** terminal_write. */
    method Write(data: seq<byte>)
      requires Valid()
      modifies this`row, this`col, this`com1, buffer
      ensures Valid()
      ensures View() == PutAll(old(View()), data)
      ensures com1 == old(com1) + if routing.terminal then Crlf(data) else []
    {
      var i := 0;
      ghost var s0, sent := View(), com1;
      ghost var r := Routing(routing.terminal, false, false);
      while i < |data|
        invariant 0 <= i <= |data| && Valid()
        invariant PutAll(View(), data[i..]) == PutAll(s0, data)
        invariant com1 + Stream(r, data[i..]) == sent + Stream(r, data)
      {
        OutputStep(r, View(), com1, data, i);
        SerialOfCounts(r, data[i]);
        PutChar(data[i]);
        i := i + 1;
      }
      StreamOnce(r, data);
    }

    /** putchar. */
    method PutCharacter(c: byte)
      requires Valid()
      modifies this`row, this`col, this`com1, buffer
      ensures Valid()
      ensures View() == Put(old(View()), c)
      ensures com1 == old(com1) + SerialOf(routing.(printf := false), c)
    {
      ghost var sent := com1;
      assert PutAll(View(), [c]) == PutAll(Put(View(), c), []);
      assert Crlf([c]) == CrlfOf(c) + Crlf([]);
      Write([c]);
      if routing.putchar && !routing.terminal {
        if c == LF {
          com1 := com1 + [CR];
        }
        com1 := com1 + [c];
        assert com1 == sent + CrlfOf(c);
      }
      assert com1 == sent + SerialOf(routing.(printf := false), c);
    }

    /** One round of the loop of print. */
    method PrintByte(c: byte)
      requires Valid()
      modifies this`row, this`col, this`com1, buffer
      ensures Valid()
      ensures View() == Put(old(View()), c)
      ensures com1 == old(com1) + SerialOf(routing, c)
    {
      ghost var sent := com1;
      PutCharacter(c);
      if routing.printf && !routing.terminal {
        if c == LF {
          com1 := com1 + [CR];
        }
        com1 := com1 + [c];
      }
      assert com1 == sent + SerialOf(routing, c);
    }

    /** print, the output helper of printf. putchar never fails, so neither does print. */
    method Print(data: seq<byte>) returns (ok: bool)
      requires Valid()
      modifies this`row, this`col, this`com1, buffer
      ensures Valid() && ok
      ensures View() == PutAll(old(View()), data)
      ensures com1 == old(com1) + Stream(routing, data)
    {
      var i := 0;
      ghost var s0, sent := View(), com1;
      while i < |data|
        invariant 0 <= i <= |data| && Valid()
        invariant PutAll(View(), data[i..]) == PutAll(s0, data)
        invariant com1 + Stream(routing, data[i..]) == sent + Stream(routing, data)
      {
        OutputStep(routing, View(), com1, data, i);
        PrintByte(data[i]);
        i := i + 1;
      }
      return true;
    }
  }
}
