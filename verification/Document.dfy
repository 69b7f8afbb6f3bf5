/** The screen of kernel/arch/i386/tty.c as a 25-row window on an unbounded document. */
module Document {
  import opened ByteMemory

  const WIDTH := 80
  const HEIGHT := 25
  const CELLS := WIDTH * HEIGHT

  /** A VGA text cell: character in the low byte, colour in the high byte. */
  type cell = c: int | 0 <= c < 0x1_0000

  const LF: byte := 10
  const CR: byte := 13
  const TAB: byte := 9

  /** vga_entry. */
  function Entry(c: byte, color: byte): cell
  {
    c + 256 * color
  }

  // ----- What the driver does to its 2000 cells -----

  datatype Screen = Screen(cells: seq<cell>, row: nat, col: nat, color: byte)

  predicate ScreenOk(s: Screen)
  {
    |s.cells| == CELLS && s.row < HEIGHT && s.col < WIDTH
  }

  /** Every row moves up by one and the last becomes cells of value 0. */
  function ScrollUp(cells: seq<cell>): (r: seq<cell>)
    requires |cells| == CELLS
    ensures |r| == CELLS
  {
    cells[WIDTH..] + seq(WIDTH, _ => 0)
  }

  function NextLine(s: Screen): Screen
    requires ScreenOk(s)
  {
    if s.row + 1 >= HEIGHT then Screen(ScrollUp(s.cells), s.row, 0, s.color) else s.(row := s.row + 1, col := 0)
  }

  /** terminal_putchar on the screen. */
  function Put(s: Screen, c: byte): (s': Screen)
    requires ScreenOk(s)
    ensures ScreenOk(s')
  {
    if c == LF then NextLine(s)
    else if c == CR then s.(col := 0)
    else if c == TAB then if s.col + 4 >= WIDTH then NextLine(s) else s.(col := s.col + 4)
    else
      var s1 := s.(cells := s.cells[s.row * WIDTH + s.col := Entry(c, s.color)]);
      if s.col + 1 >= WIDTH then NextLine(s1) else s1.(col := s.col + 1)
  }

  function PutAll(s: Screen, text: seq<byte>): (s': Screen)
    requires ScreenOk(s)
    ensures ScreenOk(s')
    decreases |text|
  {
    if text == [] then s else PutAll(Put(s, text[0]), text[1..])
  }

  // ----- The document -----

  /** Rows that never scroll: row `row` is the one being written. */
  datatype Doc = Doc(rows: seq<seq<cell>>, row: nat, col: nat, color: byte)

  predicate DocOk(d: Doc)
  {
    && |d.rows| == (if d.row < HEIGHT then HEIGHT else d.row + 1)
    && (forall i :: 0 <= i < |d.rows| ==> |d.rows[i]| == WIDTH)
    && d.col < WIDTH
  }

  function ZeroRow(): seq<cell>
  {
    seq(WIDTH, _ => 0)
  }

  function DocNextLine(d: Doc): Doc
  {
    Doc(if d.row + 1 == |d.rows| then d.rows + [ZeroRow()] else d.rows, d.row + 1, 0, d.color)
  }

  /** The rows with `v` at the cursor. */
  function WithCell(d: Doc, v: cell): seq<seq<cell>>
    requires DocOk(d)
  {
    var line: seq<cell> := d.rows[d.row][d.col := v];
    d.rows[d.row := line]
  }

  function DocPut(d: Doc, c: byte): (d': Doc)
    requires DocOk(d)
    ensures DocOk(d')
  {
    if c == LF then DocNextLine(d)
    else if c == CR then d.(col := 0)
    else if c == TAB then if d.col + 4 >= WIDTH then DocNextLine(d) else d.(col := d.col + 4)
    else
      var d1 := d.(rows := WithCell(d, Entry(c, d.color)));
      if d.col + 1 >= WIDTH then DocNextLine(d1) else d1.(col := d.col + 1)
  }

  /** The first row on the screen. */
  function Top(d: Doc): nat
  {
    if d.row < HEIGHT then 0 else d.row - (HEIGHT - 1)
  }

  /** The 25 rows from Top, as the driver's state. */
  function Window(d: Doc): (s: Screen)
    requires DocOk(d)
    ensures ScreenOk(s)
  {
    Screen(seq(CELLS, i requires 0 <= i < CELLS => d.rows[Top(d) + i / WIDTH][i % WIDTH]), d.row - Top(d), d.col, d.color)
  }

  lemma NextLineRefines(d: Doc)
    requires DocOk(d)
    ensures DocOk(DocNextLine(d)) && Window(DocNextLine(d)) == NextLine(Window(d))
  {
    var s, s' := Window(d), Window(DocNextLine(d));
    forall i | 0 <= i < CELLS
      ensures s'.cells[i] == NextLine(s).cells[i]
    {
      assert i < CELLS - WIDTH ==> (i + WIDTH) / WIDTH == i / WIDTH + 1 && (i + WIDTH) % WIDTH == i % WIDTH;
    }
    assert s'.cells == NextLine(s).cells;
  }

  /** Writing a cell of the current row writes the cell of the window at the cursor. */
  lemma CellRefines(d: Doc, v: cell)
    requires DocOk(d)
    ensures var d' := d.(rows := WithCell(d, v));
            var s := Window(d);
            DocOk(d') && Window(d') == s.(cells := s.cells[s.row * WIDTH + s.col := v])
  {
  }

  /** One character: the driver, which scrolls, stays the window of the document, which does not. */
  lemma PutRefines(d: Doc, c: byte)
    requires DocOk(d)
    ensures Window(DocPut(d, c)) == Put(Window(d), c)
  {
    if c == LF || (c == TAB && d.col + 4 >= WIDTH) {
      NextLineRefines(d);
    } else if c != CR && c != TAB {
      CellRefines(d, Entry(c, d.color));
      if d.col + 1 >= WIDTH {
        NextLineRefines(d.(rows := WithCell(d, Entry(c, d.color))));
      }
    }
  }

  // ----- What each character does, cell by cell -----

  /** The cell in column `x` of row `y`; rows that were never reached are blank. */
  function CellAt(d: Doc, y: nat, x: nat): cell
    requires DocOk(d) && x < 80
  {
    if y < |d.rows| then d.rows[y][x] else 0
  }

  /** Line feed, carriage return and tabulator move the cursor and change no cell. */
  lemma ControlMoves(d: Doc, y: nat, x: nat)
    requires DocOk(d) && x < 80
    ensures var lf := DocPut(d, 10);
            lf.row == d.row + 1 && lf.col == 0 && lf.color == d.color && CellAt(lf, y, x) == CellAt(d, y, x)
    ensures var cr := DocPut(d, 13);
            cr.row == d.row && cr.col == 0 && cr.color == d.color && CellAt(cr, y, x) == CellAt(d, y, x)
    ensures var tab := DocPut(d, 9);
            && (if d.col + 4 < 80 then tab.row == d.row && tab.col == d.col + 4 else tab.row == d.row + 1 && tab.col == 0)
            && tab.color == d.color && CellAt(tab, y, x) == CellAt(d, y, x)
  {
  }

  /** Any other character is drawn at the cursor: its code in the low byte of the cell, the colour in
      the high byte. The cursor goes right, or to the start of the next row. */
  lemma PrintableDraws(d: Doc, c: byte, y: nat, x: nat)
    requires DocOk(d) && x < 80 && c != 10 && c != 13 && c != 9
    ensures var d' := DocPut(d, c);
            && (if d.col + 1 < 80 then d'.row == d.row && d'.col == d.col + 1 else d'.row == d.row + 1 && d'.col == 0)
            && d'.color == d.color
            && if y == d.row && x == d.col then CellAt(d', y, x) % 256 == c && CellAt(d', y, x) / 256 == d.color
               else CellAt(d', y, x) == CellAt(d, y, x)
  {
  }

  /** The screen shows 25 rows of 80 cells, down to the row being written. */
  lemma WindowShows(d: Doc, y: nat, x: nat)
    requires DocOk(d) && y < 25 && x < 80
    ensures var top := if d.row <= 24 then 0 else d.row - 24;
            && |Window(d).cells| == 2000 && Window(d).cells[80 * y + x] == CellAt(d, top + y, x)
            && Window(d).row == d.row - top && Window(d).col == d.col && Window(d).color == d.color
  {
    assert (80 * y + x) / WIDTH == y && (80 * y + x) % WIDTH == x;
  }

  /** After the clear loop every cell is a space in the colour of the terminal, the cursor at the top. */
  lemma BlankShows(color: byte, y: nat, x: nat)
    requires y < 25 && x < 80
    ensures var d := Blank(color);
            d.row == 0 && d.col == 0 && d.color == color && CellAt(d, y, x) % 256 == 32 && CellAt(d, y, x) / 256 == color
  {
  }

  /** What callers do to the terminal. */
  datatype Event = Char(c: byte) | Color(color: byte)

  function Drive(s: Screen, events: seq<Event>): (s': Screen)
    requires ScreenOk(s)
    ensures ScreenOk(s')
    decreases |events|
  {
    if events == [] then s
    else match events[0]
      case Char(c) => Drive(Put(s, c), events[1..])
      case Color(color) => Drive(s.(color := color), events[1..])
  }

  function DriveDoc(d: Doc, events: seq<Event>): (d': Doc)
    requires DocOk(d)
    ensures DocOk(d')
    decreases |events|
  {
    if events == [] then d
    else match events[0]
      case Char(c) => DriveDoc(DocPut(d, c), events[1..])
      case Color(color) => DriveDoc(d.(color := color), events[1..])
  }

  /** For every sequence of characters and colour changes, the screen is the window of the document. */
  lemma {:induction false} TerminalRefines(d: Doc, events: seq<Event>)
    requires DocOk(d)
    ensures Drive(Window(d), events) == Window(DriveDoc(d, events))
    decreases |events|
  {
    if events != [] {
      match events[0]
      case Char(c) =>
        PutRefines(d, c);
        TerminalRefines(DocPut(d, c), events[1..]);
      case Color(color) =>
        assert Window(d.(color := color)) == Window(d).(color := color);
        TerminalRefines(d.(color := color), events[1..]);
    }
  }

  /** The document after the clear loop of terminal_initialize. */
  function Blank(color: byte): (d: Doc)
    ensures DocOk(d)
  {
    Doc(seq(HEIGHT, _ => seq(WIDTH, _ => Entry(32, color))), 0, 0, color)
  }

  lemma DriveOne(d: Doc, e: Event, later: seq<Event>)
    requires DocOk(d)
    ensures DriveDoc(d, [e] + later) == DriveDoc(if e.Char? then DocPut(d, e.c) else d.(color := e.color), later)
  {
    assert ([e] + later)[1..] == later;
  }

  /** A colour change leaves all cells and the cursor alone, and the next character gets the colour. */
  lemma ColorChanges(d: Doc, color: byte, c: byte)
    requires DocOk(d) && c != 10 && c != 13 && c != 9
    ensures DriveDoc(d, [Color(color)] + []) == Doc(d.rows, d.row, d.col, color)
    ensures CellAt(DriveDoc(d, [Color(color)] + ([Char(c)] + [])), d.row, d.col) / 256 == color
  {
    var d1 := d.(color := color);
    DriveOne(d, Color(color), []);
    DriveOne(d, Color(color), [Char(c)] + []);
    DriveOne(d1, Char(c), []);
    PrintableDraws(d1, c, d.row, d.col);
  }

  // ----- What the document keeps -----

  /** A row once left is never written again: scrolling off is the only way text disappears. */
  lemma {:induction false} HistoryKept(d: Doc, events: seq<Event>, r: nat)
    requires DocOk(d) && r < d.row
    ensures d.row <= DriveDoc(d, events).row
    ensures DriveDoc(d, events).rows[r] == d.rows[r]
    decreases |events|
  {
    if events != [] {
      match events[0]
      case Char(c) => HistoryKept(DocPut(d, c), events[1..], r);
      case Color(color) => HistoryKept(d.(color := color), events[1..], r);
    }
  }

  function At(d: Doc, p: nat): cell
    requires DocOk(d) && p / WIDTH < |d.rows|
  {
    d.rows[p / WIDTH][p % WIDTH]
  }

  function Cursor(d: Doc): nat
  {
    d.row * WIDTH + d.col
  }

  predicate Printable(c: byte)
  {
    c != LF && c != CR && c != TAB
  }

  function Chars(text: seq<byte>): (r: seq<Event>)
    ensures |r| == |text|
  {
    seq(|text|, i requires 0 <= i < |text| => Char(text[i]))
  }

  lemma PrintableStep(d: Doc, c: byte)
    requires DocOk(d) && Printable(c)
    ensures var d' := DocPut(d, c);
            && Cursor(d') == Cursor(d) + 1 && d'.color == d.color
            && Cursor(d) / WIDTH == d.row && Cursor(d) % WIDTH == d.col
            && At(d', Cursor(d)) == Entry(c, d.color)
            && forall p: nat :: p / WIDTH < |d.rows| && p != Cursor(d) ==> At(d', p) == At(d, p)
  {
  }

  /** Text without control characters lands in consecutive cells from the cursor, wrapping over rows
      and never disturbing what is before it. */
  lemma {:induction false} TextLands(d: Doc, text: seq<byte>, p: nat)
    requires DocOk(d) && forall i :: 0 <= i < |text| ==> Printable(text[i])
    requires p < Cursor(d) + |text|
    ensures var d' := DriveDoc(d, Chars(text));
            && Cursor(d') == Cursor(d) + |text|
            && p / WIDTH < |d'.rows|
            && At(d', p) == if p < Cursor(d) then At(d, p) else Entry(text[p - Cursor(d)], d.color)
    decreases |text|
  {
    if text == [] {
    } else {
      var d1 := DocPut(d, text[0]);
      PrintableStep(d, text[0]);
      assert Chars(text)[1..] == Chars(text[1..]);
      TextLands(d1, text[1..], p);
    }
  }

  /** terminal_write shows the window of the document that its characters produce. */
  lemma {:induction false} WriteRefines(d: Doc, text: seq<byte>)
    requires DocOk(d)
    ensures PutAll(Window(d), text) == Window(DriveDoc(d, Chars(text)))
    decreases |text|
  {
    if text != [] {
      PutRefines(d, text[0]);
      assert Chars(text)[1..] == Chars(text[1..]);
      WriteRefines(DocPut(d, text[0]), text[1..]);
    }
  }
}
