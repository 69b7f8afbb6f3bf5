/** Where every character of a text goes: the terminal as a typewriter, told by positions. Position p is
    column p % 80 of row p / 80. */
module Placement {
  import opened Wrappers
  import opened ByteMemory
  import opened Document

  /** The position of the cursor after `text`: LF (10) goes to the start of the next row, CR (13) to the
      start of this one, TAB (9) four columns on or to the next row, anything else one position on. */
  function Position(p: nat, text: seq<byte>): nat
  {
    if text == [] then p
    else
      var q, c := Position(p, text[..|text| - 1]), text[|text| - 1];
      if c == 10 then 80 * (q / 80) + 80
      else if c == 13 then 80 * (q / 80)
      else if c == 9 && q % 80 < 76 then q + 4
      else if c == 9 then 80 * (q / 80) + 80
      else q + 1
  }

  /** The character that `text` leaves at position `at`: the last one drawn there. */
  function Drawn(p: nat, text: seq<byte>, at: nat): Option<byte>
  {
    if text == [] then None
    else
      var before, c := text[..|text| - 1], text[|text| - 1];
      if c != 10 && c != 13 && c != 9 && Position(p, before) == at then Some(c) else Drawn(p, before, at)
  }

  lemma {:induction false} DriveJoin(d: Doc, a: seq<Event>, b: seq<Event>)
    requires DocOk(d)
    ensures DriveDoc(d, a + b) == DriveDoc(DriveDoc(d, a), b)
    decreases |a|
  {
    if a == [] {
      assert a + b == b;
    } else {
      assert (a + b)[1..] == a[1..] + b;
      match a[0]
      case Char(c) => DriveJoin(DocPut(d, c), a[1..], b);
      case Color(color) => DriveJoin(d.(color := color), a[1..], b);
    }
  }

  /** A text is its beginning and one more character. */
  lemma DriveLast(d: Doc, text: seq<byte>)
    requires DocOk(d) && text != []
    ensures var before := text[..|text| - 1];
            DriveDoc(d, Chars(text)) == DocPut(DriveDoc(d, Chars(before)), text[|text| - 1])
  {
    var before, c := text[..|text| - 1], text[|text| - 1];
    assert Chars(text) == Chars(before) + [Char(c)];
    DriveJoin(d, Chars(before), [Char(c)]);
    assert [Char(c)][1..] == [];
  }

  /** The cell at a position. */
  function CellOf(d: Doc, at: nat): cell
    requires DocOk(d)
  {
    CellAt(d, at / 80, at % 80)
  }

  /** `drawn` has been put over the cell `was`. */
  predicate Over(was: cell, now: cell, drawn: Option<byte>, color: byte)
  {
    if drawn.Some? then now % 256 == drawn.value && now / 256 == color else now == was
  }

  /** Printing `text` turned `d` into `d'`: the cursor is where Position says, and the cell at `at` holds
      the last character drawn there in the colour of the terminal, or what it held before. */
  ghost predicate Placed(d: Doc, d': Doc, text: seq<byte>, at: nat)
  {
    && DocOk(d) && DocOk(d')
    && var p := 80 * d.row + d.col;
       80 * d'.row + d'.col == Position(p, text) && d'.color == d.color
       && Over(CellOf(d, at), CellOf(d', at), Drawn(p, text, at), d.color)
  }

  lemma PositionOne(p: nat, c: byte, at: nat)
    ensures Position(p, [c]) == if c == 10 then 80 * (p / 80) + 80
                                else if c == 13 then 80 * (p / 80)
                                else if c == 9 && p % 80 < 76 then p + 4
                                else if c == 9 then 80 * (p / 80) + 80
                                else p + 1
    ensures Drawn(p, [c], at) == if c != 10 && c != 13 && c != 9 && p == at then Some(c) else None
  {
    assert [c][..0] == [];
  }

  /** One character, by positions. */
  lemma PutAtPosition(d: Doc, c: byte, at: nat)
    requires DocOk(d)
    ensures Placed(d, DocPut(d, c), [c], at)
  {
    var p := 80 * d.row + d.col;
    PositionOne(p, c, at);
    RowColumn(d.row, d.col);
    assert at == p <==> at / 80 == d.row && at % 80 == d.col;
    if c == 10 || c == 13 || c == 9 {
      ControlMoves(d, at / 80, at % 80);
    } else {
      PrintableDraws(d, c, at / 80, at % 80);
    }
  }

  lemma PositionLast(p: nat, text: seq<byte>, at: nat)
    requires text != []
    ensures var before, c := text[..|text| - 1], text[|text| - 1];
            && Position(p, text) == Position(Position(p, before), [c])
            && Drawn(p, text, at) == if Drawn(Position(p, before), [c], at).Some? then Some(c) else Drawn(p, before, at)
    ensures var c := text[|text| - 1];
            Drawn(Position(p, text[..|text| - 1]), [c], at) in {None, Some(c)}
  {
    var c := text[|text| - 1];
    PositionOne(Position(p, text[..|text| - 1]), c, at);
  }

  lemma PlacedLast(d: Doc, d1: Doc, d': Doc, text: seq<byte>, at: nat)
    requires text != [] && Placed(d, d1, text[..|text| - 1], at) && Placed(d1, d', [text[|text| - 1]], at)
    ensures Placed(d, d', text, at)
  {
    PositionLast(80 * d.row + d.col, text, at);
  }

  lemma PlacedNothing(d: Doc, at: nat)
    requires DocOk(d)
    ensures Placed(d, d, [], at)
  {
  }

  /** Any text of any bytes is placed, at every position of the document. */
  lemma {:induction false} TextPlaced(d: Doc, text: seq<byte>, at: nat)
    requires DocOk(d)
    ensures Placed(d, DriveDoc(d, Chars(text)), text, at)
    decreases |text|
  {
    if text == [] {
      PlacedNothing(d, at);
    } else {
      var before, c := text[..|text| - 1], text[|text| - 1];
      var d1 := DriveDoc(d, Chars(before));
      TextPlaced(d, before, at);
      DriveLast(d, text);
      PutAtPosition(d1, c, at);
      PlacedLast(d, d1, DriveDoc(d, Chars(text)), text, at);
    }
  }

  // ----- Texts without carriage return: nothing is overwritten -----

  lemma {:induction false} PositionGrows(p: nat, text: seq<byte>, k: nat)
    requires k <= |text| && 13 !in text
    ensures Position(p, text[..k]) + (|text| - k) <= Position(p, text)
    decreases |text|
  {
    if k < |text| {
      var before := text[..|text| - 1];
      assert before[..k] == text[..k];
      PositionGrows(p, before, k);
    } else {
      assert text[..k] == text;
    }
  }

  /** Every character that is drawn stays, at the position the cursor had. */
  lemma {:induction false} DrawnStays(p: nat, text: seq<byte>, k: nat)
    requires k < |text| && 13 !in text && text[k] != 10 && text[k] != 9
    ensures Drawn(p, text, Position(p, text[..k])) == Some(text[k])
    decreases |text|
  {
    var before := text[..|text| - 1];
    if k < |text| - 1 {
      assert before[..k] == text[..k];
      PositionGrows(p, before, k);
      DrawnStays(p, before, k);
    }
  }

  /** From the start of a row, character `i` of a line stands in column `i` of that row. */
  lemma {:induction false} LinePosition(p: nat, line: seq<byte>, i: nat)
    requires p % 80 == 0 && i <= |line| && forall j :: 0 <= j < i ==> line[j] != 10 && line[j] != 13 && line[j] != 9
    ensures Position(p, line[..i]) == p + i
    ensures i < 80 ==> Position(p, line[..i]) / 80 == p / 80 && Position(p, line[..i]) % 80 == i
    decreases i
  {
    if i > 0 {
      assert line[..i][..i - 1] == line[..i - 1];
      LinePosition(p, line, i - 1);
    }
  }

  lemma {:induction false} PositionJoin(p: nat, a: seq<byte>, b: seq<byte>)
    ensures Position(p, a + b) == Position(Position(p, a), b)
    decreases |b|
  {
    if b == [] {
      assert a + b == a;
    } else {
      assert (a + b)[..|a + b| - 1] == a + b[..|b| - 1];
      PositionJoin(p, a, b[..|b| - 1]);
    }
  }

  /** A text of several lines, from the start of a row: `lines` and a line feed after each. */
  function LinesText(lines: seq<seq<byte>>): seq<byte>
  {
    if lines == [] then [] else LinesText(lines[..|lines| - 1]) + lines[|lines| - 1] + [10]
  }

  predicate Line(line: seq<byte>)
  {
    |line| < 80 && forall j :: 0 <= j < |line| ==> line[j] != 10 && line[j] != 13 && line[j] != 9
  }

  predicate Lines(lines: seq<seq<byte>>)
  {
    forall j :: 0 <= j < |lines| ==> Line(lines[j])
  }

  /** One more line takes one more row. */
  lemma RowPosition(p: nat, head: seq<byte>, line: seq<byte>, q: nat)
    requires Position(p, head) == q && q % 80 == 0 && Line(line)
    ensures Position(p, head + line + [10]) == q + 80
  {
    PositionJoin(p, head + line, [10]);
    PositionJoin(p, head, line);
    assert line[..|line|] == line;
    LinePosition(q, line, |line|);
    PositionOne(q + |line|, 10, 0);
  }

  /** Each line takes one row. */
  lemma {:induction false} RowsPosition(p: nat, lines: seq<seq<byte>>)
    requires p % 80 == 0 && Lines(lines)
    ensures Position(p, LinesText(lines)) == p + 80 * |lines| && 13 !in LinesText(lines)
    decreases |lines|
  {
    if lines != [] {
      var before, line := lines[..|lines| - 1], lines[|lines| - 1];
      RowsPosition(p, before);
      RowPosition(p, LinesText(before), line, p + 80 * |before|);
    }
  }

  /** LinesText(lines) with line `r` picked out. */
  lemma {:induction false} LinesSplit(lines: seq<seq<byte>>, r: nat)
    requires r < |lines|
    ensures LinesText(lines[..r]) + lines[r] + [10] <= LinesText(lines)
    decreases |lines|
  {
    var before := lines[..|lines| - 1];
    if r == |lines| - 1 {
      assert lines[..r] == before;
    } else {
      assert before[..r] == lines[..r];
      LinesSplit(before, r);
    }
  }

  /** A line inside a text, at the start of a row. */
  lemma LineDrawn(p: nat, text: seq<byte>, head: seq<byte>, line: seq<byte>, q: nat, i: nat)
    requires 13 !in text && head + line + [10] <= text && Position(p, head) == q && q % 80 == 0
    requires Line(line) && i < |line|
    ensures Drawn(p, text, q + i) == Some(line[i])
  {
    PrefixParts(text, head, line, i);
    PositionJoin(p, head, line[..i]);
    LinePosition(q, line, i);
    DrawnStays(p, text, |head| + i);
  }

  /** Where character `i` of line `r` is drawn. */
  lemma LinesDrawn(p: nat, lines: seq<seq<byte>>, r: nat, i: nat)
    requires p % 80 == 0 && r < |lines| && i < |lines[r]| && Lines(lines)
    ensures Drawn(p, LinesText(lines), p + 80 * r + i) == Some(lines[r][i])
  {
    var first, text := lines[..r], LinesText(lines);
    assert Lines(first) && Line(lines[r]);
    LinesSplit(lines, r);
    RowsPosition(p, first);
    var head, q := LinesText(first), p + 80 * r;
    assert Position(p, head) == q && q % 80 == 0;
    RowsPosition(p, lines);
    LineDrawn(p, text, head, lines[r], q, i);
  }

  lemma PrefixParts(text: seq<byte>, head: seq<byte>, line: seq<byte>, i: nat)
    requires head + line + [10] <= text && i < |line|
    ensures |head| + i < |text| && text[..|head| + i] == head + line[..i] && text[|head| + i] == line[i]
  {
  }

  /** A text of several lines printed from the start of a row: character `i` of line `r` stands in column
      `i` of the `r`-th row from there, in the colour of the terminal. */
  lemma LinesPlaced(d: Doc, lines: seq<seq<byte>>, r: nat, i: nat)
    requires DocOk(d) && d.col == 0 && r < |lines| && i < |lines[r]| < 80
    requires Lines(lines)
    ensures var d' := DriveDoc(d, Chars(LinesText(lines)));
            && d'.row == d.row + |lines| && d'.col == 0
            && CellAt(d', d.row + r, i) % 256 == lines[r][i] && CellAt(d', d.row + r, i) / 256 == d.color
  {
    LinesDrawn(80 * d.row, lines, r, i);
    RowsPosition(80 * d.row, lines);
    TextCell(d, LinesText(lines), d.row + |lines|, d.row + r, i, lines[r][i]);
  }

  lemma TextCell(d: Doc, text: seq<byte>, n: nat, y: nat, x: nat, c: byte)
    requires DocOk(d) && d.col == 0 && x < 80
    requires Position(80 * d.row, text) == 80 * n && Drawn(80 * d.row, text, 80 * y + x) == Some(c)
    ensures var d' := DriveDoc(d, Chars(text));
            && d'.row == n && d'.col == 0
            && CellAt(d', y, x) % 256 == c && CellAt(d', y, x) / 256 == d.color
  {
    TextPlaced(d, text, 80 * y + x);
    PlacedCell(d, DriveDoc(d, Chars(text)), text, y, x, c);
  }

  lemma PlacedCell(d: Doc, d': Doc, text: seq<byte>, y: nat, x: nat, c: byte)
    requires x < 80 && Placed(d, d', text, 80 * y + x) && Drawn(80 * d.row + d.col, text, 80 * y + x) == Some(c)
    ensures CellAt(d', y, x) % 256 == c && CellAt(d', y, x) / 256 == d.color
    ensures Position(80 * d.row + d.col, text) % 80 == 0 ==>
              d'.col == 0 && d'.row == Position(80 * d.row + d.col, text) / 80
  {
    RowColumn(y, x);
    RowColumn(d'.row, d'.col);
    assert CellAt(d', y, x) == CellOf(d', 80 * y + x);
  }

  lemma RowColumn(y: nat, x: nat)
    requires x < 80
    ensures (80 * y + x) / 80 == y && (80 * y + x) % 80 == x
  {
  }
}
