/** Decoding one board row printed by the engine (gui.py:802-841), and the board-row test used
    by the reader's print filter (gui.py:756-760). A row is printed as its rank digit, a space and
    one glyph per column; a red piece's glyph is wrapped in `ANSI_RED` ... `ANSI_RESET`. */
module RowParser {
  import opened Text
  import opened Ansi

  /** One decoded column: the glyph and whether it was coloured red. */
  datatype Cell = Cell(glyph: char, isRed: bool)

  /** `row_digit`: the first character of the stripped line. */
  function RowDigit(rawLine: string): char
    requires Strip(rawLine) != []
  {
    Strip(rawLine)[0]
  }

  /** `rest`: what follows the row digit, without its leading whitespace. */
  function RowRest(rawLine: string): string
    requires Strip(rawLine) != []
  {
    LStrip(Strip(rawLine)[1..])
  }

  /** One pass of the scanning loop of `parse_row_cells` at the front of the unscanned text `t`:
      the cells it appends (none or one) and how many characters it consumes.
      - whitespace: nothing, one character;
      - `ANSI_RED`: the next character as a red cell, then an immediately following `ANSI_RESET`;
      - any other escape: nothing, through the next `m` (or one character if there is none);
      - anything else: the character as a black cell. */
  function CellStep(t: string): (r: (seq<Cell>, nat))
    requires t != []
    ensures 1 <= r.1 <= |t| && |r.0| <= 1
  {
    if IsSpace(t[0]) then ([], 1)
    else if StartsWith(t, Red) then
      if |t| == |Red| then ([], |Red|)
      else ([Cell(t[|Red|], true)], if StartsWith(t[|Red| + 1..], Reset) then |Red| + 1 + |Reset| else |Red| + 1)
    else if t[0] == Esc then
      match IndexOf(t, 'm')
      case Some(k) => ([], k + 1)
      case None => ([], 1)
    else ([Cell(t[0], false)], 1)
  }

  /** The cells the scanning loop appends for the whole text `t`; never more cells than
      characters. */
  function RowCells(t: string): (cells: seq<Cell>)
    ensures |cells| <= |t|
    decreases |t|
  {
    if t == [] then []
    else
      var step := CellStep(t);
      step.0 + RowCells(t[step.1..])
  }

  /** `parse_row_cells`: the row digit is the line's first non-space character, and the cells
      are those `RowCells` describes for the rest of the line. */
  method ParseRowCells(rawLine: string) returns (rowDigit: char, cells: seq<Cell>)
    requires Strip(rawLine) != []
    ensures var k := |rawLine| - |LStrip(rawLine)|;
      && k < |rawLine| && rawLine[k] == rowDigit && !IsSpace(rowDigit)
      && (forall i :: 0 <= i < k ==> IsSpace(rawLine[i]))
    ensures rowDigit == RowDigit(rawLine) && cells == RowCells(RowRest(rawLine))
  {
    var s := Strip(rawLine);
    StripShape(rawLine);
    rowDigit := s[0];
    var rest := LStrip(s[1..]);
    cells := ScanCells(rest);
  }

  /** The scanning loop of `parse_row_cells` over `rest`. */
  method ScanCells(rest: string) returns (cells: seq<Cell>)
    ensures cells == RowCells(rest)
  {
    cells := [];
    var i := 0;
    while i < |rest|
      invariant 0 <= i <= |rest|
      invariant cells + RowCells(rest[i..]) == RowCells(rest)
      decreases |rest| - i
    {
      var emitted, next := ScanStep(rest, i);
      RowCellsStep(rest, i, emitted, next);
      Associative(cells, emitted, RowCells(rest[next..]));
      cells, i := cells + emitted, next;
    }
  }

  /** One pass of the loop peels one step off the description of the unscanned text. */
  lemma RowCellsStep(rest: string, i: nat, emitted: seq<Cell>, next: nat)
    requires i < next <= |rest| && (emitted, next - i) == CellStep(rest[i..])
    ensures RowCells(rest[i..]) == emitted + RowCells(rest[next..])
  {
    assert rest[i..][next - i..] == rest[next..];
  }

  /** The body of the scanning loop at index `i`: the cells it appends and where it resumes. */
  method ScanStep(rest: string, i: nat) returns (emitted: seq<Cell>, next: nat)
    requires i < |rest|
    ensures i < next <= |rest| && (emitted, next - i) == CellStep(rest[i..])
  {
    ghost var t := rest[i..];
    emitted := [];
    if IsSpace(rest[i]) {
      next := i + 1;
    } else if StartsWith(rest[i..], Red) {
      next := i + |Red|;
      if next < |rest| {
        emitted := [Cell(rest[next], true)];
        next := next + 1;
        assert t[|Red| + 1..] == rest[next..];
      }
      if StartsWith(rest[next..], Reset) {
        next := next + |Reset|;
      }
    } else if rest[i] == Esc {
      var m := IndexOf(rest[i..], 'm');
      next := if m.Some? then i + m.value + 1 else i + 1;
    } else {
      emitted := [Cell(rest[i], false)];
      next := i + 1;
    }
  }

  /** Reference reading of an uncoloured row: every non-space character is a black cell. */
  function BlackCells(t: string): (cells: seq<Cell>)
  {
    if t == [] then []
    else if IsSpace(t[0]) then BlackCells(t[1..])
    else [Cell(t[0], false)] + BlackCells(t[1..])
  }

  /** Without escapes, the scanner reads exactly the reference black cells. */
  lemma {:induction false} RowCellsPlain(t: string)
    requires NoEsc(t)
    ensures RowCells(t) == BlackCells(t)
    decreases |t|
  {
    if t != [] {
      assert !StartsWith(t, Red) by { assert t[0] != Red[0]; }
      RowCellsPlain(t[1..]);
    }
  }

  /** `ANSI_RED` + glyph + `ANSI_RESET` reads as one red cell, whatever the glyph is. */
  lemma RowCellsRedGlyph(c: char, t: string)
    ensures RowCells(Red + [c] + Reset + t) == [Cell(c, true)] + RowCells(t)
  {
    var s := Red + [c] + Reset + t;
    assert StartsWith(s, Red) by { assert s[..|Red|] == Red; }
    assert s[|Red|..] == [c] + Reset + t;
    assert ([c] + Reset + t)[1..] == Reset + t;
    assert StartsWith(Reset + t, Reset) by { assert (Reset + t)[..|Reset|] == Reset; }
    assert (Reset + t)[|Reset|..] == t;
  }

  /** A red glyph without the closing reset is still one red cell. */
  lemma RowCellsRedUnclosed(c: char, t: string)
    requires !StartsWith(t, Reset)
    ensures RowCells(Red + [c] + t) == [Cell(c, true)] + RowCells(t)
  {
    var s := Red + [c] + t;
    assert StartsWith(s, Red) by { assert s[..|Red|] == Red; }
    assert s[|Red|..] == [c] + t;
    assert ([c] + t)[1..] == t;
  }

  /** A red escape at the very end of the line yields no cell. */
  lemma RowCellsRedAtEnd()
    ensures RowCells(Red) == []
  {
    assert StartsWith(Red, Red);
    assert Red[|Red|..] == [];
  }

  /** Any other SGR sequence is skipped through its `m` and yields nothing. */
  lemma RowCellsOtherSgr(params: string, t: string)
    requires forall i :: 0 <= i < |params| ==> IsParamChar(params[i])
    requires params != "31"
    ensures RowCells(Sgr(params) + t) == RowCells(t)
  {
    var s := Sgr(params) + t;
    CellStepOtherSgr(params, t);
    assert s[|params| + 3..] == t;
  }

  lemma CellStepOtherSgr(params: string, t: string)
    requires forall i :: 0 <= i < |params| ==> IsParamChar(params[i])
    requires params != "31"
    ensures CellStep(Sgr(params) + t) == ([], |params| + 3)
  {
    var s := Sgr(params) + t;
    assert s == [Esc, '['] + params + ("m" + t);
    NotRedSgr(params, t);
    var k := |params| + 2;
    assert s[k] == 'm';
    assert forall i :: 0 <= i < k ==> s[i] != 'm';
    assert IndexOf(s, 'm') == Some(k);
  }

  lemma NotRedSgr(params: string, t: string)
    requires forall i :: 0 <= i < |params| ==> IsParamChar(params[i])
    requires params != "31"
    ensures !StartsWith(Sgr(params) + t, Red)
  {
    var s := Sgr(params) + t;
    assert s == [Esc, '['] + params + ("m" + t);
    if |s| >= |Red| {
      var j := if |params| == 0 then 2 else if |params| == 1 then 3
               else if |params| == 2 then (if params[0] != '3' then 2 else 3) else 4;
      assert s[j] != Red[j];
      assert s[..|Red|][j] == s[j];
    }
  }

  /** An escape with no `m` anywhere after it is skipped by one character. */
  lemma RowCellsEscWithoutM(t: string)
    requires forall i :: 0 <= i < |t| ==> t[i] != 'm'
    ensures RowCells([Esc] + t) == RowCells(t)
  {
    var s := [Esc] + t;
    CellStepEscWithoutM(t);
    assert s[1..] == t;
  }

  lemma CellStepEscWithoutM(t: string)
    requires forall i :: 0 <= i < |t| ==> t[i] != 'm'
    ensures CellStep([Esc] + t) == ([], 1)
  {
    var s := [Esc] + t;
    if |s| >= |Red| {
      assert s[4] == t[3];
      assert s[..|Red|][4] != Red[4];
    }
    forall i | 0 <= i < |s| ensures s[i] != 'm' {
      if i > 0 { assert s[i] == t[i - 1]; }
    }
    assert IndexOf(s, 'm').None?;
  }

  /** How the engine prints a row's cells: red glyphs wrapped in `ANSI_RED`/`ANSI_RESET`, black
      glyphs as they are. */
  function EncodeCells(cells: seq<Cell>): string
  {
    if cells == [] then ""
    else
      (if cells[0].isRed then Red + [cells[0].glyph] + Reset else [cells[0].glyph])
      + EncodeCells(cells[1..])
  }

  /** Black glyphs that the scanner can read back: not whitespace and not an escape. */
  predicate Printable(cells: seq<Cell>)
  {
    forall i :: 0 <= i < |cells| ==> !cells[i].isRed ==> !IsSpace(cells[i].glyph) && cells[i].glyph != Esc
  }

  /** The scanner reads back every printed row of cells. */
  lemma {:induction false} RowCellsOfEncode(cells: seq<Cell>)
    requires Printable(cells)
    ensures RowCells(EncodeCells(cells)) == cells
  {
    if cells != [] {
      var c := cells[0];
      var t := EncodeCells(cells[1..]);
      assert Printable(cells[1..]) by {
        forall i | 0 <= i < |cells[1..]| ensures !cells[1..][i].isRed ==> !IsSpace(cells[1..][i].glyph) && cells[1..][i].glyph != Esc {
          assert cells[1..][i] == cells[i + 1];
        }
      }
      RowCellsOfEncode(cells[1..]);
      if c.isRed {
        RowCellsRedGlyph(c.glyph, t);
      } else {
        var s := [c.glyph] + t;
        assert !StartsWith(s, Red) by { assert s[0] != Red[0]; }
        assert s[1..] == t;
      }
      assert cells == [c] + cells[1..];
    }
  }

  /** A printed row never ends in whitespace. */
  lemma EncodeCellsEdges(cells: seq<Cell>)
    requires Printable(cells) && cells != []
    ensures var e := EncodeCells(cells); e != [] && !IsSpace(e[0]) && !IsSpace(e[|e| - 1])
    decreases |cells|
  {
    var e := EncodeCells(cells);
    var head := if cells[0].isRed then Red + [cells[0].glyph] + Reset else [cells[0].glyph];
    assert e == head + EncodeCells(cells[1..]);
    assert !IsSpace(head[0]);
    if cells[1..] == [] {
      assert EncodeCells(cells[1..]) == "";
      assert e == head;
      assert head[|head| - 1] == (if cells[0].isRed then 'm' else cells[0].glyph);
    } else {
      assert Printable(cells[1..]) by {
        forall i | 0 <= i < |cells[1..]| ensures !cells[1..][i].isRed ==> !IsSpace(cells[1..][i].glyph) && cells[1..][i].glyph != Esc {
          assert cells[1..][i] == cells[i + 1];
        }
      }
      EncodeCellsEdges(cells[1..]);
    }
  }

  /** A whole printed board row, `<digit> <cells>`, decodes to its digit and its cells. */
  lemma ParseOfPrintedRow(d: char, cells: seq<Cell>)
    requires !IsSpace(d) && Printable(cells)
    ensures var line := [d] + " " + EncodeCells(cells);
      Strip(line) != [] && RowDigit(line) == d && RowCells(RowRest(line)) == cells
  {
    var e := EncodeCells(cells);
    var line := [d] + " " + e;
    if cells == [] {
      PrintedEmptyRow(d);
      assert e == [];
    } else {
      PrintedRowRest(d, e, cells);
    }
    assert RowRest(line) == e;
    RowCellsOfEncode(cells);
  }

  lemma PrintedEmptyRow(d: char)
    requires !IsSpace(d)
    ensures var line := [d] + " " + EncodeCells([]);
      Strip(line) == [d] && RowRest(line) == []
  {
    var line := [d] + " " + EncodeCells([]);
    assert line == [d, ' '];
    assert line[..1] == [d];
    assert RStrip(line) == [d];
    assert LStrip(line) == line;
    assert [d][1..] == [];
  }

  lemma PrintedRowRest(d: char, e: string, cells: seq<Cell>)
    requires !IsSpace(d) && Printable(cells) && cells != [] && e == EncodeCells(cells)
    ensures var line := [d] + " " + e;
      line != [] && Strip(line) == line && RowDigit(line) == d && RowRest(line) == e
  {
    EncodeCellsEdges(cells);
    RowOfEdges(d, e, [d] + " " + e);
  }

  /** `<digit> <text>` with non-space ends: the digit and the text come back unchanged. */
  lemma RowOfEdges(d: char, e: string, line: string)
    requires !IsSpace(d) && e != [] && !IsSpace(e[0]) && !IsSpace(e[|e| - 1])
    requires line == [d] + " " + e
    ensures line != [] && Strip(line) == line && RowDigit(line) == d && RowRest(line) == e
  {
    assert line[0] == d;
    assert line[|line| - 1] == e[|e| - 1];
    StripNoEdges(line);
    assert line[1..] == " " + e;
    LStripSpace(e);
  }

  lemma LStripSpace(e: string)
    requires e != [] && !IsSpace(e[0])
    ensures LStrip(" " + e) == e
  {
    assert (" " + e)[1..] == e;
  }

  /** An uncoloured printed row reads as one black cell per glyph, in order. */
  lemma PlainRow(d: char, glyphs: string)
    requires !IsSpace(d) && glyphs != [] && NoSpace(glyphs) && NoEsc(glyphs)
    ensures var line := [d] + " " + glyphs;
      Strip(line) != [] && RowDigit(line) == d
      && RowCells(RowRest(line)) == BlackCells(glyphs)
      && |RowCells(RowRest(line))| == |glyphs|
      && forall i :: 0 <= i < |glyphs| ==> RowCells(RowRest(line))[i] == Cell(glyphs[i], false)
  {
    RowOfEdges(d, glyphs, [d] + " " + glyphs);
    RowCellsPlain(glyphs);
    BlackCellsNoSpace(glyphs);
  }

  /** Scenario: the top row of the opening position, all black pieces, nine cells in order. */
  lemma TopRowScenario(glyphs: string)
    requires glyphs == "车马象士帅士象马车"
    ensures var line := "9 " + glyphs;
      Strip(line) != [] && RowDigit(line) == '9'
    ensures var cells := RowCells(RowRest("9 " + glyphs));
      |cells| == 9 && cells[0] == Cell('车', false) && cells[4] == Cell('帅', false) && cells[8] == Cell('车', false)
  {
    TopRowGlyphs(glyphs);
    assert "9 " + glyphs == ['9'] + " " + glyphs;
    PlainRow('9', glyphs);
  }

  lemma TopRowGlyphs(glyphs: string)
    requires glyphs == "车马象士帅士象马车"
    ensures glyphs != [] && NoSpace(glyphs) && NoEsc(glyphs)
    ensures |glyphs| == 9 && glyphs[0] == '车' && glyphs[4] == '帅' && glyphs[8] == '车'
  {
    CjkGlyphs(glyphs);
  }

  /** Glyphs from the CJK unified ideographs block are neither whitespace nor escapes. */
  lemma CjkGlyphs(glyphs: string)
    requires forall i :: 0 <= i < |glyphs| ==> '\U{4e00}' <= glyphs[i] <= '\U{9fff}'
    ensures NoSpace(glyphs) && NoEsc(glyphs)
  {
  }

  lemma BlackCellsNoSpace(t: string)
    requires NoSpace(t)
    ensures |BlackCells(t)| == |t|
    ensures forall i :: 0 <= i < |t| ==> BlackCells(t)[i] == Cell(t[i], false)
    decreases |t|
  {
    if t != [] {
      BlackCellsNoSpace(t[1..]);
    }
  }

  /** `is_board_row`: after stripping, an ASCII digit followed by whitespace. */
  predicate IsBoardRow(line: string)
  {
    var s := Strip(line);
    |s| >= 2 && IsAsciiDigit(s[0]) && IsSpace(s[1])
  }

  /** A score line made only of digits, such as `3696`, is never a board row, although it starts
      with a digit as the line handler's own test asks. */
  lemma ScoreLineIsNotBoardRow(line: string)
    requires forall i :: 0 <= i < |line| ==> IsAsciiDigit(line[i])
    ensures !IsBoardRow(line)
  {
    assert line == [] || (!IsSpace(line[0]) && !IsSpace(line[|line| - 1]));
    StripNoEdges(line);
  }

  /** Every printed row with at least one cell passes the board-row test. */
  lemma PrintedRowIsBoardRow(d: char, cells: seq<Cell>)
    requires IsAsciiDigit(d) && Printable(cells) && cells != []
    ensures IsBoardRow([d] + " " + EncodeCells(cells))
  {
    var e := EncodeCells(cells);
    EncodeCellsEdges(cells);
    RowOfEdges(d, e, [d] + " " + e);
  }
}
