/** Board positions. A position is named by a two-character token `<file><rank>`, file `a`..`i`
    and rank `0`..`9`, the vocabulary of move commands. On screen it sits at row `10 - rank`
    (1..10, top to bottom) and column `file - 'a' + 1` (1..9). */
module Positions {
  import opened Text

  predicate IsFile(c: char)
  {
    'a' <= c <= 'i'
  }

  /** `chr(col + 96)`: column 1 is file `a`. Columns past 9 give the letters after `i`. */
  function FileChar(col: nat): (c: char)
    requires col + 96 < 0xD800
  {
    (col + 96) as char
  }

  /** `f'{chr(col + 96)}{row_digit}'`, the position name the line handler and the snapshot
      loader give to the cell in column `col` of the row labelled `rowDigit`. */
  function PosName(col: nat, rowDigit: char): (p: string)
    requires col + 96 < 0xD800
    ensures |p| == 2 && p[1] == rowDigit
  {
    [FileChar(col), rowDigit]
  }

  /** A board coordinate: row 1..10 from the top, column 1..9 from the left. */
  datatype RowCol = RowCol(row: int, col: int)

  /** `_cmd_to_rowcol`: the screen coordinate of a position name, or `None` for a malformed one. */
  function CmdToRowCol(cmd: string): (r: Option<RowCol>)
    ensures r.Some? <==> |cmd| == 2 && IsFile(cmd[0]) && IsAsciiDigit(cmd[1])
    ensures r.Some? ==> 1 <= r.value.row <= 10 && 1 <= r.value.col <= 9
    ensures r.Some? ==> r.value.col == cmd[0] as int - 'a' as int + 1
    ensures r.Some? ==> r.value.row == 10 - (cmd[1] as int - '0' as int)
  {
    if |cmd| != 2 then None
    else if !IsFile(cmd[0]) || !IsAsciiDigit(cmd[1]) then None
    else Some(RowCol(10 - DigitValue(cmd[1]), cmd[0] as int - 'a' as int + 1))
  }

  /** Naming a column and rank, then decoding the name, gives back the column and the row. */
  lemma NameThenDecode(col: int, rank: int)
    requires 1 <= col <= 9 && 0 <= rank <= 9
    ensures CmdToRowCol(PosName(col, DigitChar(rank))) == Some(RowCol(10 - rank, col))
  {
  }

  /** Decoding a well-formed name, then naming the result, gives back the name. */
  lemma DecodeThenName(cmd: string)
    requires CmdToRowCol(cmd).Some?
    ensures var rc := CmdToRowCol(cmd).value;
      PosName(rc.col, DigitChar(10 - rc.row)) == cmd
  {
    var rc := CmdToRowCol(cmd).value;
    assert FileChar(rc.col) == cmd[0];
    assert DigitChar(10 - rc.row) == cmd[1];
  }

  /** The position the snapshot loader visits at step `k`: ranks go from 9 down to 0, and inside
      a rank columns go from 1 to 9. */
  function VisitAt(k: nat): string
    requires k < 90
  {
    PosName(k % 9 + 1, DigitChar(9 - k / 9))
  }

  /** The first `k` positions the loader visits. */
  function Visited(k: nat): (ps: seq<string>)
    requires k <= 90
    ensures |ps| == k
  {
    if k == 0 then [] else Visited(k - 1) + [VisitAt(k - 1)]
  }

  /** All 90 position names in visiting order. */
  function AllPositions(): (ps: seq<string>)
    ensures |ps| == 90
  {
    Visited(PositionCount)
  }

  /** Nine files by ten ranks. */
  const PositionCount: nat := 90

  lemma {:induction false} VisitedIndex(k: nat, j: nat)
    requires j < k <= 90
    ensures Visited(k)[j] == VisitAt(j)
    decreases k
  {
    if j < k - 1 {
      VisitedIndex(k - 1, j);
    }
  }

  /** Step `k` of the visit is the position `AllPositions()[k]`. */
  lemma AllPositionsIndex(k: nat)
    requires k < 90
    ensures AllPositions()[k] == VisitAt(k)
  {
    VisitedIndex(PositionCount, k);
  }

  /** The position visited at step `k` of the loader's nested loop over ranks and columns. */
  lemma AllPositionsAt(rank: int, col: int)
    requires 0 <= rank <= 9 && 1 <= col <= 9
    ensures var k := (9 - rank) * 9 + (col - 1);
      0 <= k < 90 && VisitAt(k) == PosName(col, DigitChar(rank)) && AllPositions()[k] == VisitAt(k)
  {
    var k := (9 - rank) * 9 + (col - 1);
    assert k / 9 == 9 - rank && k % 9 == col - 1;
    AllPositionsIndex(k);
  }

  /** The visiting order names every well-formed position exactly once, and nothing else. */
  lemma AllPositionsExactlyOnce(cmd: string)
    ensures cmd in AllPositions() <==> CmdToRowCol(cmd).Some?
    ensures forall j, k :: 0 <= j < k < 90 ==> AllPositions()[j] != AllPositions()[k]
  {
    var ps := AllPositions();
    if CmdToRowCol(cmd).Some? {
      var rc := CmdToRowCol(cmd).value;
      AllPositionsAt(10 - rc.row, rc.col);
      DecodeThenName(cmd);
    }
    if cmd in ps {
      var k :| 0 <= k < 90 && ps[k] == cmd;
      AllPositionsIndex(k);
    }
    forall j, k | 0 <= j < k < 90 ensures ps[j] != ps[k] {
      AllPositionsIndex(j);
      AllPositionsIndex(k);
      if j / 9 == k / 9 {
        assert j % 9 != k % 9;
        assert ps[j][0] != ps[k][0];
      } else {
        assert DigitChar(9 - j / 9) != DigitChar(9 - k / 9);
        assert ps[j][1] != ps[k][1];
      }
    }
  }
}
