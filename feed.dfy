/** The line handler of `Board.draw` (gui.py:397-517) with the drawing removed: what one line of
    engine output does to the front end's state, and the fold of that step over a sequence of
    lines, which stands for the reader thread feeding the queue. */
module Feed {
  import opened Text
  import opened Ansi
  import opened Positions
  import opened Captures
  import opened RowParser
  import opened EngineLines
  import opened Snapshots

  /** `CHESS_NAMES` (gui.py:20-21): the glyphs drawn as pieces, `暗` being a piece still face down. */
  const ChessNames: set<char> := {'车', '马', '炮', '象', '士', '兵', '帅', '俥', '傌', '相', '仕', '卒', '将', '暗'}

  /** The fullwidth full stop the engine prints for an empty point. */
  const EmptyDot: char := '．'

  /** The prefixes of the engine's two capture summaries. */
  const PlayerPrefix: string := "玩家吃子"
  const AiPrefix: string := "电脑吃子"

  /** The two results the handler records. */
  const RedWins: string := "红方胜利！"
  const BlackWins: string := "黑方胜利！"

  /** How long the check hint stays up, in milliseconds. */
  const HintMillis: int := 2000

  /** The line lengths the model covers: `chr(col + 96)` must stay below the surrogate range for
      every column a line can reach. */
  predicate LineFits(line: string)
  {
    |line| < 0xD000
  }

  /** A cell the placement loop keeps, advancing the column: the empty dot or a piece glyph. */
  predicate Kept(c: Cell)
  {
    c.glyph == EmptyDot || c.glyph in ChessNames
  }

  function KeptCells(cells: seq<Cell>): (k: seq<Cell>)
    ensures |k| <= |cells| && forall j :: 0 <= j < |k| ==> Kept(k[j])
  {
    if cells == [] then []
    else (if Kept(cells[0]) then [cells[0]] else []) + KeptCells(cells[1..])
  }

  /** The empty point one cell in column `col` records: one exactly for the empty dot. */
  function CellDots(c: Cell, d: char, col: nat): seq<string>
    requires col + 96 < 0xD800
  {
    if c.glyph == EmptyDot then [PosName(col, d)] else []
  }

  /** The piece one cell in column `col` records: one exactly for a piece glyph. */
  function CellPieces(c: Cell, d: char, col: nat): seq<Piece>
    requires col + 96 < 0xD800
  {
    if c.glyph != EmptyDot && c.glyph in ChessNames then [Piece(PosName(col, d), [c.glyph], c.isRed)] else []
  }

  /** The empty points the placement loop records for `cells`, starting at column `col`. */
  function DotsOf(cells: seq<Cell>, d: char, col: nat): seq<string>
    requires col + |cells| + 96 < 0xD800
    decreases |cells|
  {
    if cells == [] then []
    else CellDots(cells[0], d, col) + DotsOf(cells[1..], d, if Kept(cells[0]) then col + 1 else col)
  }

  /** The pieces the placement loop records for `cells`, starting at column `col`. */
  function PiecesOf(cells: seq<Cell>, d: char, col: nat): seq<Piece>
    requires col + |cells| + 96 < 0xD800
    decreases |cells|
  {
    if cells == [] then []
    else CellPieces(cells[0], d, col) + PiecesOf(cells[1..], d, if Kept(cells[0]) then col + 1 else col)
  }

  /** Skipped cells make no difference to where the kept ones go. */
  lemma {:induction false} SkippedCellsIgnored(cells: seq<Cell>, d: char, col: nat)
    requires col + |cells| + 96 < 0xD800
    ensures DotsOf(cells, d, col) == DotsOf(KeptCells(cells), d, col)
    ensures PiecesOf(cells, d, col) == PiecesOf(KeptCells(cells), d, col)
    decreases |cells|
  {
    if cells != [] {
      SkippedCellsIgnored(cells[1..], d, if Kept(cells[0]) then col + 1 else col);
      if Kept(cells[0]) {
        assert KeptCells(cells) == [cells[0]] + KeptCells(cells[1..]);
        assert KeptCells(cells)[1..] == KeptCells(cells[1..]);
      } else {
        assert KeptCells(cells) == KeptCells(cells[1..]);
      }
    }
  }

  /** Kept cells take consecutive columns: the `j`-th one lands at column `col + j`, as an empty
      point or as a piece with its glyph and colour, and nothing is recorded besides. */
  lemma {:induction false} KeptColumns(k: seq<Cell>, d: char, col: nat)
    requires col + |k| + 96 < 0xD800
    requires forall j :: 0 <= j < |k| ==> Kept(k[j])
    ensures |DotsOf(k, d, col)| + |PiecesOf(k, d, col)| == |k|
    ensures forall j :: 0 <= j < |k| && k[j].glyph == EmptyDot ==> PosName(col + j, d) in DotsOf(k, d, col)
    ensures forall j :: 0 <= j < |k| && k[j].glyph != EmptyDot ==>
      Piece(PosName(col + j, d), [k[j].glyph], k[j].isRed) in PiecesOf(k, d, col)
    decreases |k|
  {
    if k != [] {
      var t := k[1..];
      assert forall j :: 0 <= j < |t| ==> t[j] == k[j + 1];
      KeptColumns(t, d, col + 1);
      forall j | 0 < j < |k| && k[j].glyph == EmptyDot ensures PosName(col + j, d) in DotsOf(k, d, col) {
        assert t[j - 1] == k[j];
        assert PosName(col + 1 + (j - 1), d) in DotsOf(t, d, col + 1);
      }
      forall j | 0 < j < |k| && k[j].glyph != EmptyDot
        ensures Piece(PosName(col + j, d), [k[j].glyph], k[j].isRed) in PiecesOf(k, d, col)
      {
        assert t[j - 1] == k[j];
        assert Piece(PosName(col + 1 + (j - 1), d), [t[j - 1].glyph], t[j - 1].isRed) in PiecesOf(t, d, col + 1);
      }
    }
  }

  /** A board row: its cells decoded, then placed. */
  function ApplyRow(st: State, line: string): State
    requires Strip(line) != [] && LineFits(line)
  {
    PlaceRow(st, RowDigit(line), RowCells(RowRest(line)))
  }

  /** The placement loop over the cells of the row labelled `d`, from column 1, appends the
      pieces and the empty points; the bottom row, `0`, then pushes an unforced snapshot. */
  function PlaceRow(st: State, d: char, cells: seq<Cell>): State
    requires |cells| < 0xD000
  {
    var st1 := st.(chesses := st.chesses + PiecesOf(cells, d, 1), empties := st.empties + DotsOf(cells, d, 1));
    if d == '0' then PushSnapshot(st1, false) else st1
  }

  /** `My move: <mv>` anywhere in the line sets both last-move markers. */
  function NoteMove(st: State, s: string): State
  {
    match MoveToken(s)
    case Some(mv) => st.(lastFrom := Some(mv[..2]), lastTo := Some(mv[2..4]))
    case None => st
  }

  /** The capture summaries replace the capture lists. */
  function NoteCaptures(st: State, plain: string): State
  {
    var st1 := if StartsWith(plain, PlayerPrefix) then st.(capturedByPlayer := CapturedList(plain)) else st;
    if StartsWith(plain, AiPrefix) then st1.(capturedByAi := CapturedList(plain)) else st1
  }

  /** The capture update, for callers that have already decided which prefixes the line
      carries. */
  lemma NoteCapturesBy(st: State, plain: string, player: bool, ai: bool)
    requires player == StartsWith(plain, PlayerPrefix) && ai == StartsWith(plain, AiPrefix)
    ensures NoteCaptures(st, plain)
      == st.(capturedByPlayer := if player then CapturedList(plain) else st.capturedByPlayer,
             capturedByAi := if ai then CapturedList(plain) else st.capturedByAi)
  {
  }

  /** The markers and capture summaries a line that is not a check announcement carries. */
  function Noted(st: State, s: string): State
  {
    NoteCaptures(NoteMove(st, s), StripAnsi(s))
  }

  /** The engine's announcements of the game's end. */
  const WinText: string := "You win!"
  const LostText: string := "You lost"
  const LoseText: string := "You lose"

  /** What the handler does with a stripped line, in the order of its tests. */
  datatype Kind = Blank | CheckLine | Won | Lost | Frame | Row | Other

  function KindOf(s: string): Kind
  {
    if s == [] then Blank
    else if IsCheckLine(StripAnsi(s)) then CheckLine
    else if Contains(s, WinText) then Won
    else if Contains(s, LostText) || Contains(s, LoseText) then Lost
    else if StartsWith(s, AiPrefix) then Frame
    else if IsAsciiDigit(s[0]) then Row
    else Other
  }

  /** Only the empty line is blank. */
  lemma KindOfBlank(s: string)
    ensures KindOf(s) == Blank <==> s == []
  {
  }

  /** A line past the blank and check tests goes on to one of the remaining tests. */
  lemma KindOfHandled(s: string)
    requires s != [] && !IsCheckLine(StripAnsi(s))
    ensures KindOf(s) != Blank && KindOf(s) != CheckLine
  {
  }

  /** A result line: the result and `game_over` are set, a snapshot is forced and the cursor points
      at it. */
  function Finish(st: State, result: string): State
  {
    var r := PushSnapshot(st.(gameResult := result, gameOver := true), true);
    r.(reviewIdx := |r.snapshots| - 1)
  }

  /** One pass of the loop of `draw` for the line `line` read at time `now` (milliseconds). Empty
      lines, and every line once review mode is on, are dropped; a check announcement only raises
      the hint; every other line first updates the markers and capture lists, then ends the game,
      starts a new frame, or adds a board row. */
  function ApplyLine(st: State, line: string, now: int): State
    requires LineFits(line)
  {
    if st.reviewMode then st
    else Dispatch(st, Noted(st, Strip(line)), line, KindOf(Strip(line)), now)
  }

  /** A line that is neither blank nor read in review mode: a check announcement only sets the
      hint; any other line is dispatched with its markers and capture summaries applied. */
  function HandleLine(st: State, line: string, now: int): State
    requires LineFits(line) && Strip(line) != []
  {
    var s := Strip(line);
    if IsCheckLine(StripAnsi(s)) then st.(checkHintUntil := now + HintMillis)
    else Dispatch(st, Noted(st, s), line, KindOf(s), now)
  }

  lemma HandleLineIs(st: State, line: string, noted: State, kind: Kind, now: int)
    requires LineFits(line) && Strip(line) != [] && !IsCheckLine(StripAnsi(Strip(line)))
    requires noted == Noted(st, Strip(line)) && kind == KindOf(Strip(line))
    ensures HandleLine(st, line, now) == Dispatch(st, noted, line, kind, now)
  {
  }

  /** The handler ignores blank lines and every line in review mode, and hands on the rest. */
  lemma ApplyLineCases(st: State, line: string, now: int)
    requires LineFits(line)
    ensures st.reviewMode || Strip(line) == [] ==> ApplyLine(st, line, now) == st
    ensures !st.reviewMode && Strip(line) != [] ==> ApplyLine(st, line, now) == HandleLine(st, line, now)
  {
    KindOfBlank(Strip(line));
  }

  /** The handler's branches for a line of the given kind, `noted` being the state with the
      line's markers and capture summaries applied. */
  function Dispatch(st: State, noted: State, line: string, kind: Kind, now: int): State
    requires LineFits(line) && (kind == Row ==> Strip(line) != [])
  {
    match kind
    case Blank => st
    case CheckLine => st.(checkHintUntil := now + HintMillis)
    case Won => Finish(noted, RedWins)
    case Lost => Finish(noted, BlackWins)
    case Frame => noted.(chesses := [], empties := [], selected := None)
    case Row => ApplyRow(noted, line)
    case Other => noted
  }

  /** The lines in the order the queue delivers them, all read at `now`. */
  function ApplyLines(st: State, lines: seq<string>, now: int): State
    requires forall i :: 0 <= i < |lines| ==> LineFits(lines[i])
    decreases |lines|
  {
    if lines == [] then st else ApplyLines(ApplyLine(st, lines[0], now), lines[1..], now)
  }

  /** `is_check_hint_active`. */
  predicate HintActive(st: State, now: int)
  {
    now < st.checkHintUntil
  }

  /** The timer event of `main` (gui.py:917-921): a hint that has run out is cleared once. */
  function HintTick(st: State, now: int): State
  {
    if st.checkHintUntil > 0 && !HintActive(st, now) then st.(checkHintUntil := 0) else st
  }

  /** A check announcement raises the hint for exactly two seconds and changes nothing else;
      in particular it is not parsed for a move, captures, a result or a board row. */
  lemma CheckLineOnlyRaisesHint(st: State, line: string, now: int)
    requires LineFits(line) && !st.reviewMode && KindOf(Strip(line)) == CheckLine
    ensures var r := ApplyLine(st, line, now);
      && r == st.(checkHintUntil := now + HintMillis)
      && (forall t :: now <= t < now + HintMillis ==> HintActive(r, t))
      && (forall t :: t >= now + HintMillis ==> !HintActive(r, t))
  {
  }

  /** Once review mode is on, no line changes anything. */
  lemma {:induction false} ReviewFreezesLines(st: State, lines: seq<string>, now: int)
    requires st.reviewMode
    requires forall i :: 0 <= i < |lines| ==> LineFits(lines[i])
    ensures ApplyLines(st, lines, now) == st
    decreases |lines|
  {
    if lines != [] {
      assert ApplyLine(st, lines[0], now) == st;
      ReviewFreezesLines(st, lines[1..], now);
    }
  }

  /** Noting markers and captures touches neither the board nor the log. */
  lemma NotedKeeps(st: State, s: string)
    ensures var r := Noted(st, s);
      r.(lastFrom := st.lastFrom, lastTo := st.lastTo, capturedByPlayer := st.capturedByPlayer,
         capturedByAi := st.capturedByAi) == st
  {
  }

  /** What the line handler keeps between a state and its successor: nothing is written to the
      engine, review mode and the end of a game persist, the log only grows at its end, and the
      invariant holds on. */
  predicate LineKeeps(st: State, r: State)
  {
    && r.sent == st.sent && r.reviewMode == st.reviewMode
    && (st.gameOver ==> r.gameOver)
    && |st.snapshots| <= |r.snapshots| && r.snapshots[..|st.snapshots|] == st.snapshots
    && (Valid(st) ==> Valid(r))
  }

  lemma LineKeepsTransitive(a: State, b: State, c: State)
    requires LineKeeps(a, b) && LineKeeps(b, c)
    ensures LineKeeps(a, c)
  {
    assert c.snapshots[..|a.snapshots|] == c.snapshots[..|b.snapshots|][..|a.snapshots|];
  }

  /** Every line keeps them. */
  lemma ApplyLineKeeps(st: State, line: string, now: int)
    requires LineFits(line)
    ensures LineKeeps(st, ApplyLine(st, line, now))
  {
    if !st.reviewMode {
      KindOfBlank(Strip(line));
      NotedKeeps(st, Strip(line));
      DispatchKeeps(st, Noted(st, Strip(line)), line, KindOf(Strip(line)), now);
    }
  }

  lemma DispatchKeeps(st: State, noted: State, line: string, kind: Kind, now: int)
    requires LineFits(line) && (kind == Row ==> Strip(line) != [])
    requires noted.(lastFrom := st.lastFrom, lastTo := st.lastTo, capturedByPlayer := st.capturedByPlayer,
      capturedByAi := st.capturedByAi) == st
    ensures LineKeeps(st, Dispatch(st, noted, line, kind, now))
  {
    if kind != Blank && kind != CheckLine {
      var r := Dispatch(st, noted, line, kind, now);
      NotingKeeps(st, noted);
      KindKeeps(st, noted, line, kind, now);
      LineKeepsTransitive(st, noted, r);
    }
  }

  /** Noting a line's markers and capture summaries keeps what `LineKeeps` asks for. */
  lemma NotingKeeps(st: State, noted: State)
    requires noted.(lastFrom := st.lastFrom, lastTo := st.lastTo, capturedByPlayer := st.capturedByPlayer,
      capturedByAi := st.capturedByAi) == st
    ensures LineKeeps(st, noted)
  {
    assert noted.snapshots == st.snapshots;
  }

  lemma KindKeeps(st: State, noted: State, line: string, kind: Kind, now: int)
    requires LineFits(line) && (kind == Row ==> Strip(line) != []) && kind != Blank && kind != CheckLine
    ensures LineKeeps(noted, Dispatch(st, noted, line, kind, now))
  {
    if kind == Won || kind == Lost {
      ResultKeeps(st, noted, line, kind, now);
    } else {
      BoardKindKeeps(st, noted, line, kind, now);
    }
  }

  lemma ResultKeeps(st: State, noted: State, line: string, kind: Kind, now: int)
    requires LineFits(line) && (kind == Won || kind == Lost)
    ensures LineKeeps(noted, Dispatch(st, noted, line, kind, now))
  {
    DispatchCases(st, noted, line, kind, now);
    FinishSpec(noted, if kind == Won then RedWins else BlackWins);
  }

  lemma BoardKindKeeps(st: State, noted: State, line: string, kind: Kind, now: int)
    requires LineFits(line) && (kind == Row ==> Strip(line) != []) && (kind == Frame || kind == Row || kind == Other)
    ensures LineKeeps(noted, Dispatch(st, noted, line, kind, now))
  {
    DispatchCases(st, noted, line, kind, now);
    if kind == Row {
      ApplyRowKeeps(noted, line);
    }
  }

  lemma ApplyRowKeeps(st: State, line: string)
    requires Strip(line) != [] && LineFits(line)
    ensures var r := ApplyRow(st, line);
      && r.(chesses := st.chesses, empties := st.empties, snapshots := st.snapshots, reviewIdx := st.reviewIdx) == st
      && |st.snapshots| <= |r.snapshots| && r.snapshots[..|st.snapshots|] == st.snapshots
      && (Valid(st) ==> Valid(r))
  {
    PlaceRowKeeps(st, RowDigit(line), RowCells(RowRest(line)));
  }

  /** Placing a row only appends to the board and, for the bottom row, to the log. */
  lemma PlaceRowKeeps(st: State, d: char, cells: seq<Cell>)
    requires |cells| < 0xD000
    ensures var r := PlaceRow(st, d, cells);
      && r.(chesses := st.chesses, empties := st.empties, snapshots := st.snapshots, reviewIdx := st.reviewIdx) == st
      && |st.chesses| <= |r.chesses| && r.chesses[..|st.chesses|] == st.chesses
      && |st.snapshots| <= |r.snapshots| && r.snapshots[..|st.snapshots|] == st.snapshots
      && (Valid(st) ==> Valid(r))
  {
    var st1 := st.(chesses := st.chesses + PiecesOf(cells, d, 1), empties := st.empties + DotsOf(cells, d, 1));
    PushSnapshotLog(st1, false);
  }

  /** So does every sequence of lines. */
  lemma {:induction false} ApplyLinesKeeps(st: State, lines: seq<string>, now: int)
    requires forall i :: 0 <= i < |lines| ==> LineFits(lines[i])
    ensures LineKeeps(st, ApplyLines(st, lines, now))
    decreases |lines|
  {
    if lines != [] {
      var st1 := ApplyLine(st, lines[0], now);
      ApplyLineKeeps(st, lines[0], now);
      ApplyLinesKeeps(st1, lines[1..], now);
      LineKeepsTransitive(st, st1, ApplyLines(st1, lines[1..], now));
    }
  }

  /** A move the engine announces is recorded in both markers, whatever else the line does
      (both halves are well-formed positions, by `EngineLines.MoveHalvesArePositions`). */
  lemma EngineMoveRecorded(st: State, line: string, now: int)
    requires LineFits(line) && !st.reviewMode
    requires KindOf(Strip(line)) != CheckLine && MoveToken(Strip(line)).Some?
    ensures var r, mv := ApplyLine(st, line, now), MoveToken(Strip(line)).value;
      r.lastFrom == Some(mv[..2]) && r.lastTo == Some(mv[2..])
  {
    var s := Strip(line);
    MoveTokenLength(s);
    NotedMarkers(st, s);
    NotedSurvives(st, line, now);
  }

  /** What a line notes, markers and capture lists, stays as noted whatever else the line does. */
  lemma NotedSurvives(st: State, line: string, now: int)
    requires LineFits(line) && !st.reviewMode
    requires Strip(line) != [] && KindOf(Strip(line)) != CheckLine
    ensures var r, n := ApplyLine(st, line, now), Noted(st, Strip(line));
      && r.lastFrom == n.lastFrom && r.lastTo == n.lastTo
      && r.capturedByPlayer == n.capturedByPlayer && r.capturedByAi == n.capturedByAi
  {
    KindOfBlank(Strip(line));
    DispatchNoted(st, Noted(st, Strip(line)), line, KindOf(Strip(line)), now);
  }

  /** The branches of `Dispatch` one by one, for callers that know the kind. */
  lemma DispatchCases(st: State, noted: State, line: string, kind: Kind, now: int)
    requires LineFits(line) && (kind == Row ==> Strip(line) != [])
    ensures kind == Won ==> Dispatch(st, noted, line, kind, now) == Finish(noted, RedWins)
    ensures kind == Lost ==> Dispatch(st, noted, line, kind, now) == Finish(noted, BlackWins)
    ensures kind == Frame ==> Dispatch(st, noted, line, kind, now) == noted.(chesses := [], empties := [], selected := None)
    ensures kind == Row ==> Dispatch(st, noted, line, kind, now) == ApplyRow(noted, line)
    ensures kind == Other ==> Dispatch(st, noted, line, kind, now) == noted
  {
  }

  lemma DispatchNoted(st: State, noted: State, line: string, kind: Kind, now: int)
    requires LineFits(line) && (kind == Row ==> Strip(line) != []) && kind != CheckLine && kind != Blank
    ensures var r := Dispatch(st, noted, line, kind, now);
      && r.lastFrom == noted.lastFrom && r.lastTo == noted.lastTo
      && r.capturedByPlayer == noted.capturedByPlayer && r.capturedByAi == noted.capturedByAi
  {
    if kind == Row {
      ApplyRowKeeps(noted, line);
    }
  }

  lemma NotedMarkers(st: State, s: string)
    requires MoveToken(s).Some?
    ensures var r, mv := Noted(st, s), MoveToken(s).value;
      r.lastFrom == Some(mv[..2]) && r.lastTo == Some(mv[2..])
  {
    assert MoveToken(s).value[2..4] == MoveToken(s).value[2..];
  }

  /** A result line ends the game with its result, the win being checked first, and records the
      final position with the cursor on it even when it repeats the tail; the board stays. */
  lemma ResultLineEndsGame(st: State, line: string, now: int)
    requires LineFits(line) && !st.reviewMode
    requires KindOf(Strip(line)) == Won || KindOf(Strip(line)) == Lost
    ensures var r := ApplyLine(st, line, now);
      && r.gameOver
      && r.gameResult == (if KindOf(Strip(line)) == Won then RedWins else BlackWins)
      && |r.snapshots| == |st.snapshots| + 1 && r.snapshots[..|st.snapshots|] == st.snapshots
      && r.reviewIdx == |st.snapshots|
      && Last(r.snapshots) == MakeSnapshot(r)
      && r.chesses == st.chesses && r.empties == st.empties && r.selected == st.selected
  {
    var s := Strip(line);
    var result := if KindOf(s) == Won then RedWins else BlackWins;
    assert ApplyLine(st, line, now) == Finish(Noted(st, s), result);
    NotedKeeps(st, s);
    FinishSpec(Noted(st, s), result);
  }

  lemma FinishSpec(st: State, result: string)
    ensures var r := Finish(st, result);
      && r.gameOver && r.gameResult == result
      && r.snapshots == st.snapshots + [MakeSnapshot(r)]
      && r.reviewIdx == |st.snapshots|
      && r.chesses == st.chesses && r.empties == st.empties && r.selected == st.selected
      && r.sent == st.sent && r.reviewMode == st.reviewMode
  {
  }

  /** The computer's capture summary starts a new frame: the board and the selection are cleared
      and the computer's capture list is replaced. */
  lemma AiSummaryStartsFrame(st: State, line: string, now: int)
    requires LineFits(line) && !st.reviewMode && KindOf(Strip(line)) == Frame
    requires StartsWith(StripAnsi(Strip(line)), AiPrefix)
    ensures var r := ApplyLine(st, line, now);
      && r.chesses == [] && r.empties == [] && r.selected.None?
      && r.capturedByAi == CapturedList(StripAnsi(Strip(line)))
      && r.snapshots == st.snapshots && r.gameOver == st.gameOver
  {
    var s := Strip(line);
    NotedKeeps(st, s);
    NotedAiList(st, s);
  }

  lemma NotedAiList(st: State, s: string)
    requires StartsWith(StripAnsi(s), AiPrefix)
    ensures Noted(st, s).capturedByAi == CapturedList(StripAnsi(s))
  {
  }

  /** The kept cells `k` of the row labelled `d` land at columns 1, 2, ...: the `j`-th as an empty
      point or as a piece with its glyph and colour, and nothing is recorded besides. */
  predicate ColumnsPlaced(k: seq<Cell>, d: char, dots: seq<string>, pieces: seq<Piece>)
    requires |k| + 97 < 0xD800
  {
    && |dots| + |pieces| == |k|
    && (forall j :: 0 <= j < |k| && k[j].glyph == EmptyDot ==> PosName(1 + j, d) in dots)
    && (forall j :: 0 <= j < |k| && k[j].glyph != EmptyDot ==> Piece(PosName(1 + j, d), [k[j].glyph], k[j].isRed) in pieces)
  }

  /** A board row places its kept cells at columns 1, 2, ... of its rank, appending to the board;
      only the bottom row pushes a snapshot. */
  lemma RowLinePlacesCells(st: State, line: string, now: int)
    requires LineFits(line) && !st.reviewMode && KindOf(Strip(line)) == Row
    ensures Strip(line) != []
    ensures var r, d, k := ApplyLine(st, line, now), RowDigit(line), KeptCells(RowCells(RowRest(line)));
      var b := Noted(st, Strip(line));
      var dots, pieces := DotsOf(k, d, 1), PiecesOf(k, d, 1);
      && ColumnsPlaced(k, d, dots, pieces)
      && var placed := b.(chesses := b.chesses + pieces, empties := b.empties + dots);
      r == (if d == '0' then PushSnapshot(placed, false) else placed)
  {
    KindOfBlank(Strip(line));
    DispatchCases(st, Noted(st, Strip(line)), line, Row, now);
    RowPlacesCells(Noted(st, Strip(line)), line);
  }

  /** The same, for the row itself. */
  lemma RowPlacesCells(b: State, line: string)
    requires LineFits(line) && Strip(line) != []
    ensures var r, d, k := ApplyRow(b, line), RowDigit(line), KeptCells(RowCells(RowRest(line)));
      var dots, pieces := DotsOf(k, d, 1), PiecesOf(k, d, 1);
      && ColumnsPlaced(k, d, dots, pieces)
      && var placed := b.(chesses := b.chesses + pieces, empties := b.empties + dots);
      r == (if d == '0' then PushSnapshot(placed, false) else placed)
  {
    var d := RowDigit(line);
    var cells := RowCells(RowRest(line));
    var k := KeptCells(cells);
    SkippedCellsIgnored(cells, d, 1);
    KeptColumns(k, d, 1);
    assert ColumnsPlaced(k, d, DotsOf(k, d, 1), PiecesOf(k, d, 1));
  }

  /** The hint tick clears only a hint that has run out, and a cleared hint stays cleared. */
  lemma HintTickSpec(st: State, now: int)
    ensures var r := HintTick(st, now);
      && HintActive(r, now) == HintActive(st, now)
      && (r.checkHintUntil == 0 || r == st)
      && r.(checkHintUntil := st.checkHintUntil) == st
      && HintTick(r, now) == r
  {
  }
}
