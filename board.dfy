/** The `Board` object of gui.py with the fields the core reads and writes, updated in place as
    the source does. Each method is proved to compute the transition function of `Snapshots`,
    `Feed` or `Play` on the object's state, so every property proved there holds of the object. */
module BoardObject {
  import opened Text
  import opened Ansi
  import opened Positions
  import opened Captures
  import opened RowParser
  import opened EngineLines
  import Snapshots
  import Feed
  import Play

  class Board {
    var chesses: seq<Snapshots.Piece>
    var empties: seq<string>
    var selected: Option<nat>
    var lastFrom: Option<string>
    var lastTo: Option<string>
    var gameResult: string
    var gameOver: bool
    var capturedByPlayer: seq<Captured>
    var capturedByAi: seq<Captured>
    var snapshots: seq<Snapshots.Snapshot>
    var reviewMode: bool
    var reviewIdx: int
    var checkHintUntil: int
    var sent: seq<string>

    /** The object's fields as a value. */
    function Model(): Snapshots.State
      reads this
    {
      Snapshots.State(chesses, empties, selected, lastFrom, lastTo, gameResult, gameOver,
        capturedByPlayer, capturedByAi, snapshots, reviewMode, reviewIdx, checkHintUntil, sent)
    }

    /** `Board.__init__` (gui.py:57-81), for the fields of the core. */
    constructor ()
      ensures Model() == Snapshots.Initial()
    {
      chesses, empties, selected := [], [], None;
      lastFrom, lastTo, gameResult, gameOver := None, None, "", false;
      capturedByPlayer, capturedByAi := [], [];
      snapshots, reviewMode, reviewIdx := [], false, -1;
      checkHintUntil, sent := 0, [];
    }

    /** `_make_snapshot`: the loop collects every piece with its position, name and colour. */
    method MakeSnapshot() returns (snap: Snapshots.Snapshot)
      ensures snap == Snapshots.MakeSnapshot(Model())
    {
      var pieces: seq<Snapshots.Piece> := [];
      var i := 0;
      while i < |chesses|
        invariant 0 <= i <= |chesses| && pieces == chesses[..i]
      {
        var c := chesses[i];
        pieces := pieces + [Snapshots.Piece(c.cmdPos, c.name, c.isRed)];
        i := i + 1;
      }
      assert chesses[..|chesses|] == chesses;
      snap := Snapshots.Snapshot(pieces, capturedByPlayer, capturedByAi, lastFrom, lastTo, gameResult);
    }

    /** `push_snapshot(force)`. */
    method PushSnapshot(force: bool)
      modifies this
      ensures Model() == Snapshots.PushSnapshot(old(Model()), force)
    {
      var snap := MakeSnapshot();
      if !force && snapshots != [] && Snapshots.SameSnapshot(Some(snapshots[|snapshots| - 1]), Some(snap)) {
        return;
      }
      snapshots := snapshots + [snap];
      reviewIdx := |snapshots| - 1;
    }

    /** `load_snapshot(idx)`: the board is rebuilt from the snapshot's piece map, and the
        selection, capture lists, markers and result are restored. */
    method LoadSnapshot(idx: int)
      modifies this
      ensures Model() == Snapshots.LoadSnapshot(old(Model()), idx)
    {
      if idx < 0 || idx >= |snapshots| {
        Snapshots.LoadSnapshotFields(Model(), idx);
      } else {
        Restore(idx);
      }
    }

    /** Loading an entry that exists: the board rebuilt from its pieces, the selection cleared,
        and the capture lists, the markers and the result restored. */
    method Restore(idx: int)
      requires 0 <= idx < |snapshots|
      modifies this
      ensures Model() == Snapshots.LoadSnapshot(old(Model()), idx)
    {
      ghost var st := Model();
      var snap := snapshots[idx];
      var cs, es := RebuildBoard(snap.pieces);
      Snapshots.LoadSnapshotIs(st, idx, cs, es);
      Install(cs, es, snap);
    }

    /** The field assignments of `load_snapshot`, for a board already rebuilt. */
    method Install(cs: seq<Snapshots.Piece>, es: seq<string>, snap: Snapshots.Snapshot)
      modifies this
      ensures Model() == old(Model()).(chesses := cs, empties := es, selected := None,
        capturedByPlayer := snap.capturedByPlayer, capturedByAi := snap.capturedByAi,
        lastFrom := snap.lastFrom, lastTo := snap.lastTo, gameResult := snap.gameResult)
    {
      chesses, empties, selected := cs, es, None;
      SetRecord(snap);
    }

    /** The capture lists, the last-move markers and the result of a snapshot, restored. */
    method SetRecord(snap: Snapshots.Snapshot)
      modifies this
      ensures Model() == old(Model()).(capturedByPlayer := snap.capturedByPlayer, capturedByAi := snap.capturedByAi,
        lastFrom := snap.lastFrom, lastTo := snap.lastTo, gameResult := snap.gameResult)
    {
      capturedByPlayer, capturedByAi := snap.capturedByPlayer, snap.capturedByAi;
      SetMarkers(snap.lastFrom, snap.lastTo, snap.gameResult);
    }

    method SetMarkers(from: Option<string>, to: Option<string>, result: string)
      modifies this
      ensures Model() == old(Model()).(lastFrom := from, lastTo := to, gameResult := result)
    {
      lastFrom, lastTo, gameResult := from, to, result;
    }

    /** The board a snapshot describes: its pieces by position, then every position in order. */
    static method RebuildBoard(pieces: seq<Snapshots.Piece>) returns (cs: seq<Snapshots.Piece>, es: seq<string>)
      ensures cs == Snapshots.LoadedChesses(Snapshots.PieceMap(pieces), AllPositions())
      ensures es == Snapshots.LoadedEmpties(Snapshots.PieceMap(pieces), AllPositions())
    {
      var m := BuildPieceMap(pieces);
      cs, es := LoadBoard(m);
    }

    /** The loader's nested loop: ranks from 9 down to 0 and, inside a rank, columns from 1 to 9;
        each position becomes a piece when the map has it and an empty point otherwise. */
    static method LoadBoard(m: map<string, (string, bool)>) returns (cs: seq<Snapshots.Piece>, es: seq<string>)
      ensures cs == Snapshots.LoadedChesses(m, AllPositions()) && es == Snapshots.LoadedEmpties(m, AllPositions())
    {
      cs, es := [], [];
      ghost var visited: seq<string> := [];
      var rank := 9;
      while rank >= 0
        invariant -1 <= rank <= 9 && visited == AllPositions()[..(9 - rank) * 9]
        invariant cs == Snapshots.LoadedChesses(m, visited) && es == Snapshots.LoadedEmpties(m, visited)
      {
        var col := 1;
        while col <= 9
          invariant 1 <= col <= 10 && visited == AllPositions()[..(9 - rank) * 9 + col - 1]
          invariant cs == Snapshots.LoadedChesses(m, visited) && es == Snapshots.LoadedEmpties(m, visited)
        {
          var cmd := PosName(col, DigitChar(rank));
          VisitStep(visited, rank, col);
          Snapshots.LoadedSnoc(m, visited, cmd);
          if cmd in m {
            cs := cs + [Snapshots.Piece(cmd, m[cmd].0, m[cmd].1)];
          } else {
            es := es + [cmd];
          }
          visited := visited + [cmd];
          col := col + 1;
        }
        rank := rank - 1;
      }
      assert AllPositions()[..90] == AllPositions();
    }

    /** Visiting column `col` of rank `rank` extends the visited prefix by that position. */
    static lemma VisitStep(visited: seq<string>, rank: int, col: int)
      requires 0 <= rank <= 9 && 1 <= col <= 9
      requires visited == AllPositions()[..(9 - rank) * 9 + col - 1]
      ensures visited + [PosName(col, DigitChar(rank))] == AllPositions()[..(9 - rank) * 9 + col]
    {
      var k := (9 - rank) * 9 + col - 1;
      AllPositionsAt(rank, col);
      assert AllPositions()[..k + 1] == AllPositions()[..k] + [AllPositions()[k]];
    }

    /** `piece_map`, built by a loop over the snapshot's pieces. */
    static method BuildPieceMap(pieces: seq<Snapshots.Piece>) returns (m: map<string, (string, bool)>)
      ensures m == Snapshots.PieceMap(pieces)
    {
      m := map[];
      var i := 0;
      while i < |pieces|
        invariant 0 <= i <= |pieces| && m == Snapshots.PieceMap(pieces[..i])
      {
        assert pieces[..i + 1][..i] == pieces[..i];
        m := m[pieces[i].cmdPos := (pieces[i].name, pieces[i].isRed)];
        i := i + 1;
      }
      assert pieces[..|pieces|] == pieces;
    }

    /** `step_review(delta)`. */
    method StepReview(delta: int)
      modifies this
      ensures Model() == Snapshots.StepReview(old(Model()), delta)
    {
      if snapshots == [] {
        return;
      }
      reviewMode := true;
      var ni := reviewIdx + delta;
      ni := if ni > |snapshots| - 1 then |snapshots| - 1 else ni;
      ni := if ni < 0 then 0 else ni;
      if ni == reviewIdx {
        return;
      }
      reviewIdx := ni;
      LoadSnapshot(reviewIdx);
    }

    /** `move(pos)`. */
    method Move(pos: string, engineExited: bool, writeFails: bool)
      modifies this
      ensures Model() == Play.Move(old(Model()), pos, engineExited, writeFails)
    {
      if gameOver {
        return;
      }
      if engineExited {
        gameOver := true;
        return;
      }
      if |pos| >= 4 {
        lastFrom, lastTo := Some(pos[..2]), Some(pos[2..4]);
      }
      if writeFails {
        gameOver := true;
        return;
      }
      sent := sent + [pos + "\n"];
    }

    /** The search of the click handler for the first piece under the mouse. */
    method FindPiece(cmd: string) returns (hit: Option<nat>)
      ensures hit == Play.PieceAt(chesses, cmd)
    {
      hit := None;
      var i := 0;
      while i < |chesses|
        invariant 0 <= i <= |chesses| && forall j :: 0 <= j < i ==> chesses[j].cmdPos != cmd
      {
        if chesses[i].cmdPos == cmd {
          hit := Some(i);
          break;
        }
        i := i + 1;
      }
    }

    /** The search of the click handler for the first empty point under the mouse. */
    method FindEmpty(cmd: string) returns (hit: Option<nat>)
      ensures hit == Play.EmptyAt(empties, cmd)
    {
      hit := None;
      var i := 0;
      while i < |empties|
        invariant 0 <= i <= |empties| && forall j :: 0 <= j < i ==> empties[j] != cmd
      {
        if empties[i] == cmd {
          hit := Some(i);
          break;
        }
        i := i + 1;
      }
    }

    /** The left-button branch of the event loop of `main`. */
    method Click(p: Play.Target, engineExited: bool, writeFails: bool)
      requires Snapshots.Valid(Model())
      modifies this
      ensures Model() == Play.Click(old(Model()), p, engineExited, writeFails)
    {
      if gameOver {
        ReviewClick(p);
      } else {
        PlayClick(p, engineExited, writeFails);
      }
    }

    /** After the game: the arrows step the review. */
    method ReviewClick(p: Play.Target)
      modifies this
      ensures Model() == Play.ReviewClick(old(Model()), p)
    {
      if p.LeftArrow? {
        StepReview(-1);
      } else if p.RightArrow? {
        StepReview(1);
      }
    }

    /** While the game goes on: the first piece under the mouse, else what else is there. */
    method PlayClick(p: Play.Target, engineExited: bool, writeFails: bool)
      requires Snapshots.Valid(Model())
      modifies this
      ensures Model() == Play.PlayClick(old(Model()), p, engineExited, writeFails)
    {
      var hit := None;
      if p.AtCell? {
        hit := FindPiece(p.cmd);
      }
      if hit.Some? {
        ClickPiece(hit.value, engineExited, writeFails);
      } else {
        ClickOff(p, engineExited, writeFails);
      }
    }

    /** A click on the piece `chesses[k]`: select it, deselect it, reselect for the same colour,
        or capture it with the selected piece. */
    method ClickPiece(k: nat, engineExited: bool, writeFails: bool)
      requires Snapshots.Valid(Model()) && k < |chesses|
      modifies this
      ensures Model() == Play.ClickPiece(old(Model()), k, engineExited, writeFails)
    {
      if selected.None? {
        selected := Some(k);
      } else if k == selected.value {
        selected := None;
      } else if chesses[k].isRed == chesses[selected.value].isRed {
        selected := Some(k);
      } else {
        Capture(k, engineExited, writeFails);
      }
    }

    /** The selected piece takes `chesses[k]`: the capture is recorded, the move is sent and the
        selection is cleared. */
    method Capture(k: nat, engineExited: bool, writeFails: bool)
      requires Snapshots.Valid(Model()) && k < |chesses| && selected.Some?
      requires k != selected.value && chesses[k].isRed != chesses[selected.value].isRed
      modifies this
      ensures Model() == Play.ClickPiece(old(Model()), k, engineExited, writeFails)
    {
      var name := chesses[k].name;
      capturedByPlayer := capturedByPlayer + [Captured(name, name == Play.DarkGlyph)];
      Move(chesses[selected.value].cmdPos + chesses[k].cmdPos, engineExited, writeFails);
      selected := None;
    }

    /** A click that hits no piece: with a selection, an empty point under the mouse receives
        the selected piece, and anything else deselects. */
    method ClickOff(p: Play.Target, engineExited: bool, writeFails: bool)
      requires Snapshots.Valid(Model())
      modifies this
      ensures Model() == Play.ClickOff(old(Model()), p, engineExited, writeFails)
    {
      if selected.Some? {
        var spot := None;
        if p.AtCell? {
          spot := FindEmpty(p.cmd);
        }
        if spot.Some? {
          Move(chesses[selected.value].cmdPos + empties[spot.value], engineExited, writeFails);
        }
        selected := None;
      }
    }

    /** The markers and capture summaries of a line that is not a check announcement. */
    method NoteLine(s: string, plain: string)
      requires plain == StripAnsi(s)
      modifies this
      ensures Model() == Feed.Noted(old(Model()), s)
    {
      NoteMove(s);
      NoteCaptures(plain);
    }

    /** `My move: <mv>` anywhere in the line sets both last-move markers. */
    method NoteMove(s: string)
      modifies this
      ensures Model() == Feed.NoteMove(old(Model()), s)
    {
      match MoveToken(s) {
        case Some(mv) =>
          lastFrom, lastTo := Some(mv[..2]), Some(mv[2..4]);
        case None =>
      }
    }

    /** The capture summaries replace the capture lists. */
    method NoteCaptures(plain: string)
      modifies this
      ensures Model() == Feed.NoteCaptures(old(Model()), plain)
    {
      var player := StartsWith(plain, Feed.PlayerPrefix);
      var ai := StartsWith(plain, Feed.AiPrefix);
      Feed.NoteCapturesBy(Model(), plain, player, ai);
      if player {
        capturedByPlayer := ParseCapturedList(plain);
      }
      if ai {
        capturedByAi := ParseCapturedList(plain);
      }
    }

    /** A result line: the result is recorded, the game ends, a snapshot is forced and the cursor
        points at the last one. */
    method Finish(result: string)
      modifies this
      ensures Model() == Feed.Finish(old(Model()), result)
    {
      gameResult, gameOver := result, true;
      PushSnapshot(true);
      reviewIdx := |snapshots| - 1;
    }

    /** The cells of the row labelled `d` placed, then, for the bottom row, an unforced snapshot. */
    method PlaceRow(d: char, cells: seq<Cell>)
      requires |cells| < 0xD000
      modifies this
      ensures Model() == Feed.PlaceRow(old(Model()), d, cells)
    {
      PlaceCells(d, cells);
      if d == '0' {
        PushSnapshot(false);
      }
    }

    /** The placement loop of the line handler: an empty dot becomes an empty point and a piece
        glyph a piece, each in the next column; any other cell is skipped. */
    method PlaceCells(d: char, cells: seq<Cell>)
      requires |cells| < 0xD000
      modifies this
      ensures Model() == old(Model()).(chesses := old(chesses) + Feed.PiecesOf(cells, d, 1),
        empties := old(empties) + Feed.DotsOf(cells, d, 1))
    {
      var col := 1;
      var i := 0;
      while i < |cells|
        invariant 0 <= i <= |cells| && 1 <= col <= i + 1
        invariant old(chesses) + Feed.PiecesOf(cells, d, 1) == chesses + Feed.PiecesOf(cells[i..], d, col)
        invariant old(empties) + Feed.DotsOf(cells, d, 1) == empties + Feed.DotsOf(cells[i..], d, col)
        invariant Model() == old(Model()).(chesses := chesses, empties := empties)
      {
        PlaceStep(cells, i, d, col);
        ghost var pieces, dots, here := chesses, empties, col;
        col := PlaceCell(cells[i], d, col);
        Associative(pieces, Feed.CellPieces(cells[i], d, here), Feed.PiecesOf(cells[i + 1..], d, col));
        Associative(dots, Feed.CellDots(cells[i], d, here), Feed.DotsOf(cells[i + 1..], d, col));
        i := i + 1;
      }
      assert cells[i..] == [];
    }

    /** One pass of the placement loop: an empty dot becomes an empty point and a piece glyph a
        piece, each taking the column `col` and moving on to the next one; anything else is
        skipped. */
    method PlaceCell(c: Cell, d: char, col: nat) returns (next: nat)
      requires col + 96 < 0xD800
      modifies this
      ensures next == if Feed.Kept(c) then col + 1 else col
      ensures Model() == old(Model()).(chesses := old(chesses) + Feed.CellPieces(c, d, col),
        empties := old(empties) + Feed.CellDots(c, d, col))
    {
      next := col;
      if c.glyph == Feed.EmptyDot {
        empties := empties + [PosName(col, d)];
        next := col + 1;
      } else if c.glyph in Feed.ChessNames {
        chesses := chesses + [Snapshots.Piece(PosName(col, d), [c.glyph], c.isRed)];
        next := col + 1;
      }
    }

    /** The placement loop's step, for the descriptions of what is left. */
    static lemma PlaceStep(cells: seq<Cell>, i: nat, d: char, col: nat)
      requires i < |cells| < 0xD000 && col <= i + 1
      ensures var c, next := cells[i], if Feed.Kept(cells[i]) then col + 1 else col;
        && Feed.PiecesOf(cells[i..], d, col) == Feed.CellPieces(c, d, col) + Feed.PiecesOf(cells[i + 1..], d, next)
        && Feed.DotsOf(cells[i..], d, col) == Feed.CellDots(c, d, col) + Feed.DotsOf(cells[i + 1..], d, next)
    {
      assert cells[i..][1..] == cells[i + 1..];
    }

    /** One pass of the loop of `draw` over a line of engine output read at `now`. */
    method ApplyLine(line: string, now: int)
      requires Feed.LineFits(line)
      modifies this
      ensures Model() == Feed.ApplyLine(old(Model()), line, now)
    {
      Feed.ApplyLineCases(Model(), line, now);
      var s := Strip(line);
      if s == [] {
        return;
      }
      if reviewMode {
        return;
      }
      HandleLine(line, s, now);
    }

    /** A line that is neither blank nor discarded in review mode: a check announcement sets the
        hint; any other line has its markers and capture summaries applied and is then checked
        further. */
    method HandleLine(line: string, s: string, now: int)
      requires Feed.LineFits(line) && s == Strip(line) && s != []
      modifies this
      ensures Model() == Feed.HandleLine(old(Model()), line, now)
    {
      var plain := StripAnsi(s);
      if IsCheckLine(plain) {
        RaiseHint(now);
      } else {
        NoteAndConclude(line, s, plain, now);
      }
    }

    /** `trigger_check_hint`, with the clock read as `now` in milliseconds. */
    method RaiseHint(now: int)
      modifies this
      ensures Model() == old(Model()).(checkHintUntil := now + Feed.HintMillis)
    {
      checkHintUntil := now + Feed.HintMillis;
    }

    /** A line that is not a check announcement: its markers and capture summaries, then the
        remaining tests. */
    method NoteAndConclude(line: string, s: string, plain: string, now: int)
      requires Feed.LineFits(line) && s == Strip(line) && s != [] && plain == StripAnsi(s) && !IsCheckLine(plain)
      modifies this
      ensures Model() == Feed.HandleLine(old(Model()), line, now)
    {
      ghost var st := Model();
      NoteLine(s, plain);
      var kind := Feed.KindOf(s);
      Feed.KindOfHandled(s);
      Feed.HandleLineIs(st, line, Model(), kind, now);
      Conclude(st, line, kind, now);
    }

    /** The rest of the pass, once the line's markers and capture summaries are applied: a
        result, a new frame, a board row, or nothing more. */
    method Conclude(ghost st: Snapshots.State, line: string, kind: Feed.Kind, now: int)
      requires Feed.LineFits(line) && Strip(line) != [] && kind != Feed.Blank && kind != Feed.CheckLine
      modifies this
      ensures Model() == Feed.Dispatch(st, old(Model()), line, kind, now)
    {
      Feed.DispatchCases(st, Model(), line, kind, now);
      if kind == Feed.Won || kind == Feed.Lost {
        Finish(if kind == Feed.Won then Feed.RedWins else Feed.BlackWins);
      } else {
        ConcludeBoard(st, line, kind, now);
      }
    }

    /** A new frame clears the board and the selection; a board row is decoded and placed. */
    method ConcludeBoard(ghost st: Snapshots.State, line: string, kind: Feed.Kind, now: int)
      requires Feed.LineFits(line) && Strip(line) != [] && (kind == Feed.Frame || kind == Feed.Row || kind == Feed.Other)
      modifies this
      ensures Model() == Feed.Dispatch(st, old(Model()), line, kind, now)
    {
      Feed.DispatchCases(st, Model(), line, kind, now);
      if kind == Feed.Frame {
        ClearBoard();
      } else if kind == Feed.Row {
        ApplyRow(line);
      }
    }

    /** The start of a frame: no pieces, no empty points, no selection. */
    method ClearBoard()
      modifies this
      ensures Model() == old(Model()).(chesses := [], empties := [], selected := None)
    {
      chesses, empties, selected := [], [], None;
    }

    /** A board row: `parse_row_cells`, then the placement loop. */
    method ApplyRow(line: string)
      requires Feed.LineFits(line) && Strip(line) != []
      modifies this
      ensures Model() == Feed.ApplyRow(old(Model()), line)
    {
      var d, cells := ParseRowCells(line);
      PlaceRow(d, cells);
    }

    /** The reader's lines, in the order the queue delivers them, all handled at `now`. */
    method Consume(lines: seq<string>, now: int)
      requires forall i :: 0 <= i < |lines| ==> Feed.LineFits(lines[i])
      modifies this
      ensures Model() == Feed.ApplyLines(old(Model()), lines, now)
    {
      var i := 0;
      while i < |lines|
        invariant 0 <= i <= |lines|
        invariant Feed.ApplyLines(Model(), lines[i..], now) == Feed.ApplyLines(old(Model()), lines, now)
      {
        assert lines[i..][1..] == lines[i + 1..];
        ApplyLine(lines[i], now);
        i := i + 1;
      }
    }

    /** The timer event: a hint that has run out is cleared once. */
    method HintTick(now: int)
      modifies this
      ensures Model() == Feed.HintTick(old(Model()), now)
    {
      if checkHintUntil > 0 && !(now < checkHintUntil) {
        checkHintUntil := 0;
      }
    }
  }
}
