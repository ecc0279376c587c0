/** The player's side of the front end: the `move` guard (gui.py:531-555) and the left-button
    handler of `main` (gui.py:923-988). Hit testing is abstracted to the position under the
    mouse; the engine's liveness and the outcome of the write are inputs. */
module Play {
  import opened Text
  import opened Captures
  import opened Snapshots
  import opened Feed

  /** What lies under the mouse at a click: a board cell, named by its position, one of the two
      review arrows, or nothing the handler knows. */
  datatype Target = AtCell(cmd: string) | LeftArrow | RightArrow | Elsewhere

  /** The glyph of a piece still face down. */
  const DarkGlyph: string := "暗"

  /** `move(pos)`. `engineExited` is `play_process.poll() is not None`; `writeFails` is whether
      writing the command or flushing it raised. */
  function Move(st: State, pos: string, engineExited: bool, writeFails: bool): State
  {
    if st.gameOver then st
    else if engineExited then st.(gameOver := true)
    else
      var st1 := if |pos| >= 4 then st.(lastFrom := Some(pos[..2]), lastTo := Some(pos[2..4])) else st;
      if writeFails then st1.(gameOver := true) else st1.(sent := st1.sent + [pos + "\n"])
  }

  /** Once the game is over `move` does nothing. Otherwise it writes the command, newline ended,
      exactly when the engine is alive and the write succeeds, and it ends the game exactly when
      one of them fails; a command of four characters or more sets the markers unless the engine
      had already exited. Nothing else changes. */
  lemma MoveSpec(st: State, pos: string, engineExited: bool, writeFails: bool)
    ensures var r := Move(st, pos, engineExited, writeFails);
      && (st.gameOver ==> r == st)
      && (r.sent != st.sent <==> !st.gameOver && !engineExited && !writeFails)
      && (r.sent != st.sent ==> r.sent == st.sent + [pos + "\n"])
      && (!st.gameOver ==> (r.gameOver <==> engineExited || writeFails))
      && (!st.gameOver && !engineExited && |pos| >= 4 ==> r.lastFrom == Some(pos[..2]) && r.lastTo == Some(pos[2..4]))
      && (st.gameOver || engineExited || |pos| < 4 ==> r.lastFrom == st.lastFrom && r.lastTo == st.lastTo)
      && r.(sent := st.sent, gameOver := st.gameOver, lastFrom := st.lastFrom, lastTo := st.lastTo) == st
  {
    var r := Move(st, pos, engineExited, writeFails);
    if !st.gameOver && !engineExited && !writeFails {
      assert |r.sent| == |st.sent| + 1;
    }
  }

  /** The first piece whose rectangle holds the mouse, by the order of `chesses`. */
  function PieceAt(chesses: seq<Piece>, cmd: string): (r: Option<nat>)
    ensures r.Some? ==> r.value < |chesses| && chesses[r.value].cmdPos == cmd
    ensures r.Some? ==> forall j :: 0 <= j < r.value ==> chesses[j].cmdPos != cmd
    ensures r.None? ==> forall j :: 0 <= j < |chesses| ==> chesses[j].cmdPos != cmd
  {
    if chesses == [] then None
    else if chesses[0].cmdPos == cmd then Some(0)
    else match PieceAt(chesses[1..], cmd)
      case None => None
      case Some(k) => Some(k + 1)
  }

  /** The first empty point whose rectangle holds the mouse. */
  function EmptyAt(empties: seq<string>, cmd: string): (r: Option<nat>)
    ensures r.Some? ==> r.value < |empties| && empties[r.value] == cmd
    ensures r.Some? ==> forall j :: 0 <= j < r.value ==> empties[j] != cmd
    ensures r.None? ==> forall j :: 0 <= j < |empties| ==> empties[j] != cmd
  {
    if empties == [] then None
    else if empties[0] == cmd then Some(0)
    else match EmptyAt(empties[1..], cmd)
      case None => None
      case Some(k) => Some(k + 1)
  }

  /** A click on the piece `k` while the game goes on: select it when nothing is selected,
      deselect it when it is the selection, reselect within the same colour, and otherwise
      record the capture and move the selection onto it. */
  function ClickPiece(st: State, k: nat, engineExited: bool, writeFails: bool): State
    requires Valid(st) && k < |st.chesses|
  {
    match st.selected
    case None => st.(selected := Some(k))
    case Some(s) =>
      if k == s then st.(selected := None)
      else if st.chesses[k].isRed == st.chesses[s].isRed then st.(selected := Some(k))
      else
        var name := st.chesses[k].name;
        var st1 := st.(capturedByPlayer := st.capturedByPlayer + [Captured(name, name == DarkGlyph)]);
        Move(st1, st.chesses[s].cmdPos + st.chesses[k].cmdPos, engineExited, writeFails).(selected := None)
  }

  /** A click that hits no piece while the game goes on: with a selection, an empty point under
      the mouse receives the selected piece, and anything else deselects. */
  function ClickOff(st: State, p: Target, engineExited: bool, writeFails: bool): State
    requires Valid(st)
  {
    match st.selected
    case None => st
    case Some(s) =>
      var spot := if p.AtCell? then EmptyAt(st.empties, p.cmd) else None;
      match spot
      case Some(e) => Move(st, st.chesses[s].cmdPos + st.empties[e], engineExited, writeFails).(selected := None)
      case None => st.(selected := None)
  }

  /** The left-button handler. After the game only the review arrows act (the arrows are taken to
      be on screen); before it, a piece under the mouse takes precedence over an empty point. */
  function Click(st: State, p: Target, engineExited: bool, writeFails: bool): State
    requires Valid(st)
  {
    if st.gameOver then ReviewClick(st, p) else PlayClick(st, p, engineExited, writeFails)
  }

  /** A click after the game: the arrows step the review. */
  function ReviewClick(st: State, p: Target): State
  {
    match p
    case LeftArrow => StepReview(st, -1)
    case RightArrow => StepReview(st, 1)
    case _ => st
  }

  /** A click while the game goes on: the first piece under the mouse, if any, else whatever
      else is there. */
  function PlayClick(st: State, p: Target, engineExited: bool, writeFails: bool): State
    requires Valid(st)
  {
    var hit := if p.AtCell? then PieceAt(st.chesses, p.cmd) else None;
    match hit
    case Some(k) => ClickPiece(st, k, engineExited, writeFails)
    case None => ClickOff(st, p, engineExited, writeFails)
  }

  /** After the game a click writes nothing and changes nothing but the review: an arrow steps the
      cursor, anything else is ignored. */
  lemma ClickAfterGame(st: State, p: Target, engineExited: bool, writeFails: bool)
    requires Valid(st) && st.gameOver
    ensures var r := Click(st, p, engineExited, writeFails);
      && r.sent == st.sent && r.gameOver
      && r == (if p.LeftArrow? then StepReview(st, -1) else if p.RightArrow? then StepReview(st, 1) else st)
  {
    StepReviewSpec(st, -1);
    StepReviewSpec(st, 1);
    if st.snapshots != [] {
      LoadSnapshotFields(st.(reviewMode := true, reviewIdx := Clamp(st.reviewIdx - 1, |st.snapshots| - 1)), Clamp(st.reviewIdx - 1, |st.snapshots| - 1));
      LoadSnapshotFields(st.(reviewMode := true, reviewIdx := Clamp(st.reviewIdx + 1, |st.snapshots| - 1)), Clamp(st.reviewIdx + 1, |st.snapshots| - 1));
    }
  }

  /** The selection follows the clicks on pieces: nothing selected selects, the selected piece
      deselects, a piece of the same colour reselects, and a click on no piece and no empty point
      deselects. None of these writes anything. */
  lemma ClickSelection(st: State, p: Target, engineExited: bool, writeFails: bool)
    requires Valid(st) && !st.gameOver
    ensures var r, hit := Click(st, p, engineExited, writeFails), if p.AtCell? then PieceAt(st.chesses, p.cmd) else None;
      && (hit.Some? && st.selected.None? ==> r == st.(selected := hit))
      && (hit.Some? && st.selected == hit ==> r == st.(selected := None))
      && ((hit.Some? && st.selected.Some? && st.selected != hit &&
           st.chesses[hit.value].isRed == st.chesses[st.selected.value].isRed) ==> r == st.(selected := hit))
      && (hit.None? && (!p.AtCell? || EmptyAt(st.empties, p.cmd).None?) ==> r == st.(selected := None))
  {
  }

  /** A click by the player sends at most one command, and only one that moves the selected
      piece: from its position onto the position under the mouse, where the first piece hit is
      of the other colour or, with no piece there, an empty point is. The selection is then
      cleared. Conversely, such a click sends that command when the engine is alive and the write
      succeeds. */
  lemma ClickSends(st: State, p: Target, engineExited: bool, writeFails: bool)
    requires Valid(st)
    ensures var r := Click(st, p, engineExited, writeFails);
      && (r.sent == st.sent || |r.sent| == |st.sent| + 1)
      && r.sent[..|st.sent|] == st.sent
      && (MoveClick(st, p) && !engineExited && !writeFails <==> r.sent != st.sent)
      && (r.sent != st.sent ==>
            r.sent == st.sent + [st.chesses[st.selected.value].cmdPos + p.cmd + "\n"] && r.selected.None?)
  {
    if !st.gameOver {
      if p.AtCell? && PieceAt(st.chesses, p.cmd).Some? {
        ClickPieceSends(st, PieceAt(st.chesses, p.cmd).value, engineExited, writeFails);
      } else {
        ClickOffSends(st, p, engineExited, writeFails);
      }
    }
  }

  lemma ClickPieceSends(st: State, k: nat, engineExited: bool, writeFails: bool)
    requires Valid(st) && k < |st.chesses| && !st.gameOver
    ensures var r, capture := ClickPiece(st, k, engineExited, writeFails),
        st.selected.Some? && k != st.selected.value && st.chesses[k].isRed != st.chesses[st.selected.value].isRed;
      && (r.sent == st.sent || r.sent == st.sent + [st.chesses[st.selected.value].cmdPos + st.chesses[k].cmdPos + "\n"])
      && (capture && !engineExited && !writeFails <==> r.sent != st.sent)
      && (r.sent != st.sent ==> r.selected.None?)
      && r.chesses == st.chesses && r.empties == st.empties
      && r.snapshots == st.snapshots && r.reviewMode == st.reviewMode && r.reviewIdx == st.reviewIdx
      && (r.selected.Some? ==> r.selected.value < |r.chesses|)
  {
    if st.selected.Some? && st.selected.value != k && st.chesses[k].isRed != st.chesses[st.selected.value].isRed {
      var s := st.selected.value;
      var name := st.chesses[k].name;
      var st1 := st.(capturedByPlayer := st.capturedByPlayer + [Captured(name, name == DarkGlyph)]);
      MoveSpec(st1, st.chesses[s].cmdPos + st.chesses[k].cmdPos, engineExited, writeFails);
    }
  }

  lemma ClickOffSends(st: State, p: Target, engineExited: bool, writeFails: bool)
    requires Valid(st) && !st.gameOver
    ensures var r, spot := ClickOff(st, p, engineExited, writeFails), st.selected.Some? && p.AtCell? && EmptyAt(st.empties, p.cmd).Some?;
      && (r.sent == st.sent || (spot && r.sent == st.sent + [st.chesses[st.selected.value].cmdPos + p.cmd + "\n"]))
      && (spot && !engineExited && !writeFails <==> r.sent != st.sent)
      && (r.sent != st.sent ==> r.selected.None?)
      && r.chesses == st.chesses && r.empties == st.empties
      && r.snapshots == st.snapshots && r.reviewMode == st.reviewMode && r.reviewIdx == st.reviewIdx
      && (r.selected.Some? ==> r.selected.value < |r.chesses|)
  {
    if st.selected.Some? && p.AtCell? && EmptyAt(st.empties, p.cmd).Some? {
      var s := st.selected.value;
      MoveSpec(st, st.chesses[s].cmdPos + st.empties[EmptyAt(st.empties, p.cmd).value], engineExited, writeFails);
    }
  }

  /** Whether the click moves the selected piece: the game goes on, a piece is selected, and the
      mouse is on a cell whose first piece is of the other colour, or which holds no piece but an
      empty point. */
  predicate MoveClick(st: State, p: Target)
    requires Valid(st)
  {
    && !st.gameOver && st.selected.Some? && p.AtCell?
    && match PieceAt(st.chesses, p.cmd)
       case Some(k) => k != st.selected.value && st.chesses[k].isRed != st.chesses[st.selected.value].isRed
       case None => EmptyAt(st.empties, p.cmd).Some?
  }

  /** Capturing records the captured piece for the player at once, by the name it shows, dark when
      it is still face down, whether or not the move then reaches the engine. */
  lemma ClickCaptureRecorded(st: State, p: Target, engineExited: bool, writeFails: bool)
    requires Valid(st) && MoveClick(st, p) && PieceAt(st.chesses, p.cmd).Some?
    ensures var r, name := Click(st, p, engineExited, writeFails), st.chesses[PieceAt(st.chesses, p.cmd).value].name;
      r.capturedByPlayer == st.capturedByPlayer + [Captured(name, name == DarkGlyph)]
  {
  }

  /** Clicks keep the invariant and never reopen a finished game. */
  lemma ClickValid(st: State, p: Target, engineExited: bool, writeFails: bool)
    requires Valid(st)
    ensures var r := Click(st, p, engineExited, writeFails);
      Valid(r) && (st.gameOver ==> r.gameOver) && (st.reviewMode ==> r.reviewMode)
  {
    if st.gameOver {
      StepReviewValid(st, -1);
      StepReviewValid(st, 1);
      ClickAfterGame(st, p, engineExited, writeFails);
      if st.reviewMode {
        ReviewModeLatches(st, false, 0, -1);
        ReviewModeLatches(st, false, 0, 1);
      }
    } else {
      ClickPlaying(st, p, engineExited, writeFails);
    }
  }

  /** While the game goes on a click leaves the board, the snapshot log and the review alone. */
  lemma ClickPlaying(st: State, p: Target, engineExited: bool, writeFails: bool)
    requires Valid(st) && !st.gameOver
    ensures var r := Click(st, p, engineExited, writeFails);
      && r.chesses == st.chesses && r.empties == st.empties
      && r.snapshots == st.snapshots && r.reviewMode == st.reviewMode && r.reviewIdx == st.reviewIdx
      && (r.selected.Some? ==> r.selected.value < |r.chesses|)
  {
    if p.AtCell? && PieceAt(st.chesses, p.cmd).Some? {
      ClickPieceSends(st, PieceAt(st.chesses, p.cmd).value, engineExited, writeFails);
    } else {
      ClickOffSends(st, p, engineExited, writeFails);
    }
  }

  /** One event of a session: an engine line read at `now`, a left click, or a hint-timer tick. */
  datatype Event =
    | EngineLine(line: string, now: int)
    | MouseClick(p: Target, engineExited: bool, writeFails: bool)
    | HintTimer(now: int)

  predicate Fits(e: Event)
  {
    e.EngineLine? ==> LineFits(e.line)
  }

  function Step(st: State, e: Event): State
    requires Valid(st) && Fits(e)
  {
    match e
    case EngineLine(line, now) => ApplyLine(st, line, now)
    case MouseClick(p, x, w) => Click(st, p, x, w)
    case HintTimer(now) => HintTick(st, now)
  }

  /** A session: the events in the order the front end handles them. */
  function Run(st: State, es: seq<Event>): (r: State)
    requires Valid(st) && forall i :: 0 <= i < |es| ==> Fits(es[i])
    ensures Valid(r)
    decreases |es|
  {
    if es == [] then st
    else
      StepKeeps(st, es[0]);
      Run(Step(st, es[0]), es[1..])
  }

  /** One event keeps the invariant; a finished game stays finished, review mode stays on, and
      nothing is written to the engine after the game is over. */
  lemma StepKeeps(st: State, e: Event)
    requires Valid(st) && Fits(e)
    ensures var r := Step(st, e);
      && Valid(r) && (st.gameOver ==> r.gameOver && r.sent == st.sent) && (st.reviewMode ==> r.reviewMode)
  {
    match e
    case EngineLine(line, now) => ApplyLineKeeps(st, line, now);
    case MouseClick(p, x, w) =>
      ClickValid(st, p, x, w);
      if st.gameOver {
        ClickAfterGame(st, p, x, w);
      }
    case HintTimer(now) =>
  }

  /** Over a whole session: once the game is over nothing more is written to the engine, and once
      review mode is on it stays on. */
  lemma {:induction false} RunAfterGame(st: State, es: seq<Event>)
    requires Valid(st) && forall i :: 0 <= i < |es| ==> Fits(es[i])
    ensures st.gameOver ==> Run(st, es).gameOver && Run(st, es).sent == st.sent
    ensures st.reviewMode ==> Run(st, es).reviewMode
    decreases |es|
  {
    if es != [] {
      StepKeeps(st, es[0]);
      RunAfterGame(Step(st, es[0]), es[1..]);
    }
  }
}
