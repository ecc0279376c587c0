/** The review log of the front end (gui.py:572-649, gui.py:717-730): snapshots of what the
    board shows, the de-duplicating push, loading a snapshot back onto the board, and stepping
    through the log after the game. The front end's state is a value here, `State`; the class
    `BoardObject.Board` holds the same fields, and each of its methods is proved to compute the
    transition function of this module or of `Feed` and `Play`. */
module Snapshots {
  import opened Text
  import opened Positions
  import opened Captures

  /** A piece on the board, an entry of `chesses`: its position name, the glyph of its drawing
      parameters and its colour. */
  datatype Piece = Piece(cmdPos: string, name: string, isRed: bool)

  /** `_make_snapshot`'s dictionary. */
  datatype Snapshot = Snapshot(
    pieces: seq<Piece>,
    capturedByPlayer: seq<Captured>,
    capturedByAi: seq<Captured>,
    lastFrom: Option<string>,
    lastTo: Option<string>,
    gameResult: string)

  /** The fields of `Board` that the core reads or writes. `empties` holds the position names of
      `empty_chess_rects`; `selected` is `current_select_chess` as an index into `chesses`;
      `checkHintUntil` is `check_hint_until_ts` in milliseconds; `sent` is what has been written
      to the engine's standard input. */
  datatype State = State(
    chesses: seq<Piece>,
    empties: seq<string>,
    selected: Option<nat>,
    lastFrom: Option<string>,
    lastTo: Option<string>,
    gameResult: string,
    gameOver: bool,
    capturedByPlayer: seq<Captured>,
    capturedByAi: seq<Captured>,
    snapshots: seq<Snapshot>,
    reviewMode: bool,
    reviewIdx: int,
    checkHintUntil: int,
    sent: seq<string>)

  /** The state `Board.__init__` sets up (gui.py:57-81). */
  function Initial(): (st: State)
    ensures Valid(st) && !st.gameOver && !st.reviewMode && st.snapshots == [] && st.sent == []
  {
    State([], [], None, None, None, "", false, [], [], [], false, -1, 0, [])
  }

  /** What every reachable state keeps: the selection names a piece on the board, and the review
      cursor is -1 while the log is empty and a valid index once it is not. */
  predicate Valid(st: State)
  {
    && (st.selected.Some? ==> st.selected.value < |st.chesses|)
    && (if st.snapshots == [] then st.reviewIdx == -1 else 0 <= st.reviewIdx < |st.snapshots|)
  }

  /** `_make_snapshot`: the pieces with their positions, both capture lists, the last-move
      markers and the result. Every entry of `chesses` carries drawing parameters, so no piece is
      skipped. */
  function MakeSnapshot(st: State): Snapshot
  {
    Snapshot(st.chesses, st.capturedByPlayer, st.capturedByAi, st.lastFrom, st.lastTo, st.gameResult)
  }

  /** `_same_snapshot`: a missing snapshot is never the same; otherwise every field is compared
      except `last_to_cmd`. */
  predicate SameSnapshot(a: Option<Snapshot>, b: Option<Snapshot>)
  {
    && a.Some? && b.Some?
    && a.value.pieces == b.value.pieces
    && a.value.capturedByPlayer == b.value.capturedByPlayer
    && a.value.capturedByAi == b.value.capturedByAi
    && a.value.lastFrom == b.value.lastFrom
    && a.value.gameResult == b.value.gameResult
  }

  /** Two snapshots are the same exactly when they agree once `lastTo` is disregarded. */
  lemma SameSnapshotIgnoresLastTo(a: Snapshot, b: Snapshot)
    ensures SameSnapshot(Some(a), Some(b)) <==> a.(lastTo := None) == b.(lastTo := None)
    ensures !SameSnapshot(None, Some(b)) && !SameSnapshot(Some(a), None)
  {
    if a.(lastTo := None) == b.(lastTo := None) {
      assert a.(lastTo := None).pieces == a.pieces;
      assert b.(lastTo := None).pieces == b.pieces;
    }
  }

  /** On present snapshots the comparison is an equivalence. */
  lemma SameSnapshotEquivalence(a: Snapshot, b: Snapshot, c: Snapshot)
    ensures SameSnapshot(Some(a), Some(a))
    ensures SameSnapshot(Some(a), Some(b)) ==> SameSnapshot(Some(b), Some(a))
    ensures SameSnapshot(Some(a), Some(b)) && SameSnapshot(Some(b), Some(c)) ==> SameSnapshot(Some(a), Some(c))
  {
  }

  /** The last entry of a non-empty log. */
  function Last(log: seq<Snapshot>): Snapshot
    requires log != []
  {
    log[|log| - 1]
  }

  /** Whether an unforced push would be dropped as a repeat of the tail. */
  predicate RepeatsTail(st: State)
  {
    st.snapshots != [] && SameSnapshot(Some(Last(st.snapshots)), Some(MakeSnapshot(st)))
  }

  /** `push_snapshot(force)`. */
  function PushSnapshot(st: State, force: bool): State
  {
    if !force && RepeatsTail(st) then st
    else st.(snapshots := st.snapshots + [MakeSnapshot(st)], reviewIdx := |st.snapshots|)
  }

  /** A push either changes nothing, exactly when it is unforced and the current board repeats the
      tail, or appends exactly one snapshot of the current board, points the cursor at it and
      leaves the earlier entries and every other field as they were. Either way the tail then
      matches the current board. */
  lemma PushSnapshotLog(st: State, force: bool)
    ensures var r := PushSnapshot(st, force);
      && (r == st <==> !force && RepeatsTail(st))
      && (r != st ==> r.snapshots == st.snapshots + [MakeSnapshot(st)] && r.reviewIdx == |r.snapshots| - 1)
      && r.(snapshots := st.snapshots, reviewIdx := st.reviewIdx) == st
      && r.snapshots[..|st.snapshots|] == st.snapshots
      && RepeatsTail(r)
  {
    var r := PushSnapshot(st, force);
    if force || !RepeatsTail(st) {
      assert |r.snapshots| != |st.snapshots|;
      assert MakeSnapshot(r) == MakeSnapshot(st);
    }
  }

  /** A second unforced push of an unchanged board does nothing. */
  lemma PushSnapshotIdempotent(st: State, force: bool)
    ensures PushSnapshot(PushSnapshot(st, force), false) == PushSnapshot(st, force)
  {
    PushSnapshotLog(st, force);
  }

  lemma PushSnapshotValid(st: State, force: bool)
    requires Valid(st)
    ensures Valid(PushSnapshot(st, force))
  {
  }

  /** The position names of a list of pieces, in order. */
  function Cmds(ps: seq<Piece>): (cs: seq<string>)
    ensures |cs| == |ps| && forall i :: 0 <= i < |ps| ==> cs[i] == ps[i].cmdPos
  {
    seq(|ps|, i requires 0 <= i < |ps| => ps[i].cmdPos)
  }

  /** `piece_map`: position name to name and colour, built left to right, so a later piece at the
      same position replaces an earlier one. */
  function PieceMap(pieces: seq<Piece>): map<string, (string, bool)>
    decreases |pieces|
  {
    if pieces == [] then map[]
    else
      var p := pieces[|pieces| - 1];
      PieceMap(pieces[..|pieces| - 1])[p.cmdPos := (p.name, p.isRed)]
  }

  /** The map holds exactly the positions of the pieces, and each one with the last piece listed
      there. */
  lemma {:induction false} PieceMapLastWins(pieces: seq<Piece>, i: nat)
    requires i < |pieces|
    requires forall j :: i < j < |pieces| ==> pieces[j].cmdPos != pieces[i].cmdPos
    ensures pieces[i].cmdPos in PieceMap(pieces)
    ensures PieceMap(pieces)[pieces[i].cmdPos] == (pieces[i].name, pieces[i].isRed)
    decreases |pieces|
  {
    if i < |pieces| - 1 {
      var init := pieces[..|pieces| - 1];
      assert forall j :: i < j < |init| ==> init[j] == pieces[j];
      PieceMapLastWins(init, i);
    }
  }

  lemma {:induction false} PieceMapKeys(pieces: seq<Piece>, cmd: string)
    ensures cmd in PieceMap(pieces) <==> cmd in Cmds(pieces)
    decreases |pieces|
  {
    if pieces != [] {
      var init := pieces[..|pieces| - 1];
      PieceMapKeys(init, cmd);
      assert Cmds(pieces) == Cmds(init) + [pieces[|pieces| - 1].cmdPos];
    }
  }

  /** The pieces the loader's loop puts on the board while visiting the positions `ps`. */
  function LoadedChesses(m: map<string, (string, bool)>, ps: seq<string>): seq<Piece>
    decreases |ps|
  {
    if ps == [] then []
    else
      var c := ps[|ps| - 1];
      LoadedChesses(m, ps[..|ps| - 1]) + (if c in m then [Piece(c, m[c].0, m[c].1)] else [])
  }

  /** The empty cells the loader's loop records while visiting the positions `ps`. */
  function LoadedEmpties(m: map<string, (string, bool)>, ps: seq<string>): seq<string>
    decreases |ps|
  {
    if ps == [] then []
    else
      var c := ps[|ps| - 1];
      LoadedEmpties(m, ps[..|ps| - 1]) + (if c in m then [] else [c])
  }

  /** Visiting one more position adds it to the pieces or to the empty cells. */
  lemma LoadedSnoc(m: map<string, (string, bool)>, ps: seq<string>, c: string)
    ensures c in m ==> LoadedChesses(m, ps + [c]) == LoadedChesses(m, ps) + [Piece(c, m[c].0, m[c].1)]
    ensures c in m ==> LoadedEmpties(m, ps + [c]) == LoadedEmpties(m, ps)
    ensures c !in m ==> LoadedChesses(m, ps + [c]) == LoadedChesses(m, ps)
    ensures c !in m ==> LoadedEmpties(m, ps + [c]) == LoadedEmpties(m, ps) + [c]
  {
    assert (ps + [c])[..|ps|] == ps;
  }

  /** A visited position becomes a piece when the map has it and an empty cell otherwise; nothing
      else appears, and every loaded piece carries what the map says. */
  lemma {:induction false} LoadedMembers(m: map<string, (string, bool)>, ps: seq<string>, cmd: string)
    ensures cmd in Cmds(LoadedChesses(m, ps)) <==> cmd in ps && cmd in m
    ensures cmd in LoadedEmpties(m, ps) <==> cmd in ps && cmd !in m
    ensures forall j :: 0 <= j < |LoadedChesses(m, ps)| ==>
      var p := LoadedChesses(m, ps)[j]; p.cmdPos in m && m[p.cmdPos] == (p.name, p.isRed)
    decreases |ps|
  {
    if ps != [] {
      var init := ps[..|ps| - 1];
      var c := ps[|ps| - 1];
      LoadedMembers(m, init, cmd);
      assert ps == init + [c];
      var extra := if c in m then [Piece(c, m[c].0, m[c].1)] else [];
      assert Cmds(LoadedChesses(m, ps)) == Cmds(LoadedChesses(m, init)) + Cmds(extra);
      if c in m {
        assert Cmds(extra) == [c];
      } else {
        assert Cmds(extra) == [];
      }
      assert cmd in ps <==> cmd in init || cmd == c;
    }
  }

  /** Visiting distinct positions loads each of them at most once. */
  lemma {:induction false} LoadedDistinct(m: map<string, (string, bool)>, ps: seq<string>)
    requires forall j, k :: 0 <= j < k < |ps| ==> ps[j] != ps[k]
    ensures forall j, k :: 0 <= j < k < |LoadedChesses(m, ps)| ==>
      LoadedChesses(m, ps)[j].cmdPos != LoadedChesses(m, ps)[k].cmdPos
    ensures forall j, k :: 0 <= j < k < |LoadedEmpties(m, ps)| ==> LoadedEmpties(m, ps)[j] != LoadedEmpties(m, ps)[k]
    decreases |ps|
  {
    if ps != [] {
      var init := ps[..|ps| - 1];
      var c := ps[|ps| - 1];
      assert forall j :: 0 <= j < |init| ==> init[j] == ps[j];
      LoadedDistinct(m, init);
      assert c !in init;
      LoadedMembers(m, init, c);
    }
  }

  /** `load_snapshot(idx)`: out of range it changes nothing; otherwise it clears the selection,
      restores the capture lists, the markers and the result, and rebuilds the board by visiting
      the 90 positions in order, each becoming a piece or an empty cell. */
  function LoadSnapshot(st: State, idx: int): State
  {
    if idx < 0 || idx >= |st.snapshots| then st
    else
      var snap := st.snapshots[idx];
      var m := PieceMap(snap.pieces);
      st.(chesses := LoadedChesses(m, AllPositions()), empties := LoadedEmpties(m, AllPositions()),
          selected := None,
          capturedByPlayer := snap.capturedByPlayer, capturedByAi := snap.capturedByAi,
          lastFrom := snap.lastFrom, lastTo := snap.lastTo, gameResult := snap.gameResult)
  }

  /** Loading, for a caller that has rebuilt the board itself. */
  lemma LoadSnapshotIs(st: State, idx: int, cs: seq<Piece>, es: seq<string>)
    requires 0 <= idx < |st.snapshots|
    requires cs == LoadedChesses(PieceMap(st.snapshots[idx].pieces), AllPositions())
    requires es == LoadedEmpties(PieceMap(st.snapshots[idx].pieces), AllPositions())
    ensures var snap := st.snapshots[idx];
      LoadSnapshot(st, idx) == State(cs, es, None, snap.lastFrom, snap.lastTo, snap.gameResult,
        st.gameOver, snap.capturedByPlayer, snap.capturedByAi, st.snapshots, st.reviewMode,
        st.reviewIdx, st.checkHintUntil, st.sent)
  {
  }

  /** After loading, every well-formed position is on the board exactly once, as a piece when the
      snapshot lists a piece there and as an empty cell otherwise, and nothing else is. */
  lemma LoadSnapshotPartition(st: State, idx: int, cmd: string)
    requires 0 <= idx < |st.snapshots|
    ensures var r, snap := LoadSnapshot(st, idx), st.snapshots[idx];
      && (cmd in Cmds(r.chesses) <==> CmdToRowCol(cmd).Some? && cmd in Cmds(snap.pieces))
      && (cmd in r.empties <==> CmdToRowCol(cmd).Some? && cmd !in Cmds(snap.pieces))
      && (forall j, k :: 0 <= j < k < |r.chesses| ==> r.chesses[j].cmdPos != r.chesses[k].cmdPos)
      && (forall j, k :: 0 <= j < k < |r.empties| ==> r.empties[j] != r.empties[k])
  {
    var m := PieceMap(st.snapshots[idx].pieces);
    AllPositionsExactlyOnce(cmd);
    LoadedMembers(m, AllPositions(), cmd);
    PieceMapKeys(st.snapshots[idx].pieces, cmd);
    LoadedDistinct(m, AllPositions());
  }

  /** A loaded piece shows the name and colour of the last piece the snapshot lists at its
      position. */
  lemma LoadSnapshotPieces(st: State, idx: int, j: nat, i: nat)
    requires 0 <= idx < |st.snapshots| && j < |LoadSnapshot(st, idx).chesses|
    requires var ps, p := st.snapshots[idx].pieces, LoadSnapshot(st, idx).chesses[j];
      && i < |ps| && ps[i].cmdPos == p.cmdPos
      && (forall k :: i < k < |ps| ==> ps[k].cmdPos != p.cmdPos)
    ensures var ps, p := st.snapshots[idx].pieces, LoadSnapshot(st, idx).chesses[j];
      p == ps[i]
  {
    var ps := st.snapshots[idx].pieces;
    var m := PieceMap(ps);
    LoadedMembers(m, AllPositions(), "");
    PieceMapLastWins(ps, i);
  }

  /** Loading restores everything but the board from the snapshot, clears the selection, and
      leaves the log, the cursor and the flags alone; out of range it is the identity. */
  lemma LoadSnapshotFields(st: State, idx: int)
    ensures var r := LoadSnapshot(st, idx);
      && (idx < 0 || idx >= |st.snapshots| ==> r == st)
      && (0 <= idx < |st.snapshots| ==>
        var snap := st.snapshots[idx];
        && r.selected.None?
        && r.capturedByPlayer == snap.capturedByPlayer && r.capturedByAi == snap.capturedByAi
        && r.lastFrom == snap.lastFrom && r.lastTo == snap.lastTo && r.gameResult == snap.gameResult)
      && r.snapshots == st.snapshots && r.reviewIdx == st.reviewIdx && r.reviewMode == st.reviewMode
      && r.gameOver == st.gameOver && r.sent == st.sent && r.checkHintUntil == st.checkHintUntil
  {
  }

  lemma LoadSnapshotValid(st: State, idx: int)
    requires Valid(st)
    ensures Valid(LoadSnapshot(st, idx))
  {
  }

  /** `max(0, min(i, hi))`. */
  function Clamp(i: int, hi: int): int
  {
    if i > hi then (if hi < 0 then 0 else hi) else if i < 0 then 0 else i
  }

  /** `step_review(delta)`. */
  function StepReview(st: State, delta: int): State
  {
    if st.snapshots == [] then st
    else
      var ni := Clamp(st.reviewIdx + delta, |st.snapshots| - 1);
      var st1 := st.(reviewMode := true);
      if ni == st.reviewIdx then st1 else LoadSnapshot(st1.(reviewIdx := ni), ni)
  }

  /** Stepping an empty log does nothing. Otherwise it enters review mode even when the cursor
      stays put, moves the cursor by `delta` but never past either end of the log, and loads the
      snapshot under the cursor exactly when the cursor moved. */
  lemma StepReviewSpec(st: State, delta: int)
    ensures var r := StepReview(st, delta);
      && (st.snapshots == [] ==> r == st)
      && (st.snapshots != [] ==>
        && r.reviewMode
        && 0 <= r.reviewIdx < |st.snapshots|
        && (0 <= st.reviewIdx + delta < |st.snapshots| ==> r.reviewIdx == st.reviewIdx + delta)
        && (st.reviewIdx + delta < 0 ==> r.reviewIdx == 0)
        && (st.reviewIdx + delta >= |st.snapshots| ==> r.reviewIdx == |st.snapshots| - 1)
        && (r.reviewIdx == st.reviewIdx ==> r == st.(reviewMode := true))
        && (r.reviewIdx != st.reviewIdx ==> r == LoadSnapshot(st.(reviewMode := true, reviewIdx := r.reviewIdx), r.reviewIdx)))
      && r.snapshots == st.snapshots
  {
  }

  /** Inside the log, a step back followed by a step forward returns to the same snapshot. */
  lemma StepBackForward(st: State)
    requires Valid(st) && st.reviewIdx > 0
    ensures var r := StepReview(StepReview(st, -1), 1);
      r.reviewIdx == st.reviewIdx && r.reviewMode && r == LoadSnapshot(r, st.reviewIdx)
  {
  }

  lemma StepReviewValid(st: State, delta: int)
    requires Valid(st)
    ensures Valid(StepReview(st, delta))
  {
  }

  /** Review mode, once entered, is never left by these operations. */
  lemma ReviewModeLatches(st: State, force: bool, idx: int, delta: int)
    requires st.reviewMode
    ensures PushSnapshot(st, force).reviewMode && LoadSnapshot(st, idx).reviewMode
    ensures StepReview(st, delta).reviewMode
  {
  }
}
