# Jieqi front end: engine-output decoding, review log and click handling

This project models and verifies the core of `gui.py`, the pygame front end of the Jieqi
(揭棋, "reveal chess") engine. The drawing is left out. The front end reads the engine's text
output line by line. From it, the front end rebuilds the board:
- the pieces and the empty points;
- the last-move markers;
- both capture lists;
- the result.

At every complete board it records a snapshot, and after the game the player can step through
those snapshots with two arrows. While the game goes on, left clicks select pieces and send
moves such as `h2e2` to the engine's standard input.

The model has these modules:

- `Text`: the whitespace of Python's `str.isspace`, `strip`/`lstrip`/`rstrip`, `split()`,
  `in`, `startswith`, `replace` and ASCII digits.
- `Ansi`: `_strip_ansi`, written as a scanner for `ESC [ [0-9;]* m`.
- `RowParser`: `parse_row_cells` as a loop over the row text, proved against the function
  `RowCells`, plus `is_board_row`.
- `Captures`: `_parse_captured_list` as a loop over the tokens, proved against `CapturedList`.
- `Positions`: `_cmd_to_rowcol`, the `f'{chr(col + 96)}{row_digit}'` names, and the 90
  positions in the loader's order.
- `EngineLines`: two patterns written as scanners rather than regexes, `\bcheck\b`
  (ignoring case) and `My move:\s*([a-i][0-9][a-i][0-9])`.
- `Elapsed`: `_format_elapsed_mm_ss`.
- `Snapshots`: the front end's state as a value, `State`, together with `_make_snapshot`,
  `_same_snapshot`, `push_snapshot`, `load_snapshot` and `step_review` as transition functions.
- `Feed`: the line handler of `Board.draw` as a transition function, and its fold over a
  sequence of lines.
- `Play`: `move` and the left-button handler of `main`, plus whole sessions of events.
- `BoardObject`: the class `Board`, with the fields the core updates. Its methods run the
  source's loops and field assignments in place. Each method is proved to compute the matching
  transition function on `Model()`, so every lemma about the functions holds of the object.

## Model

| member | source | states |
|---|---|---|
| Text.LStrip | gui.py:807 | the result is a suffix of the input that does not start with whitespace |
| Text.LStripSpaces | gui.py:807 | everything `lstrip` removes is whitespace |
| Text.RStrip | gui.py:110 | the result is a prefix of the input that does not end with whitespace |
| Text.RStripSpaces | gui.py:110 | everything `rstrip` removes is whitespace |
| Text.StripShape | gui.py:398 | `strip` gives a slice of the input with no whitespace at either edge, and only whitespace is cut off both sides |
| Text.StripIdempotent | gui.py:398 | stripping twice is stripping once |
| Text.StripNoEdges | gui.py:110 | a text with no whitespace at its edges is its own strip |
| Text.IndexOf | gui.py:113 | the first position of a character, or none when the character does not occur |
| Text.RemoveAllNoSpace | gui.py:120 | `replace('(暗)', '')` cannot add whitespace to a token |
| Text.RemoveAllAbsent | gui.py:120 | `replace` leaves a text without the pattern unchanged |
| Text.RemoveAllSuffix | gui.py:120 | `replace` removes a trailing mark from a text that holds no start of the mark |
| Text.TokenLen | gui.py:119 | the length of a leading token: no whitespace inside it, whitespace or the end after it |
| Text.WordsTokens | gui.py:119 | `split()` gives non-empty tokens without whitespace |
| Text.WordsOfJoin | gui.py:119 | `split()` recovers tokens joined by single spaces |
| Ansi.StripAnsi | gui.py:102-103 | removes every `ESC [ [0-9;]* m` sequence left to right and never lengthens a line; its contracts are `Ansi.StripAnsiNoEsc`, `Ansi.StripAnsiSgr`, `Ansi.StripAnsiKeep` and `Ansi.StripAnsiPlainPrefix` |
| Ansi.StripAnsiNoEsc | gui.py:102-103 | a line without ESC is unchanged |
| Ansi.StripAnsiPlainPrefix | gui.py:102-103 | a prefix without ESC survives as it is |
| Ansi.StripAnsiSgr | gui.py:102-103 | a complete `ESC [ [0-9;]* m` sequence is removed |
| Ansi.StripAnsiRedGlyph | gui.py:102-103 | a red glyph `ESC[31m c ESC[0m` leaves just its glyph |
| Ansi.StripAnsiKeep | gui.py:102-103 | a character that does not start a sequence is kept |
| Ansi.StripAnsiNested | gui.py:102-103 | one pass removes a sequence nested in another and leaves `ESC[m` behind |
| Ansi.StripAnsiNotIdempotent | gui.py:102-103 | stripping twice can remove more than stripping once |
| Captures.CapturedList | gui.py:105-123 | the capture list of a summary line, as the token items after the first colon |
| Captures.ParseCapturedList | gui.py:105-123 | the token loop computes `CapturedList` |
| Captures.ScanTokens | gui.py:118-123 | the loop over tokens gives one item for each token whose name is not empty |
| Captures.NoColonNoItems | gui.py:111-112 | a line with no colon gives no captures |
| Captures.CapturedNames | gui.py:119-123 | every captured name is non-empty and holds no whitespace |
| Captures.TokenItemOfPrint | gui.py:120-121 | a token `name` or `name(暗)` decodes to that name, and to dark exactly when it carries the mark |
| Captures.ItemsOfPrint | gui.py:119-123 | the items of printed tokens are the items printed |
| Captures.CapturedListOfPrinted | gui.py:105-123 | a summary `title: tok tok …` decodes back to the listed captures, dark marks included |
| Captures.EmptySummary | gui.py:114-115 | a summary with nothing after the colon has an empty right-hand side |
| Captures.PlayerSummaryScenario | gui.py:105-123 | `玩家吃子: 车 炮 马(暗)` gives 车 and 炮 face up and 马 dark |
| Captures.MarkOnlyDropped | gui.py:121-122 | a token that is only the dark mark gives no item |
| Positions.PosName | gui.py:490 | the name of a column and rank digit has two characters and ends with the rank digit |
| Positions.CmdToRowCol | gui.py:560-570 | accepted exactly for a two-character file `a`-`i` and digit, with column 1..9 and row `10 - rank` in 1..10 |
| Positions.NameThenDecode | gui.py:560-570 | decoding the name of column `col` and rank `r` gives row `10 - r` and column `col` |
| Positions.DecodeThenName | gui.py:560-570 | naming a decoded position gives back the token |
| Positions.AllPositions | gui.py:631-634 | the loader visits 90 positions |
| Positions.AllPositionsAt | gui.py:631-634 | the k-th visit is column `col` of rank `rank`, ranks from 9 down and columns from 1 up |
| Positions.AllPositionsExactlyOnce | gui.py:631-634 | every well-formed position is visited exactly once, and nothing else is |
| RowParser.ParseRowCells | gui.py:802-841 | the row digit is the first non-space character; the cells are `RowCells` of the text after it, with its leading whitespace removed |
| RowParser.ScanCells | gui.py:812-839 | the scanning loop computes `RowCells` |
| RowParser.ScanStep | gui.py:814-839 | one pass moves forward, and by exactly the step `CellStep` takes |
| RowParser.CellStep | gui.py:814-839 | one pass emits at most one cell and consumes at least one character |
| RowParser.RowCells | gui.py:812-841 | never more cells than characters |
| RowParser.RowCellsPlain | gui.py:836-838 | a text without escapes gives one black cell for each non-space character |
| RowParser.RowCellsRedGlyph | gui.py:820-829 | `ESC[31m c ESC[0m` gives the red cell `c` and consumes the reset |
| RowParser.RowCellsRedUnclosed | gui.py:820-829 | a red glyph with no reset after it still gives a red cell |
| RowParser.RowCellsRedAtEnd | gui.py:821-824 | a red sequence at the end of the line gives no cell |
| RowParser.RowCellsOtherSgr | gui.py:832-834 | any other colour sequence is skipped through its `m` |
| RowParser.RowCellsEscWithoutM | gui.py:832-834 | an ESC with no `m` after it is skipped by one character |
| RowParser.RowCellsOfEncode | gui.py:812-841 | decoding a row the engine prints, red glyphs in colour, gives back its cells |
| RowParser.ParseOfPrintedRow | gui.py:802-841 | a printed row `d cells` decodes to digit `d` and those cells |
| RowParser.TopRowScenario | gui.py:802-841 | `9 车马象士帅士象马车` gives digit 9 and nine black cells, 车 first and last and 帅 in the middle |
| RowParser.IsBoardRow | gui.py:756-760 | definition; its contracts are `RowParser.ScoreLineIsNotBoardRow` and `RowParser.PrintedRowIsBoardRow` |
| RowParser.ScoreLineIsNotBoardRow | gui.py:756-760 | a line of digits only, such as a score, is not a board row |
| RowParser.PrintedRowIsBoardRow | gui.py:756-760 | a printed row with a digit label is a board row |
| EngineLines.HasCheckWordFromIff | gui.py:407 | the search for `check` succeeds exactly when there is a match at some position |
| EngineLines.IsCheckLine | gui.py:405-407 | definition; its contracts are `EngineLines.CheckWordCounts` and `EngineLines.CheckScenario` |
| EngineLines.CheckWordCounts | gui.py:407 | a lone `check` in any case, between non-word characters, makes a check line |
| EngineLines.CheckmateIsNoMatch | gui.py:407 | `check` followed by a word character is no match there |
| EngineLines.CheckScenario | gui.py:407 | `Checkmate!` is not a check line and `CHECK!` is |
| EngineLines.SpaceRun | gui.py:413 | the greedy `\s*`: a run of whitespace followed by the end or by a non-space character |
| EngineLines.MoveToken | gui.py:413-414 | a reported move is four characters: a file, a digit, a file and a digit |
| EngineLines.MoveSearch | gui.py:413-414 | the leftmost match from a position, a four-character move; its other contracts are `EngineLines.MoveSearchLength` and `EngineLines.MoveSkipsPrefix` |
| EngineLines.MoveSearchLength | gui.py:413-414 | a match found from a position is followed by the prefix and four move characters within the line |
| EngineLines.MoveSkipsPrefix | gui.py:413-414 | searching a line from its start finds what searching past a leading text with no `M` finds |
| EngineLines.MoveTokenLength | gui.py:413-414 | only a line of at least 12 characters reports a move |
| EngineLines.MoveHalvesArePositions | gui.py:413-418 | both halves of a reported move are well-formed positions |
| EngineLines.MoveTokenOf | gui.py:413-414 | `My move:` followed by whitespace and a move reports that move; the text before it holds no `M` and the text after it may be anything |
| EngineLines.MoveScenario | gui.py:413-417 | `My move: h2e2` reports `h2e2` |
| Elapsed.Trunc | gui.py:214 | `int()` truncates toward zero |
| Elapsed.DecimalRoundTrip | gui.py:217 | the decimal digits of a number read back as that number |
| Elapsed.Pad2RoundTrip | gui.py:217 | `:02d` gives at least two characters, a sign only for a negative number, and reads back as the number |
| Elapsed.Pad2Seconds | gui.py:216-217 | seconds 0..59 give exactly two digits, tens then units |
| Elapsed.FormatElapsed | gui.py:213-217 | the text ends with `:` and the two-digit seconds of the truncated time |
| Elapsed.FormatElapsedRoundTrip | gui.py:213-217 | minutes and seconds read back as the truncated number of seconds, for negative times too |
| Elapsed.FormatElapsedScenario | gui.py:213-217 | 3725.9 seconds show as `62:05`, so the minutes go past 59 |
| Snapshots.Initial | gui.py:57-81 | the initial state keeps the invariant, with no game over, no review, no snapshots and nothing sent |
| Snapshots.MakeSnapshot | gui.py:572-590 | definition; its contract is `Snapshots.PushSnapshotLog` |
| Snapshots.SameSnapshot | gui.py:592-600 | definition; its contracts are `Snapshots.SameSnapshotIgnoresLastTo` and `Snapshots.SameSnapshotEquivalence` |
| Snapshots.PushSnapshot | gui.py:602-607 | definition; its contracts are `Snapshots.PushSnapshotLog`, `Snapshots.PushSnapshotIdempotent` and `Snapshots.PushSnapshotValid` |
| Snapshots.LoadSnapshot | gui.py:609-649 | definition; its contracts are `Snapshots.LoadSnapshotPartition`, `Snapshots.LoadSnapshotFields` and `Snapshots.LoadSnapshotValid` |
| Snapshots.StepReview | gui.py:717-730 | definition; its contracts are `Snapshots.StepReviewSpec`, `Snapshots.StepBackForward` and `Snapshots.StepReviewValid` |
| Snapshots.Valid | gui.py:60-74 | definition: the selection names a piece and the review cursor is -1 or an index of the log; kept by `Snapshots.PushSnapshotValid`, `Snapshots.LoadSnapshotValid`, `Snapshots.StepReviewValid` and `Play.Run` |
| Snapshots.Clamp | gui.py:724-725 | definition; its contract is `Snapshots.StepReviewSpec` |
| Snapshots.SameSnapshotIgnoresLastTo | gui.py:592-600 | two snapshots are the same exactly when they agree everywhere except `last_to_cmd`, and a missing one is never the same |
| Snapshots.SameSnapshotEquivalence | gui.py:592-600 | sameness is reflexive, symmetric and transitive |
| Snapshots.PushSnapshotLog | gui.py:602-607 | an unforced push that repeats the tail changes nothing; any other push appends exactly the current snapshot and points the cursor at it; no other field and no earlier entry changes |
| Snapshots.PushSnapshotIdempotent | gui.py:602-607 | an unforced push right after a push changes nothing |
| Snapshots.PushSnapshotValid | gui.py:602-607 | a push keeps the invariant |
| Snapshots.Cmds | gui.py:572-580 | the positions of the pieces, in order |
| Snapshots.PieceMapLastWins | gui.py:625 | `piece_map` holds a piece's name and colour under its position, the last entry winning |
| Snapshots.PieceMapKeys | gui.py:625 | `piece_map` is keyed by exactly the positions of the snapshot's pieces |
| Snapshots.LoadedSnoc | gui.py:630-648 | one position more for the loader: a piece when the map has it, an empty point otherwise |
| Snapshots.LoadedMembers | gui.py:630-648 | a visited position is a piece exactly when the map has it, and empty exactly when it does not, with the map's name and colour |
| Snapshots.LoadedDistinct | gui.py:630-648 | no position is loaded twice |
| Snapshots.LoadSnapshotPartition | gui.py:609-649 | after a load, each of the 90 positions is in exactly one of the pieces (when the snapshot has it) or the empty points, and neither list repeats a position |
| Snapshots.LoadSnapshotPieces | gui.py:625-638 | a loaded piece is the snapshot's last piece at its position |
| Snapshots.LoadSnapshotFields | gui.py:609-623 | an index out of range changes nothing; otherwise the selection is cleared and the capture lists, markers and result come from the snapshot, and the log, the cursor, review mode, game over and the hint are kept |
| Snapshots.LoadSnapshotValid | gui.py:609-649 | a load keeps the invariant |
| Snapshots.StepReviewSpec | gui.py:717-730 | an empty log changes nothing; otherwise review mode is on, the cursor is the clamped `idx + delta` within `[0, len-1]`, and a snapshot is loaded exactly when the cursor moves |
| Snapshots.StepBackForward | gui.py:717-730 | stepping back then forward from a cursor above 0 returns to it, with that snapshot loaded |
| Snapshots.StepReviewValid | gui.py:717-730 | review stepping keeps the invariant |
| Snapshots.ReviewModeLatches | gui.py:717-730 | no push, load or step turns review mode off |
| Feed.KeptCells | gui.py:482-505 | the cells the placement loop keeps are empty dots and piece glyphs |
| Feed.SkippedCellsIgnored | gui.py:482-505 | a skipped cell neither places anything nor takes a column |
| Feed.KeptColumns | gui.py:482-505 | each kept cell takes the next column: an empty dot at column `col + j` becomes an empty point there, and a piece glyph a piece there with its colour |
| Feed.NoteCapturesBy | gui.py:421-425 | a `玩家吃子` or `电脑吃子` summary replaces that side's capture list and leaves the other |
| Feed.KindOf | gui.py:398-475 | definition; its contracts are `Feed.KindOfBlank` and `Feed.KindOfHandled` |
| Feed.KindOfHandled | gui.py:427-475 | a line past the blank and check tests goes on to a result, frame, row or other test |
| Feed.DotsOf | gui.py:482-505 | definition; its contracts are `Feed.SkippedCellsIgnored` and `Feed.KeptColumns` |
| Feed.PiecesOf | gui.py:482-505 | definition; its contracts are `Feed.SkippedCellsIgnored` and `Feed.KeptColumns` |
| Feed.ApplyRow | gui.py:478-517 | definition; its contracts are `Feed.RowLinePlacesCells` and `Feed.ApplyRowKeeps` |
| Feed.PlaceRow | gui.py:480-517 | definition; its contracts are `Feed.RowPlacesCells` and `Feed.PlaceRowKeeps` |
| Feed.NoteMove | gui.py:413-418 | definition; its contracts are `Feed.NotedMarkers` and `Feed.EngineMoveRecorded` |
| Feed.NoteCaptures | gui.py:420-425 | definition; its contracts are `Feed.NoteCapturesBy` and `Feed.NotedAiList` |
| Feed.Noted | gui.py:413-425 | definition; its contracts are `Feed.NotedKeeps`, `Feed.NotedMarkers` and `Feed.NotedSurvives` |
| Feed.Finish | gui.py:428-443 | definition; its contracts are `Feed.FinishSpec` and `Feed.ResultLineEndsGame` |
| Feed.HandleLine | gui.py:404-517 | definition; its contracts are `Feed.HandleLineIs`, `Feed.CheckLineOnlyRaisesHint` and `Feed.NotedSurvives` |
| Feed.HintActive | gui.py:274-275 | definition; its contracts are `Feed.CheckLineOnlyRaisesHint` and `Feed.HintTickSpec` |
| Feed.HintTick | gui.py:917-921 | definition; its contract is `Feed.HintTickSpec` |
| Feed.Dispatch | gui.py:427-517 | definition; its contracts are `Feed.DispatchCases`, `Feed.DispatchKeeps` and `Feed.DispatchNoted` |
| Feed.ApplyLine | gui.py:397-517 | definition; its contracts are `Feed.ApplyLineCases`, `Feed.ApplyLineKeeps` and `Feed.CheckLineOnlyRaisesHint` |
| Feed.ApplyLines | gui.py:387-517 | definition; its contracts are `Feed.ReviewFreezesLines` and `Feed.ApplyLinesKeeps` |
| Feed.KindOfBlank | gui.py:398-400 | the handler's tests find a blank line exactly for an empty stripped line |
| Feed.HandleLineIs | gui.py:404-517 | a line that is not a check announcement has its markers and summaries noted and then goes to its class |
| Feed.ApplyLineCases | gui.py:398-403 | a blank line and any line in review mode change nothing; any other line is handled |
| Feed.CheckLineOnlyRaisesHint | gui.py:405-411 | a check announcement only raises the hint, which is active for 2 seconds from `now` and not after |
| Feed.ReviewFreezesLines | gui.py:401-403 | in review mode no sequence of engine lines changes anything |
| Feed.NotedKeeps | gui.py:413-425 | noting a line changes only the markers and the capture lists |
| Feed.LineKeepsTransitive | gui.py:397-517 | the frame of the line handler composes |
| Feed.ApplyLineKeeps | gui.py:397-517 | a line never changes what was sent, never clears game over or review mode, and never drops or changes an earlier snapshot |
| Feed.DispatchKeeps | gui.py:427-517 | the tests after the noting keep that frame |
| Feed.NotingKeeps | gui.py:413-425 | noting a line keeps that frame |
| Feed.KindKeeps | gui.py:427-517 | each class of line keeps that frame |
| Feed.ResultKeeps | gui.py:428-443 | a result line keeps that frame |
| Feed.BoardKindKeeps | gui.py:450-517 | a frame start, a row and any other line keep that frame |
| Feed.ApplyRowKeeps | gui.py:469-517 | a row changes only the pieces, the empty points and the log, extends the log, and keeps the invariant |
| Feed.PlaceRowKeeps | gui.py:480-517 | placing a row only appends pieces and empty points, may append a snapshot, and keeps the invariant |
| Feed.ApplyLinesKeeps | gui.py:387-517 | the same frame over any sequence of lines |
| Feed.EngineMoveRecorded | gui.py:413-418 | a line reporting `My move: mv` sets the markers to the two halves of `mv`, whatever else the line is |
| Feed.NotedSurvives | gui.py:413-517 | the markers and lists a line notes are what the handler leaves, whatever the line's class |
| Feed.DispatchCases | gui.py:427-517 | a win or a loss finishes the game with its result; `电脑吃子` clears the board and the selection; a digit-led line places a row; anything else changes nothing more |
| Feed.DispatchNoted | gui.py:427-517 | the tests after the noting keep the noted markers and lists |
| Feed.NotedMarkers | gui.py:413-418 | a reported move sets both markers |
| Feed.ResultLineEndsGame | gui.py:428-443 | `You win!` means red won and `You lost`/`You lose` black; either ends the game, appends exactly one snapshot of the final state and points the cursor at it, and leaves the board and selection |
| Feed.FinishSpec | gui.py:429-443 | finishing sets the result and game over, appends a snapshot and points the cursor at it, and changes no board, selection, review mode or sent command |
| Feed.AiSummaryStartsFrame | gui.py:424-467 | an `电脑吃子` summary replaces the AI's capture list and clears the pieces, the empty points and the selection, and leaves the log |
| Feed.NotedAiList | gui.py:424-425 | the AI list of an `电脑吃子` summary is its parsed capture list |
| Feed.RowLinePlacesCells | gui.py:469-517 | a row labelled `d` appends each empty dot at column `1 + j` to the empty points and each piece glyph there to the pieces (with its colour); every cell lands in one list, and row `0` then pushes an unforced snapshot |
| Feed.RowPlacesCells | gui.py:478-517 | the same for placing a decoded row |
| Feed.HintTickSpec | gui.py:917-921 | the timer keeps whether the hint is active, only clears a deadline, and a second tick changes nothing |
| Play.MoveSpec | gui.py:531-555 | after the game nothing changes; otherwise the command with a newline is written exactly when the engine is alive and the write succeeds, and game over is set exactly when it is not; the markers take the move's halves unless the engine has exited |
| Play.Move | gui.py:531-555 | definition; its contract is `Play.MoveSpec` |
| Play.PieceAt | gui.py:940-945 | the first piece at the position, or none when there is none |
| Play.EmptyAt | gui.py:977-982 | the first empty point at the position, or none when there is none |
| Play.ClickAfterGame | gui.py:931-936 | after the game a click sends nothing; the arrows step the review back or forward and anything else changes nothing |
| Play.ClickSelection | gui.py:940-988 | a piece is selected with nothing selected, deselected when clicked again, and reselected for the same colour; a click on no piece and no empty point deselects |
| Play.ClickSends | gui.py:923-988 | a click sends at most one command, and one exactly for a move or capture click with the engine alive and the write succeeding; the command is the selected piece's position, the target's, and a newline, and the selection is then cleared |
| Play.ClickPieceSends | gui.py:947-973 | clicking a piece sends the capture command exactly for an opposite-colour piece under a selection, and changes no board or log |
| Play.ClickOffSends | gui.py:975-988 | missing every piece sends the move command exactly with a selection and an empty point under the mouse |
| Play.ClickCaptureRecorded | gui.py:959-967 | a capture click appends the captured glyph to the player's list, marked dark exactly when it is `暗` |
| Play.ClickValid | gui.py:923-988 | a click keeps the invariant and never clears game over or review mode |
| Play.ClickPlaying | gui.py:938-988 | during the game a click changes no board, log or cursor, and a selection always names a piece |
| Play.Click | gui.py:923-988 | definition; its contracts are `Play.ClickSelection`, `Play.ClickSends` and `Play.ClickValid` |
| Play.ReviewClick | gui.py:931-936 | definition; its contract is `Play.ClickAfterGame` |
| Play.PlayClick | gui.py:938-988 | definition; its contracts are `Play.ClickPlaying`, `Play.ClickSelection` and `Play.ClickSends` |
| Play.ClickPiece | gui.py:947-973 | definition; its contract is `Play.ClickPieceSends` |
| Play.ClickOff | gui.py:975-988 | definition; its contract is `Play.ClickOffSends` |
| Play.Run | gui.py:865-988 | every session keeps the invariant |
| Play.Step | gui.py:865-988 | definition; its contract is `Play.StepKeeps` |
| Play.StepKeeps | gui.py:865-988 | one event keeps the invariant, sends nothing after the game, and keeps game over and review mode |
| Play.RunAfterGame | gui.py:865-988 | once the game is over no event sends anything, and review mode stays on |
| BoardObject.Board.constructor | gui.py:57-81 | the new board is the initial state |
| BoardObject.Board.MakeSnapshot | gui.py:572-590 | the loop gives the snapshot of the current state |
| BoardObject.Board.PushSnapshot | gui.py:602-607 | the fields become the push of the old state |
| BoardObject.Board.LoadSnapshot | gui.py:609-649 | the fields become the load of the old state |
| BoardObject.Board.Restore | gui.py:613-649 | loading an existing entry, computed in place |
| BoardObject.Board.Install | gui.py:615-623 | the field assignments of a load, and nothing else |
| BoardObject.Board.SetRecord | gui.py:619-623 | the capture lists, markers and result are restored, and nothing else |
| BoardObject.Board.SetMarkers | gui.py:621-623 | the markers and the result are restored, and nothing else |
| BoardObject.Board.RebuildBoard | gui.py:625-648 | the pieces and empty points the loader builds from a snapshot's pieces |
| BoardObject.Board.LoadBoard | gui.py:628-648 | the nested 9..0 by 1..9 loop builds the loaded pieces and empty points over all positions |
| BoardObject.Board.VisitStep | gui.py:628-632 | each pass of the inner loop extends the visited prefix by the next position |
| BoardObject.Board.BuildPieceMap | gui.py:625 | the comprehension builds `piece_map` |
| BoardObject.Board.StepReview | gui.py:717-730 | the fields become the review step of the old state |
| BoardObject.Board.Move | gui.py:531-555 | the fields become `Play.Move` of the old state |
| BoardObject.Board.FindPiece | gui.py:940-945 | the first piece at the position, as `PieceAt` |
| BoardObject.Board.FindEmpty | gui.py:977-982 | the first empty point at the position, as `EmptyAt` |
| BoardObject.Board.Click | gui.py:923-988 | the fields become `Play.Click` of the old state |
| BoardObject.Board.ReviewClick | gui.py:931-936 | after the game: the arrow clicks |
| BoardObject.Board.PlayClick | gui.py:938-988 | during the game: the piece click or the click off the pieces |
| BoardObject.Board.ClickPiece | gui.py:947-973 | select, deselect, reselect or capture |
| BoardObject.Board.Capture | gui.py:959-971 | the capture branch: record, move, deselect |
| BoardObject.Board.ClickOff | gui.py:975-988 | move to the empty point under the mouse, or deselect |
| BoardObject.Board.NoteLine | gui.py:413-425 | the markers and capture summaries of a line |
| BoardObject.Board.NoteMove | gui.py:413-418 | a reported move sets the markers |
| BoardObject.Board.NoteCaptures | gui.py:420-425 | the summaries replace the capture lists |
| BoardObject.Board.Finish | gui.py:428-443 | a result line's assignments and forced push |
| BoardObject.Board.PlaceRow | gui.py:480-517 | the row's cells placed, then the push at row `0` |
| BoardObject.Board.PlaceCells | gui.py:480-505 | the placement loop appends the row's pieces and empty points and changes nothing else |
| BoardObject.Board.PlaceCell | gui.py:483-505 | one pass: the cell's piece or empty point at column `col`, and the next column |
| BoardObject.Board.PlaceStep | gui.py:482-505 | the placement loop's step on what is left |
| BoardObject.Board.ApplyLine | gui.py:397-517 | the fields become the line step of the old state |
| BoardObject.Board.HandleLine | gui.py:404-517 | a line past the blank and review tests |
| BoardObject.Board.RaiseHint | gui.py:270-272 | the hint deadline is `now` plus 2 seconds, and nothing else changes |
| BoardObject.Board.NoteAndConclude | gui.py:413-517 | a line that is not a check announcement |
| BoardObject.Board.Conclude | gui.py:427-517 | a result, or the board tests |
| BoardObject.Board.ConcludeBoard | gui.py:450-517 | a new frame or a board row |
| BoardObject.Board.ClearBoard | gui.py:451-456 | no pieces, no empty points, no selection, and nothing else changes |
| BoardObject.Board.ApplyRow | gui.py:478-517 | `parse_row_cells`, then the placement |
| BoardObject.Board.Consume | gui.py:387-517 | the lines in queue order give the fold of the line step |
| BoardObject.Board.HintTick | gui.py:917-921 | the fields become the timer tick of the old state |

## Left out

- Everything pygame draws is left out. This covers the board, the pieces, the capture strip,
  the footer, the arrows, the hint, `select`'s grey highlight, `redraw_all` and
  `redraw_captured_strip`, with their floating-point geometry.
- Hit testing with `Rect.collidepoint` is left out. The mouse position is given as the position
  under it, or as one of the two arrows, or as anywhere else. The first piece with that
  position is the piece clicked, as the source's first collision is.
- `handle_review_click` needs the arrow rectangles, which are set only when the footer is drawn
  after the game. The model takes them as always present once the game is over.
- The engine process, its launch, `poll()`, the writes to its standard input and `safe_quit`
  are not modelled. `Play.Move` and the click methods take two inputs instead: whether the
  engine has exited, and whether the write or the flush raised. A write that raises halfway
  is modelled as sending nothing. What is sent is kept as the field `sent`.
- The two reader threads, the queue, the log files and `stop_event` are left out. The consumer
  is the fold `Feed.ApplyLines` / `Board.Consume` over the lines in queue order. The reader's
  filter of what to print is console output only, so it is left out. It is the one use of
  `is_board_row`.
- `Board.draw` runs on a thread of its own, beside `main`'s event loop (gui.py:895-897), so the
  line handler and the click handler can interleave. For example, an `电脑吃子` line can clear
  `chesses` and the selection (gui.py:452-456) after the click handler's test at gui.py:948 and
  before its uses at gui.py:957 and gui.py:970. The model runs the two handlers as one sequence of
  whole steps. `Snapshots.Valid` and `Play.Run` hold for that sequential model only.
- `time.time()` becomes an integer `now` in milliseconds, given with each line or timer event.
  A whole batch of lines shares one `now`. The hint lasts 2000 milliseconds. The elapsed-time
  text is modelled as a function of the number of seconds it is given.
- `\w` in `\bcheck\b` is approximated by `EngineLines.IsWordChar`. That covers ASCII letters,
  digits and `_`, the Latin-1 letters, the CJK ideographs and the fullwidth letters and digits.
  Other Unicode letters are not word characters in the model.
- Case folding under `re.IGNORECASE` is ASCII plus the Kelvin sign. No other Unicode folds are
  modelled.
- `str.isdigit` is modelled for ASCII digits only. The engine prints its rank labels in ASCII.
- `Feed.LineFits`: lines are assumed shorter than 0xD000 characters. Past that bound,
  `chr(col + 96)` for the column of a long row would fall in the surrogate range, which a
  Dafny `char` cannot hold.
- `_make_snapshot` skips a piece without drawing parameters. Every entry of `chesses` has
  drawing parameters, so the model has no such branch.
- `SELF_PLAY` is `False` in the source, and the branch it guards is left out. The `cap` UI
  event, the ESC key and window closing are left out as well.
- The code clears the pieces only on a stripped line that starts with `电脑吃子`, checked on the
  line with its ANSI sequences intact (gui.py:451). A frame printed without that line adds to the
  current pieces. The model follows the code.
- The `Checkmate` branch (gui.py:446-448) does nothing, and a line that reaches it goes
  through the later tests like any other. The model does the same.
- `load_snapshot` appends to `chesses` and `empty_chess_rects` inside its loop. The model's
  `Board.Restore` builds the two lists in locals first and then assigns the fields. Nothing
  else reads these fields in between.
