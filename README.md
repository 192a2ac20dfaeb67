# Go rules engine of Phantom-Go, in Dafny

This project models the rules engine of a console Go game, `src/board.rs`.
A `Board` holds:
- the cell matrix `fields`, surrounded by a ring of `Invalid` sentinel cells;
- the append-only game history;
- the player to move and the komi;
- one capture counter per colour.

Five operations act on it:
- `play` records a move, hands the turn over, places the stone and removes neighbouring stone groups left without liberties;
- `move_is_valid` simulates a move on a clone and rejects suicide and the immediate repetition of a position;
- `undo` rebuilds a fresh board and replays all of the history but its last move;
- `count_score` counts territory by flood-filling the empty regions;
- `Loc::from_string` reads a coordinate typed as `row, col`.

The model has two layers.

*Value model.*
- `Rules` defines one function per operation on a `Snapshot` value, the board as a record.
- `GroupTheory`, `CaptureFacts`, `Scoring` and `PlayFacts` prove what those functions mean.
- `Locs` holds the coordinates.
- `LocText` holds the text form of a coordinate, together with the Rust library functions `Loc::from_string` relies on: `str::split(",")`, `str::trim` and `usize::from_str`.

*Object model.*
- `Engine.Board` is the board as a class whose fields are updated in place.
- Its loops keep the source's shape:
  - the sentinel loops of `new`;
  - the recursive `flood_fill` that threads `visited`;
  - the liberty set of `count_liberties`;
  - the replay loops of `move_is_valid` and `undo`;
  - the island and point accumulation of `empty_islands` and `count_board_points`.
- Each method is proved to leave the object in exactly the state that the matching `Rules` or `Scoring` definition prescribes.

The model follows the code as written. In four places the code behaves differently from what a reader of the game's documentation might expect; the model keeps each behaviour and states it as a lemma:
- A pass is never accepted by `move_is_valid`. Playing a pass leaves the cell at the pass sentinel (99,99) Empty, so the move counts as "suicide" (`PlayFacts.MoveIsValidMeaning`). The source reads that cell, so a pass needs (99,99) inside the matrix; on a smaller board it panics.
- Raw `play` does not check that the target is empty. It also removes any neighbouring group without liberties, the mover's own colour included, in the order up, down, left, right (`Rules.CheckRemove`, `CaptureFacts.PlayLeavesNeighboursAlive`). When a dead group of the mover's own colour is visited first, it takes the new stone with it, and an opposing group that had just lost its last liberty gets that point back and stays (`CaptureFacts.OwnGroupFirstSavesOpponent`, `CaptureFacts.CaptureOrderMatters`). So an opposing dead group is captured whenever the new stone stays on the board (`CaptureFacts.PlayCapturesDeadOpponent`).
- A lone stone with no liberty and no friendly neighbour is not detected as suicide (`PlayFacts.LoneStoneSuicideAccepted`).
- `reset`, and therefore `undo`, takes the starting player from the first history entry rather than from the board (`PlayFacts.UndoLosesStartingPlayer`).

A Rust panic becomes a precondition. This covers:
- `usize` underflow in `up`/`left`;
- an out-of-range index;
- reading `game_history[0]` on an empty history.

## Model

| member | source | states |
|---|---|---|
| Locs.Up | src/board.rs:73-78 | one row higher, same column; a row-0 location has no upper neighbour (underflow) |
| Locs.Down | src/board.rs:80-85 | one row lower, same column |
| Locs.Left | src/board.rs:87-92 | one column left, same row; a column-0 location has no left neighbour |
| Locs.Right | src/board.rs:94-99 | one column right, same row |
| Locs.IsOnBoard | src/board.rs:119-126 | an interior cell is off row 0 and column 0, and its lower and right neighbours are still inside the matrix |
| Locs.IsPass | src/board.rs:138-144 | a location `is_pass` accepts is the sentinel (99,99) that `Loc::pass` builds |
| Locs.NeighboursAreAdjacent | src/board.rs:73-99 | the four neighbours visited by flood fill, liberty counting and capture are exactly the orthogonally adjacent locations |
| Locs.SortLocs | src/board.rs:431-437 | the `sort` of `group_stones`: the result is strictly row-major sorted, has the same elements and the same length (a permutation of a duplicate-free list) |
| Locs.GetAll | src/board.rs:128-136 | the nested loops list every location with row < r and col < c exactly once, in strictly increasing row-major order, r*c of them |
| LocText.Split | src/board.rs:106 | `split(",")` yields at least one piece, no piece contains a comma, and a comma-free string is one piece |
| LocText.SplitJoin | src/board.rs:106 | joining the pieces with commas gives back the original string |
| LocText.SplitTwo | src/board.rs:106-110 | a string with exactly one comma splits into the text before it and the text after it |
| LocText.TrimShape | src/board.rs:106 | `trim` returns a slice of its input, with Unicode white space on both sides and at neither end of the result; trimming twice changes nothing |
| LocText.TrimPadded | src/board.rs:106 | trimming removes exactly the white space around a word whose own ends are not white space |
| LocText.ParseNumeral | src/board.rs:113-114 | `parse::<usize>` accepts an optional `+`, leading zeros and a decimal numeral, with the numeral's value when it is below 2^64; it refuses an overflowing numeral |
| LocText.ParseCanonical | src/board.rs:113-114 | conversely, every string `parse::<usize>` accepts is an optional `+`, zeros, and the numeral of the parsed value |
| LocText.ParseUsize | src/board.rs:113-114 | a parsed value is below 2^64, and an accepted string starts with `+` or a digit, so empty text, a lone sign and `-` are refused |
| LocText.FromString | src/board.rs:101-117 | `None` without a comma and when the split does not give exactly two pieces; a result has both coordinates below 2^64 |
| LocText.FromStringHalves | src/board.rs:101-117 | on text with one comma, the result is the location of the two parsed trimmed halves, and `None` as soon as either half does not parse |
| LocText.FromStringAccepted | src/board.rs:101-117 | accepted text has exactly one comma, with the row's numeral before it and the column's after it |
| LocText.FromStringShow | src/board.rs:101-117 | reading back a printed location, with any white space around either number, gives the same location |
| LocText.FromStringTyped | src/board.rs:101-117 | the text `3, 4` is read as row 3, column 4 |
| Rules.ToColor | src/board.rs:51-56 | Black plays Black stones and White plays White stones |
| Rules.Opponent | src/board.rs:58-63 | the opponent is the other player |
| Rules.AsPass | src/board.rs:154-159 | `Move::pass` keeps the player and turns the location into the pass sentinel |
| Rules.NewFields | src/board.rs:182-203 | the matrix of `new` has the requested size, the sentinel ring is intact (a cell is Invalid exactly when it is not on the board), and there are no stones |
| Rules.New | src/board.rs:182-203 | a new board is well formed, has the requested size, empty history, zero captures, and the given player and komi |
| Rules.Reset | src/board.rs:205-212 | a fresh board with the same size and komi and an empty history, whose player to move is that of the first recorded move |
| Rules.Set | src/board.rs:226-228 | `set` changes the one cell and no other; on an interior cell with a proper colour it keeps the sentinel ring |
| Rules.Clear | src/board.rs:481-483 | the cells of the set become Empty and every other cell is unchanged; the ring survives when the set holds no sentinel |
| Rules.Fill | src/board.rs:439-453 | the flood fill returns `visited` followed by new, distinct cells of the fill colour |
| Rules.GroupList | src/board.rs:439-453 | flood fill from an interior cell yields a duplicate-free list of interior cells of the seed's colour |
| Rules.Group | src/board.rs:431-437 | the group of a cell holds only interior cells of its colour, and as many as the flood fill lists |
| GroupTheory.FillExplores | src/board.rs:439-453 | every same-colour neighbour of a newly visited cell is visited by the end of the fill |
| GroupTheory.FillWithin | src/board.rs:439-453 | flood fill visits nothing outside a neighbour-closed set that contains the seed and the already visited cells |
| GroupTheory.GroupHasSeed | src/board.rs:431-437 | a group contains its seed |
| GroupTheory.GroupClosed | src/board.rs:431-453 | a group is closed under same-colour orthogonal neighbours |
| GroupTheory.GroupLeast | src/board.rs:431-453 | a group is contained in every closed set that holds its seed, so it is exactly the connected component |
| GroupTheory.GroupCanonical | src/board.rs:431-453 | every member of a group has the seed's colour and the identical group |
| GroupTheory.GroupsDisjointOrEqual | src/board.rs:431-453 | two groups are equal or disjoint |
| GroupTheory.GroupSharesLiberties | src/board.rs:455-471 | all members of a group have the same liberty count |
| GroupTheory.LibertySetAdd | src/board.rs:455-471 | adding a stone to a set adds its Empty neighbours to the liberty set, which is how the loop of `count_liberties` builds it |
| Rules.LibertySet | src/board.rs:455-470 | every liberty collected is an Empty interior cell |
| Rules.Liberties | src/board.rs:455-471 | the count is zero exactly when no stone of the group touches an Empty cell |
| Rules.RemoveGroup | src/board.rs:473-484 | every cell of the group becomes Empty and no other cell changes; a White group adds its size to Black's captures, a Black group to White's, an Empty seed changes no counter; history, player and komi are unchanged |
| Rules.CheckRemove | src/board.rs:411-416 | a stone at `l` whose group has no liberty has its whole group emptied, every other cell kept, and the group's size added to the counter of the other colour; in every other case the board is unchanged; history, player and komi are always kept |
| Rules.Play | src/board.rs:399-423 | `play` keeps the board well formed and its size, appends the move to the history and hands the turn to the opponent |
| Rules.Replay | src/board.rs:486-497 | replaying a list of moves keeps the board well formed and appends exactly those moves to the history |
| Rules.MoveIsValid | src/board.rs:369-397 | an accepted move is playable, targets an Empty cell, leaves a stone on it, and yields cells different from those of `undo`; the converse is `PlayFacts.MoveIsValidMeaning` |
| Rules.LastTwoMovesArePass | src/board.rs:499-505 | true only on a history of two moves or more, and true whenever the last two moves are passes |
| Rules.PlayIfMoveIsValid | src/board.rs:425-429 | the board stays well formed whatever the move |
| Rules.Undo | src/board.rs:486-497 | undo on an empty history returns the board unchanged; otherwise the history loses exactly its last entry, and size and komi are kept |
| CaptureFacts.ClearOtherGroup | src/board.rs:473-484 | emptying one stone group leaves the group of a stone outside it unchanged and keeps all its liberties; a group of the same colour gains none |
| CaptureFacts.LivingGroupSurvives | src/board.rs:411-416 | the capture check at any cell keeps a stone group with a liberty, with the same stones and at least its liberties |
| CaptureFacts.CheckRemoveSettles | src/board.rs:411-416 | after the capture check at a cell, that cell holds no stone or a stone with a liberty |
| CaptureFacts.CheckRemoveKeepsAlive | src/board.rs:411-416 | the capture check at any cell keeps a cell that holds no stone or a stone with a liberty in that state |
| CaptureFacts.PlayLeavesNeighboursAlive | src/board.rs:399-423 | after a stone move, every neighbour of the new stone holds no stone or a stone whose group has a liberty |
| CaptureFacts.TrackStep | src/board.rs:418-422 | one capture check next to the new stone keeps an opposing dead group dead and in place until it is removed, unless it removes the new stone |
| CaptureFacts.RunSettles | src/board.rs:418-422 | after the capture checks at each cell of a list, in order, every one of those cells holds no stone or a stone with a liberty |
| CaptureFacts.RunTracks | src/board.rs:418-422 | over the capture checks next to the new stone, an opposing group without liberties stays in place and without liberties until it is removed and counted, or the new stone is removed; the check at that group settles it |
| CaptureFacts.PlayCapturesDeadOpponent | src/board.rs:399-423 | when the new stone stays, an opposing neighbour group with no liberty after placement is emptied and its size added to the mover's captures |
| CaptureFacts.EmptyNeighbourIsLiberty | src/board.rs:455-471 | a group one of whose cells has an Empty neighbour has at least one liberty |
| CaptureFacts.CaptureOrderMatters | src/board.rs:418-422 | on a row Black-Black-White with no liberties, checking the Black pair first empties both Black cells, keeps the White stone and adds 2 to White's captures, while checking the White stone first empties it, keeps both Black stones and adds 1 to Black's captures |
| CaptureFacts.OwnGroupFirstSavesOpponent | src/board.rs:399-423 | Black playing between its own stone and a White stone on a one-row board leaves the White stone without a liberty after placement, yet `play` removes the Black pair, new stone included, keeps the White stone and adds 2 to White's captures |
| PlayFacts.ReplayAppend | src/board.rs:491-495 | replaying one more move is playing it after the replay |
| PlayFacts.ReplayParity | src/board.rs:399-404 | after n moves the player to move is the starting one exactly when n is even |
| PlayFacts.PassKeepsPosition | src/board.rs:399-408 | a pass changes no cell and no capture counter |
| PlayFacts.CheckRemoveOnlyEmpties | src/board.rs:411-416 | the capture check only empties cells |
| PlayFacts.PlayEffect | src/board.rs:399-423 | after a stone is played, its cell holds the mover's colour or is Empty (its own group was captured), every other cell is unchanged or emptied, and capture counters never decrease |
| PlayFacts.RemoveGroupKeepsTally | src/board.rs:473-484 | removing a stone group conserves stones on the board plus captures |
| PlayFacts.CheckRemoveKeepsTally | src/board.rs:411-416 | so does the capture check |
| PlayFacts.SetStoneTally | src/board.rs:407 | writing a stone on an Empty interior cell adds one stone |
| PlayFacts.PlayTally | src/board.rs:399-423 | a stone played on an Empty point adds exactly one to stones-on-board plus captures; a pass adds nothing |
| PlayFacts.UndoAfterPlay | src/board.rs:486-497 | on a game started by the player of its first move, undo after any move gives back exactly the board before that move |
| PlayFacts.UndoLosesStartingPlayer | src/board.rs:205-212 | undo can give back the wrong player to move when the first recorded move is not by the board's starting player |
| PlayFacts.MoveIsValidMeaning | src/board.rs:364-397 | a move is valid exactly when it is a stone on an Empty interior point that is still there after the simulated play, and the resulting cells differ from those of the board replayed without its last move |
| PlayFacts.ValidMoveAddsOneStone | src/board.rs:369-397 | a valid move is a stone on the board and adds one to stones plus captures |
| PlayFacts.PlayIfMoveIsValidCases | src/board.rs:425-429 | the move is appended to the history exactly when it is not a pass, lies on the board, targets an Empty point, its stone survives the capture checks and the position differs from the one `undo` would give; then the stone stands on the point and the turn passes to the opponent; any other move leaves the board completely unchanged |
| PlayFacts.LoneStoneSuicideAccepted | src/board.rs:386-396 | a lone stone without liberties is accepted as a valid move |
| PlayFacts.SmallBoardNoLiberty | src/board.rs:455-471 | on a 3 by 3 board the only interior point has no liberty |
| PlayFacts.SamePointTwiceEndsGame | src/board.rs:499-505 | two stone moves on the same point, neither a pass, end the game |
| PlayFacts.LastTwoMovesArePassChecked | src/board.rs:499-505 | true exactly when the history has at least two moves and the last two are both passes |
| Scoring.BorderingColors | src/board.rs:261-270 | a colour is among the colours bordering a region exactly when some cell of the region is adjacent to a cell of that colour |
| Scoring.Owner | src/board.rs:272-300 | a region counts for a stone colour only if it touches it, and is dame exactly when it touches both stone colours or neither |
| Scoring.CountPotentialPoints | src/board.rs:272-300 | (Invalid, 0) on a non-Empty cell; otherwise the owner of the cell's empty region, the one stone colour it touches or Empty when it touches both or none, with the region's size when it has an owner and 0 when it is dame |
| Scoring.PotentialPointsPerRegion | src/board.rs:272-300 | every cell of an empty region gets the same answer |
| Scoring.IslandsPartition | src/board.rs:246-259 | the empty regions are non-empty, cover every Empty cell, and are pairwise equal or disjoint |
| Scoring.TerritoryStep | src/board.rs:302-320 | adding a whole region adds its size to a colour's territory exactly when that colour owns it |
| Scoring.Territory | src/board.rs:302-320 | a colour's territory is made of Empty cells whose region touches that colour |
| Scoring.Score | src/board.rs:341-362 | Draw exactly when territory plus captures for Black equals territory plus captures plus komi for White; otherwise the larger side wins by the difference |
| Scoring.Decide | src/board.rs:341-362 | Draw exactly when the totals are equal; otherwise the player with the larger total wins by the positive difference |
| Engine.Board.constructor | src/board.rs:182-203 | the sentinel loops build exactly the board of `new` |
| Engine.Board.Copy | src/board.rs:169-178 | the derived `clone` copies every field |
| Engine.Board.Reset | src/board.rs:205-212 | a fresh board object equal to the reset board |
| Engine.Board.SetCell | src/board.rs:226-228 | only the one cell changes |
| Engine.Board.FloodFill | src/board.rs:439-453 | the recursive fill threading `visited` computes the flood fill |
| Engine.Board.GroupStones | src/board.rs:431-437 | the result is sorted, its elements are the group of the seed, and it has no duplicates |
| Engine.Board.CountLiberties | src/board.rs:455-471 | the count is the number of distinct Empty cells adjacent to the group |
| Engine.Board.AddLiberties | src/board.rs:464-468 | one pass of the loop adds the stone's Empty neighbours to the set |
| Engine.Board.InsertIfEmpty | src/board.rs:458-463 | the helper inserts a cell into the set exactly when it is Empty |
| Engine.Board.RemoveGroup | src/board.rs:473-484 | the object ends in the state `Rules.RemoveGroup` prescribes |
| Engine.Board.EmptyAll | src/board.rs:481-483 | the loop over the group empties exactly its cells and changes nothing else |
| Engine.Board.CheckRemove | src/board.rs:411-416 | the object ends in the state `Rules.CheckRemove` prescribes |
| Engine.Board.Play | src/board.rs:399-423 | the object ends in the state `Rules.Play` prescribes |
| Engine.Board.PlayAll | src/board.rs:491-495 | the replay loop leaves the object in the replayed state |
| Engine.Board.MoveIsValid | src/board.rs:369-397 | the clone-and-replay check returns `Rules.MoveIsValid`, characterised by `PlayFacts.MoveIsValidMeaning`, and does not change the board |
| Engine.Board.PlayIfMoveIsValid | src/board.rs:425-429 | the object ends in the state `Rules.PlayIfMoveIsValid` prescribes |
| Engine.Board.Undo | src/board.rs:486-497 | on an empty history the same object is returned; otherwise a fresh object in the state `Rules.Undo` prescribes |
| Engine.Board.EmptyIslands | src/board.rs:246-259 | the result holds sorted lists whose element sets are exactly the empty regions |
| Engine.Board.CollectIsland | src/board.rs:250-256 | one step of the loop adds the region of an Empty cell and only regions |
| Engine.Board.CountBoardPoints | src/board.rs:302-320 | the two sums are the sizes of Black's and White's territory |
| Engine.Board.CountScore | src/board.rs:341-362 | the result is the decision on territory plus captures for Black against territory plus captures plus komi for White |

## Left out

- `take_player_input` and `remove_dead_stones_for_counting` (src/board.rs:322-339, 508-515) read standard input. `count_score` is modelled as acting on the board after the dead stones have been removed; the removal itself is `remove_group`.
- The string renderers `Color::to_string`, `GameResult::to_string` and `Board::to_string` are presentation.
- The accessors `get_game_history`, `get_current_player` and `board_size` are field reads; `board_size` is `Rules.Size`.
- `board_position_is_reapated` (src/board.rs:364-367) is a field comparison, written inline in `Rules.MoveIsValid`.
- `get` (src/board.rs:222-224) is `Rules.Get`, a plain index read whose precondition is the index range.
- Komi, the totals and the margin are `f32` in the source and `real` here, so f32 rounding is not modelled. `usize` and `isize` are unbounded integers, except in `parse::<usize>`, which refuses values of 2^64 and more as on a 64-bit target.
- Hash sets are mathematical sets, so hashing and iteration order are not modelled. `EmptyIslands` returns a set of lists, as the source does.
- Unicode white space for `trim` is the White_Space property written out as code point ranges; no other Unicode processing is modelled.
- src/main.rs and src/board_test.rs target an older interface of the board and are not part of this model. Nor is the randomised undo test, which depends on a random number generator.
- Rules.New: requires at least one row and one column. With zero rows and columns the source builds an empty matrix on which every operation that reads the matrix (`board_size`, `get`, `set`, `reset`) panics, while a pass, `undo` on an empty history and `last_two_moves_are_pass` do not; with one of the two zero it panics.
- Rules.Play: requires the move to be a pass or on the interior. That is exactly when the source does not panic: a stone on a sentinel cell is written, and then a neighbour check either underflows or indexes past the matrix.
- Rules.RemoveGroup: requires an interior seed. That is exactly when the source does not panic: from a sentinel, the flood fill follows the Invalid ring until a step leaves the matrix: up from row 0 underflows, down from the last row indexes past it.
- Rules.MoveIsValid: requires the pass cell (99,99) to lie inside the matrix for a pass, and a non-empty history once the first two checks pass, because the source panics otherwise.
- Rules.Reset: requires a non-empty history, because the source reads its first entry.
- Locs.IsPass: the contract gives only the direction "a pass is the sentinel". The converse, `IsPass(PassLoc)`, follows by evaluating the body, and stating it as a postcondition made every proof that mentions a pass much more expensive for the solver.

## Findings

| source | as written | input that shows it | evidently intended | confidence | as-written member | corrected member |
|---|---|---|---|---|---|---|
| src/board.rs:499-505 | `last_two_moves_are_pass` compares the locations of the last two moves | Black plays (1,1), then White types (1,1) as well; raw `play` does not check occupancy, so it records the move and the game ends although nobody passed | true only when both of the last two moves are passes | not executed | PlayFacts.SamePointTwiceEndsGame | PlayFacts.LastTwoMovesArePassChecked |
