# Falling-block game and local leaderboard, modelled in Dafny

This project models two pieces of a browser falling-block puzzle game.

- **The simulation engine of `game.js`.**
  - The 20x10 board and the catalogue of seven pieces with their pre-rotated 4x4 grids.
  - The collision test.
  - Moving, and rotating with a two-kick fallback.
  - Locking a piece into the board, and clearing full rows with 100 points per row.
  - The gravity step that locks a piece, spawns the next one and decides game over.
  - The keyboard mapping.
  - The fixed-timestep frame accumulator.
  - The restart reset.
- **The score store of `api.js`.**
  - The local top-ten list: load, insert, sort and truncate.
  - The record built from the player's name.
  - The choice between local storage and the remote endpoint, with its fall-back.

Everything is a pure function over immutable values. A game session is a `Game` record, and every operation returns the next session. Storage is a map from key to a parsed value. The random piece kind, the frame timestamp, `Date.now()` and the outcome of a network request are parameters.

Files:

- `shapes.dfy` (module `Shapes`): the board dimensions and the shape catalogue.
- `playfield.dfy` (module `Playfield`): the board, the piece, collision, merging and line clearing.
- `session.dfy` (module `Session`): the session, moves, rotation, drops, the frame timer, keys, restart and the safety invariant.
- `scenarios.dfy` (module `Scenarios`): two concrete plays.
- `leaderboard.dfy` (module `Leaderboard`): the score store.

Main results:

- **Collision.** `Collide` is `collide`'s row-major scan in `game.js`. It is proved equal to a reference predicate, `Overlaps`. That predicate holds when some occupied cell lands off either side, below the floor, or on a settled cell at a row of 0 or more.
- **Line clearing.** `ClearLines` follows `clearLines`' bottom-up loop, including the re-scan of the same index after a removal. It is proved to return k empty rows followed by the input's non-full rows in their original order, where k is the number of full rows. It reports k rows cleared.
- **Safety.** `Inv` says that while the game runs, the falling piece never collides. A new game establishes it. Moves, rotations, keys, drops, frames and whole runs of frames preserve it. A spawn that collides ends the game.
- **Leaderboard.** The stored list has length min(10, previous length + 1). It is sorted by score descending, then by timestamp descending. It is drawn from the previous list plus the new record, and it outranks every entry the cut dropped. It holds the new record whenever the previous list was short. Loading after a save returns exactly the saved list.

Behaviour of `game.js` the model keeps:

- There is no pause state, no difficulty setting, no high-score persistence and no sound in `game.js`. The drop interval is fixed at 1000 ms.
- `rotatePiece` itself has no game-over guard. Keys are ignored after game over because the keydown handler checks first.
- The accumulator keeps counting after game over. Only the drop it triggers is a no-op.
- On an empty board an O piece at column 4 comes to rest at y = 18. Its grid occupies grid rows 0 and 1, so it stops when its lower row reaches row 19 (`Scenarios.OPieceRestsAtRow18`).
- An upright I piece fills a one-cell gap in the bottom row, and the completed row is cleared in the same gravity step (`Scenarios.UprightIClearsTheBottomRow`).
- Restart sets the previous-frame timestamp to 0, but frame timestamps keep counting from page load. The first frame after a restart that comes more than 1000 ms into the page therefore drops the new piece one row at once (`Session.RestartDropsOnFirstLateFrame`).

## Model

| member | source | states |
|---|---|---|
| Shapes.CatalogueWellFormed | game.js:16-115 | seven kinds with 2, 1, 4, 2, 2, 4, 4 rotation states; every state is a 4x4 grid of 0 or the kind's index plus one, with exactly four occupied cells |
| Playfield.CreateBoard | game.js:134-136 | a board of 20 rows of 10 cells, every cell empty |
| Playfield.CreatePiece | game.js:139-149 | a new piece has the given kind, rotation 0 with that kind's first grid, and sits at x = 3, y = 0 |
| Playfield.ScanCells | game.js:194-212 | the nested scan from cell (i, j) on answers true exactly when some occupied cell at or after (i, j) in row-major order is blocked |
| Playfield.Collide | game.js:192-213 | collision holds exactly when some occupied cell, shifted by (dx, dy), lands left or right of the board, at row 20 or below, or on a settled cell at a row of 0 or more |
| Playfield.FreeImpliesFits | game.js:200-203 | a piece that does not collide has every occupied cell within the side walls and above the floor |
| Playfield.MergeRow | game.js:219-227 | writing one grid row sets exactly the board cells under its occupied cells at rows of 0 or more, leaving the rest unchanged |
| Playfield.MergeRows | game.js:218-228 | writing grid rows i onwards sets exactly the board cells under their occupied cells to the grid values, leaving the rest unchanged |
| Playfield.Merge | game.js:216-229 | locking keeps the 20x10 shape, sets the cells under the piece's occupied cells to the grid values, and leaves every other cell as it was |
| Playfield.MergeFillsFreeCells | game.js:216-229 | for a catalogue piece that does not collide, every cell it covers was empty and now holds the kind's colour; all cells stay within 0..7 |
| Playfield.RemoveRowStep | game.js:235-239 | removing full row y and putting an empty row on top leaves one full row fewer at or above y and the same final layout, so y is scanned again |
| Playfield.ClearScan | game.js:234-241 | the scan from row y upwards yields the empty rows for the full rows at or above y, then those rows' non-full rows in order, then the untouched rows below y, and counts the full rows |
| Playfield.ClearLines | game.js:232-246 | the cleared board is k empty rows followed by the input's non-full rows in their original order, and k rows are reported, where k is the number of full rows |
| Playfield.ClearLinesWellFormed | game.js:232-246 | after clearing, the board is still 20x10, no full row remains, at most 20 rows were cleared, and cell values stay within 0..7 |
| Playfield.ClearLinesNothingFull | game.js:234-241 | a board without full rows comes back unchanged with 0 rows cleared |
| Session.SpawnIsFreeOnEmptyBoard | game.js:365-367 | a piece of any kind spawned on an empty board does not collide |
| Session.NewGame | game.js:336-345 | start and restart give an empty board, a fresh piece, score 0, a running game and a zeroed drop counter and previous-frame time; the safety invariant holds |
| Session.Move | game.js:281-290 | a move succeeds exactly when the game runs and the shifted piece does not overlap; success adds (dx, dy) to the position, and otherwise nothing changes |
| Session.MovePreservesInv | game.js:284-289 | a move keeps the running piece free of collisions |
| Session.Rotate | game.js:249-278 | the next rotation index stays in range; the result is the first of the new grid at x, x-1 or x+1 that does not overlap, or else the original piece exactly; a free piece stays free and a catalogue piece stays one |
| Session.HandleKey | game.js:311-333 | after game over keys do nothing; the left, right and down arrows move by (-1,0), (1,0) and (0,1); up and space rotate; other keys do nothing; only the piece changes and the safety invariant is kept |
| Session.Drop | game.js:293-308 | a free piece moves down one row; a blocked one is locked, full rows are cleared and scored at 100 each, a piece of the given kind spawns, and the game ends exactly when that piece collides; after game over nothing changes; the score never decreases |
| Session.DropPreservesInv | game.js:296-306 | a gravity step keeps the running piece free of collisions, the board 20x10 and its cells within 0..7 |
| Session.Advance | game.js:349-357 | a frame records its timestamp and adds the elapsed time to the counter; strictly above 1000 ms it fires once and resets the counter to 0; the counter never exceeds 1000 ms afterwards |
| Session.DropsBoundedByElapsedTime | game.js:349-357 | over whole-millisecond frames with non-decreasing timestamps, each drop consumes more than 1000 ms, hence at least 1001 ms, so drops times 1001 plus the remaining counter never exceed the starting counter plus the elapsed time |
| Session.Frame | game.js:348-357 | one frame advances the timer and, exactly when it fires, performs one gravity step |
| Session.FramePreservesInv | game.js:348-357 | a frame keeps the safety invariant |
| Session.Run | game.js:348-363 | a run of frames keeps the safety invariant, never lowers the score, and after game over changes only the timer |
| Session.RunFollowsTimer | game.js:349-357 | the drop counter and previous-frame time after a run depend only on the frame timestamps |
| Session.RestartDropsOnFirstLateFrame | game.js:336-357 | after a restart, a first frame later than 1000 ms moves the new piece down one row and resets the counter |
| Scenarios.OPieceRestsAtRow18 | game.js:281-290 | on an empty board an O piece at column 4 moves down from rows 0 to 17 and is blocked at row 18 |
| Scenarios.UprightILocksIntoGap | game.js:216-229 | an upright I resting on a bottom row that is full except column 5 fits, is blocked one row lower, and locking it fills the bottom row |
| Scenarios.GapRowClears | game.js:232-246 | clearing that board removes only the bottom row and moves the rows above down one |
| Scenarios.UprightIClearsTheBottomRow | game.js:293-308 | the gravity step that locks that I scores 100, leaves the I's upper three cells one row lower, and the next piece spawns without ending the game |
| Leaderboard.CompareMatchesRank | api.js:95-101 | the comparator is antisymmetric and is non-positive exactly when the first record has a higher score, or an equal score and a timestamp no earlier (a missing timestamp counts as 0) |
| Leaderboard.Insert | api.js:95-101 | inserting adds exactly the new record to the list's contents |
| Leaderboard.InsertKeepsSorted | api.js:95-101 | inserting into a sorted list keeps it sorted by score, then timestamp, both descending |
| Leaderboard.Sort | api.js:95-101 | sorting permutes the list |
| Leaderboard.SortSorts | api.js:95-101 | the sorted list is ordered by score descending, then timestamp descending |
| Leaderboard.TopScores | api.js:92-104 | the kept list has length min(10, previous length + 1) |
| Leaderboard.PrefixOutranksRest | api.js:104 | the first n entries of a sorted list are sorted and rank at least as high as every entry after them |
| Leaderboard.TopScoresSpec | api.js:92-104 | the kept list is sorted, holds only entries of the previous list or the new record, ranks at least as high as every dropped entry, and keeps everything, the new record included, when the previous list had fewer than 10 entries |
| Leaderboard.LoadTopScores | api.js:39-50 | loading gives the stored array when the key holds text that parses to an array, and the empty list for a missing key, empty text, unparsable text or a non-array value |
| Leaderboard.SaveLocal | api.js:88-110 | a local save returns true, stores the kept list under `tetrisTopScores`, and touches no other key |
| Leaderboard.SaveThenLoad | api.js:88-110 | loading after a save returns exactly the kept list: sorted, at most 10 entries, and holding the new record if the previous list was short |
| Leaderboard.SavesKeepAtMostTen | api.js:88-110 | after n ≥ 1 saves the stored list has min(10, previous length + n) entries |
| Leaderboard.TrimStart | api.js:55 | removes exactly the leading whitespace |
| Leaderboard.TrimEnd | api.js:55 | removes exactly the trailing whitespace |
| Leaderboard.Trim | api.js:55 | the trimmed name starts and ends with a non-space character, or is empty |
| Leaderboard.TrimIsInfix | api.js:55 | the trimmed name is the slice between leading and trailing whitespace, and it is empty exactly when the name is all whitespace |
| Leaderboard.PlayerName | api.js:55 | the record name is never empty: 'Player' for an all-whitespace name, otherwise the trimmed name |
| Leaderboard.MakeRecord | api.js:53-59 | the record carries the defaulted name, the score, the difficulty or 'medium' when none is given, and the current time |
| Leaderboard.GetTopScores | api.js:12-36 | reads are local when local storage is on or the endpoint is unset or empty, and also when the request fails; otherwise the response's scores, or the empty list when it has none |
| Leaderboard.SaveScore | api.js:53-85 | saves are local under the same conditions and on a failed request; otherwise storage is untouched and the response's success flag is returned; a false result never changes storage |
| Leaderboard.SaveFailsOpen | api.js:61-84 | a save reports failure only when the endpoint answers that it failed; a save that went to local storage puts the new record on a short list |
| Leaderboard.DefaultConfigIsLocal | api.js:4-9 | the shipped configuration routes every read and write to local storage |

## Left out

- Canvas drawing (`drawBlock`, `drawBoard`, `drawPiece`, `COLORS`, `BLOCK_SIZE`): output only, with no effect on game state.
- DOM wiring: the element lookups, the score and game-over text, and the `hidden` class. The keydown handler is modelled as `Session.HandleKey` (without `preventDefault`). The restart handler is modelled as `Session.NewGame`.
- The `requestAnimationFrame` recursion: one frame is `Session.Frame` over integer milliseconds, and `Session.Run` folds a list of frames. Browser timestamps are fractional.
- `Math.random`: the kind of the next piece is a parameter, and any kind 0..6 may be chosen.
- The null checks on `currentPiece`: after initialisation a piece always exists, so the model has no missing piece.
- Session.Drop: requires that a running game's piece lies within the walls and above the floor. Otherwise `mergePiece` misbehaves in two ways. A cell at row 20 or below reads a missing row: the merge writes the piece's cells on rows 0..19, then throws a TypeError, and the frame loop stops. A cell left or right of the board writes outside the row: column 10 grows the row to 11 cells, and column -1 adds a property that is not an index. `Session.Inv` guarantees the condition, and `Session.DropPreservesInv` keeps it.
- Playfield.Merge: requires the same condition, for the same reason; both misbehaviours are left unmodelled.
- `initAPI`: a configuration setter. The configuration is a parameter of `Leaderboard.GetTopScores` and `Leaderboard.SaveScore`.
- Session.DropsBoundedByElapsedTime: the factor 1001 relies on frame timestamps being whole milliseconds. With the fractional timestamps browsers pass, only the factor 1000 holds: frames at 0 and 1000.5 ms fire once after 1000.5 ms.
- `fetch`, the request timeout, `async`/`await` and `console.warn`: the outcome of a request is a parameter, either a response body or a failure.
- A JSON `null` response body: reading `scores` or `success` from it throws, and the caller falls back to local storage. The model counts such a body as a failed request.
- A truthy `success` value that is not a boolean: `saveScore` returns it as it is. The model returns its truthiness.
- `localStorage`, `JSON.parse` and `JSON.stringify`: storage is a map from key to a parsed value. The model assumes that serialising the list and parsing it back gives the same list.
- Stored arrays whose elements are not score records, scores that are not integers, and a `scores` field that is a truthy non-array: not modelled.
- `Date.now()`: the timestamp is a parameter.
- `trim`: the whitespace set is fixed (space, tab, line feed, vertical tab, form feed, carriage return, no-break space, byte-order mark). JavaScript's full Unicode whitespace class is wider.
- Leaderboard.Sort: the modelled insertion keeps equal-ranked entries in list order, like the stable sort of the language. That stability is not stated as a contract; only sortedness and permutation are.
- Scores and timestamps are unbounded integers. JavaScript numbers are exact only up to 2^53.
- sounds.js: audio synthesis and scheduling, which do not touch the game state.
