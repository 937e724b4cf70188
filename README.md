# Sliding-tile puzzle: the puzzle state engine

The puzzle cuts a picture into a `gridSize x gridSize` board of tiles.
The last tile, id `gridSize²-1`, is the empty slot. The board is the array
`gameState`: `gameState[p]` is the id of the tile at position `p`, in row-major
order, and the engine keeps the position of the empty tile beside it. A game
starts from the solved board `[0, 1, ..., gridSize²-1]`. It is then shuffled by
`gridSize*20` random slides of the empty tile, which guarantees the result can
be solved. A click on a tile next to the empty slot slides that tile and counts
a move. The game is won when every position holds the tile with its own id.

The engine exists twice, and both copies are modelled:

- the React component `App` (`src/App.jsx`), in module `ReactApp`. Its state
  hooks are the fields of class `ReactApp.App`. The shuffle loop of
  `startGame`, which works on the local array `newGameState`, is the method
  `ReactApp.ShuffleFromSolved`, which keeps that array.
- the older vanilla script (`_legacy_vanilla/script.js`), in module `Legacy`.
  Its module-level variables are the fields of class `Legacy.Game`, and its
  functions are methods on it.

Module `Board` holds what both copies are checked against:

- well-formed placements (a permutation of all ids, with the cached empty
  position on the empty id);
- the win test;
- the four-neighbourhood of a cell;
- slide paths of the empty tile;
- solvability: some sequence of legal slides leads back to the solved board.

Module `TimeFormat` is the `mm:ss` label of the React front end.

Randomness is an oracle. Iteration `i` of a shuffle loop receives `choices[i]`
and picks candidate `choices[i] % |valid|`. This is exactly the set of picks
that `Math.floor(Math.random() * valid.length)` can make. Each shuffle is also
specified as a function of the oracle (`Shuffle`, one `Step` per iteration). The
loop methods are proved to compute that function. The lemmas then show that
every shuffled board is reached from the starting board by legal slides
(`Trail`), is well formed, and is solvable.

The React shuffle never undoes its previous slide. The legacy shuffle can.
`shuffleBoard` records `previousIndex = emptyTileIndex` only after
`swapTilesInState` has already moved `emptyTileIndex` to the new cell. So the
excluded position is always the current empty cell, which is never its own
neighbour, and the filter removes nothing. The model keeps this behaviour as
written. `Legacy.FilterRemovesNothing` proves that the filter removes nothing,
and `Legacy.ShuffleMayUndo` exhibits a shuffle on the 3x3 board that slides up
and straight back.

Three more behaviours of the code, kept as written:

- When no candidate remains, both loops skip the iteration
  (src/App.jsx:131, _legacy_vanilla/script.js:243). Neither retries without
  the exclusion.
- The legacy filter excludes the current empty cell, as explained above.
- The model accepts any `gridSize` of at least 2. The app offers 3, 4 and 5.

## Model

| member | source | states |
|---|---|---|
| Board.IsSolved | src/App.jsx:175 | the win test `every((val, idx) => val === idx)`; a board that passes it is a permutation of 0..n-1 |
| Board.SolvedIffIdentity | _legacy_vanilla/script.js:343-344 | a board passes the win test `every((val, index) => val === index)` exactly when it equals the sorted array `[0, ..., n-1]` |
| Board.TranspositionNotSolved | src/App.jsx:175 | the sorted board is solved, and exchanging any two different cells of it gives a board that is not |
| Board.IdentityWellFormed | src/App.jsx:118-120 | the starting board (identity of length gridSize²) with the empty index at gridSize²-1 is a well-formed, solved placement |
| Board.EmptyIsUnique | _legacy_vanilla/script.js:275-278 | in a well-formed placement the empty id stands only at the cached empty position |
| Board.Swap | src/App.jsx:134 | the destructuring swap keeps the length, gives each of the two cells the other's tile, and leaves every other cell alone |
| Board.SwapTwice | src/App.jsx:134 | exchanging the same two cells twice restores the board |
| Board.SwapKeepsPermutation | _legacy_vanilla/script.js:273-274 | exchanging two cells keeps the board a permutation of 0..n-1 |
| Board.SwapChangesExactlyTwo | src/App.jsx:166-168 | exchanging two different cells of a permutation changes both of them and no other cell |
| Board.SlideKeepsWellFormed | src/App.jsx:134-136 | swapping the empty cell with any cell keeps the board well formed, with the empty position now at that cell |
| Board.Adjacent | src/App.jsx:148-159 | getAdjacent lists at most 4 positions, and at least 2 on a board at least 2 wide |
| Board.AdjacentOnBoard | src/App.jsx:148-159 | every position getAdjacent lists lies in 0..size²-1, and none is listed twice |
| Board.AdjacentIsNeighbourhood | src/App.jsx:148-159 | a position is listed exactly when it is on the board and is one row or one column away from the cell (both directions) |
| Board.AdjacentCount | src/App.jsx:148-159 | 2 neighbours at a corner, 3 on an edge, 4 inside; so at least 2 on a board at least 2 wide |
| Board.NeighbourSymmetric | src/App.jsx:153-156 | adjacency is symmetric, so every slide can be reversed |
| Board.SlidePathSnoc | src/App.jsx:127-138 | a slide path extended by one neighbour is a slide path, ending there with one more swap applied |
| Board.SlidesKeepWellFormed | src/App.jsx:127-138 | sliding along any path keeps the board well formed, with the empty position at the path's end |
| Board.RetraceUndoes | src/App.jsx:123 | retracing a slide path is a slide path that brings the empty tile back and restores the board |
| Board.ReachableIsSolvable | src/App.jsx:123 | every board reached from the solved board by legal slides is solvable |
| Board.IdentitySolvable | src/App.jsx:118-120 | the solved board itself is solvable |
| Board.SlideKeepsSolvable | src/App.jsx:161-172 | one legal slide keeps a board solvable |
| Board.SlidesKeepSolvable | _legacy_vanilla/script.js:231-250 | any path of legal slides keeps a board solvable |
| Board.ReachedWellFormed | _legacy_vanilla/script.js:231-250 | a state reached by legal slides from a well-formed board is well formed |
| Board.ExtendReach | src/App.jsx:131-137 | one loop iteration that either slides to a neighbour or leaves everything alone keeps the state reachable by the extended path |
| Board.Without | src/App.jsx:129 | `filter(idx => idx !== previous)` is never longer than its input, and `previous` does not occur in the result |
| Board.WithoutMembers | src/App.jsx:129 | `filter(idx => idx !== previous)` keeps exactly the elements other than `previous`, and returns the list unchanged when `previous` does not occur |
| Board.WithoutLength | src/App.jsx:129 | on a list without repetitions the filter removes at most one element |
| Board.Candidates | src/App.jsx:128-129 | the `valid` list of one iteration (the same in both loops): at most 4 cells, never `previous`, and at least one on a board at least 2 wide |
| Board.CandidatesInRange | _legacy_vanilla/script.js:239-241 | every candidate lies on the board |
| Board.FilteredNeighbours | src/App.jsx:128-129 | the candidates are exactly the neighbours of the empty cell other than `previous` |
| Board.CandidatesNonEmpty | src/App.jsx:131 | on a board at least 2 wide some candidate always remains |
| TimeFormat.DecimalString | src/App.jsx:184-185 | `toString()` of a non-negative integer: at least one decimal digit; one digit below 10, at most two below 100 |
| TimeFormat.DecimalStringRoundTrip | src/App.jsx:184-185 | reading the digits of `toString()` back gives the number, and it starts with '0' only for 0 |
| TimeFormat.PadStart | src/App.jsx:184-185 | `padStart(width, fill)`: length max(len, width), the string at the end, the fill before it |
| TimeFormat.LeadingZerosValue | src/App.jsx:184-185 | leading zeros do not change the value of a digit string |
| TimeFormat.AllZerosValue | src/App.jsx:184-185 | a string of zeros has value 0 |
| TimeFormat.PaddedDecimal | src/App.jsx:184-185 | `n.toString().padStart(2, '0')` has at least two digits, reads back to n, has no extra leading zero when longer than two, and is exactly two digits below 100 |
| TimeFormat.JoinParts | src/App.jsx:186 | `${m}:${s}` of a padded minutes part and a two-digit seconds part below 60 is a time label of minutes*60+seconds |
| TimeFormat.FormatTime | src/App.jsx:183-187 | the result is `mm:ss`: a colon three from the end, at least two minute digits with no superfluous zero, two second digits in 00..59, and minutes*60+seconds read back equals the input |
| ReactApp.GetAdjacent | src/App.jsx:148-159 | the pushes build exactly the up/down/left/right list; a position is in it iff it is a neighbour; 2/3/4 entries at a corner/edge/interior |
| ReactApp.Step | src/App.jsx:128-137 | one shuffle iteration stays on the board |
| ReactApp.StepIsSlide | src/App.jsx:127-138 | each iteration is a legal slide to a neighbour other than `previous` that records the vacated cell, or it changes nothing when no candidate is left |
| ReactApp.StepReach | src/App.jsx:131-137 | one iteration turns a state reached along a path into one reached along that path extended by the new empty cell, when the tile moves |
| ReactApp.Shuffle | src/App.jsx:118-138 | the state after k iterations from the identity with the empty index at gridSize²-1 and previous = -1 stays on the board |
| ReactApp.Trail | src/App.jsx:127-138 | the positions visited by the empty tile, at most one per iteration |
| ReactApp.ShuffleFollowsTrail | src/App.jsx:123-138 | the shuffled board is the solved board slid along the trail, and every step of it is a legal slide |
| ReactApp.ShuffleWellFormed | src/App.jsx:127-138 | after every iteration the board is a permutation and `newGameState[currentEmptyIndex]` is the empty id |
| ReactApp.ShuffleSolvable | src/App.jsx:123 | every shuffled board is solvable |
| ReactApp.ShuffleAlwaysSlides | src/App.jsx:131-135 | on a board at least 2 wide every iteration slides (the trail has one entry per iteration) and `previous` is the cell just left |
| ReactApp.NoImmediateUndo | src/App.jsx:129 | two consecutive iterations never bring the empty tile back where it was |
| ReactApp.SwapCells | src/App.jsx:134 | the in-place swap on `newGameState` leaves exactly `Swap` of the old contents |
| ReactApp.ShuffleIteration | src/App.jsx:128-137 | one loop iteration updates `newGameState` in place; the array, currentEmptyIndex and previous become exactly `Step` of the state before it |
| ReactApp.ShuffleFromSolved | src/App.jsx:118-138 | the in-place loop over `newGameState` computes exactly `Shuffle` after gridSize*20 iterations |
| ReactApp.App.constructor | src/App.jsx:66-73 | the initial hook values: empty board, empty index -1, inactive, zero moves and time, unsolved |
| ReactApp.App.StartGame | src/App.jsx:116-146 | board and empty index are the shuffle's result, well formed and solvable; moves = 0, time = 0, not solved, active |
| ReactApp.App.HandleTileClick | src/App.jsx:161-181 | inactive, solved, or not adjacent: nothing changes; otherwise the two cells are swapped, the empty index becomes the click, moves + 1, solved exactly when the board is the identity, and a win deactivates; the board stays well formed and solvable |
| Legacy.SwappedEmpty | _legacy_vanilla/script.js:275-278 | the new emptyTileIndex is idx1, idx2, or the old value |
| Legacy.SwappedEmptyLandsOnEmpty | _legacy_vanilla/script.js:275-278 | when idx1 holds the empty id after the swap it becomes emptyTileIndex (idx1 is tested first); when idx2 does, the new index is one of the two and holds the empty id |
| Legacy.SwapTracksEmpty | _legacy_vanilla/script.js:273-279 | when one of the two swapped cells is the empty one, emptyTileIndex follows the empty tile to the other cell and the board stays well formed |
| Legacy.Step | _legacy_vanilla/script.js:239-249 | one shuffleBoard iteration stays on the board |
| Legacy.StepIsSlide | _legacy_vanilla/script.js:238-250 | each iteration is a legal slide with previousIndex set to the new empty cell, or changes nothing; either way emptyTileIndex still points at the empty tile |
| Legacy.StepReach | _legacy_vanilla/script.js:243-248 | one iteration keeps emptyTileIndex on the empty tile and turns a state reached along a path into one reached along that path extended by the new empty cell, when the tile moves |
| Legacy.Shuffle | _legacy_vanilla/script.js:231-250 | the state after k iterations from the given board with previousIndex = -1 stays on the board |
| Legacy.Trail | _legacy_vanilla/script.js:238-250 | the positions visited by the empty tile, at most one per iteration |
| Legacy.ShuffleFollowsTrail | _legacy_vanilla/script.js:231-250 | from a board whose emptyTileIndex holds the empty id, the shuffled board is the starting board slid along the trail |
| Legacy.ShuffleWellFormed | _legacy_vanilla/script.js:231-250 | from a well-formed board, shuffling keeps the board a permutation with emptyTileIndex on the empty id |
| Legacy.ShuffleKeepsSolvable | _legacy_vanilla/script.js:231-250 | shuffling a well-formed solvable board gives a well-formed solvable board |
| Legacy.StartBoardValid | _legacy_vanilla/script.js:190-195 | the board that startGame shuffles from the solved one is non-empty, well formed and solvable |
| Legacy.NothingToExclude | _legacy_vanilla/script.js:241 | excluding the empty cell itself, or -1, removes nothing from its neighbour list |
| Legacy.PreviousIsEmpty | _legacy_vanilla/script.js:247-248 | after every iteration previousIndex is the current empty cell (or still -1), and emptyTileIndex points at the empty tile |
| Legacy.FilterRemovesNothing | _legacy_vanilla/script.js:241 | in every iteration the candidates are all the neighbours: the exclusion filter never takes effect |
| Legacy.ShuffleMayUndo | _legacy_vanilla/script.js:241-248 | on the 3x3 board the draws 0 and 1 slide the empty tile up and straight back to the solved board |
| Legacy.Game.constructor | _legacy_vanilla/script.js:21-29 | the initial module variables: no board, emptyTileIndex -1, zero moves and time, inactive, unsolved |
| Legacy.Game.GetAdjacentIndices | _legacy_vanilla/script.js:256-271 | the pushes build exactly the neighbour list of the module grid; iff it is a neighbour; 2/3/4 entries at a corner/edge/interior |
| Legacy.Game.SwapTilesInState | _legacy_vanilla/script.js:273-279 | the two cells are exchanged and emptyTileIndex moves to whichever of them now holds the empty id, idx1 first |
| Legacy.Game.ShuffleIteration | _legacy_vanilla/script.js:239-249 | one shuffleBoard iteration: gameState, emptyTileIndex and previousIndex become exactly `Step` of the state before it |
| Legacy.Game.ShuffleBoard | _legacy_vanilla/script.js:231-250 | exactly gridSize*20 iterations, and the final board and emptyTileIndex are those of `Shuffle` |
| Legacy.Game.ResetGame | _legacy_vanilla/script.js:209-215 | moves and time become 0 |
| Legacy.Game.StartGame | _legacy_vanilla/script.js:186-207 | after reset, identity and shuffle, the board is `Shuffle` of the identity, well formed and solvable; moves = 0, time = 0, active, not solved |
| Legacy.Game.CheckWin | _legacy_vanilla/script.js:342-352 | a sorted board sets isSolved and clears isGameActive; any other board changes neither |
| Legacy.Game.HandleTileClick | _legacy_vanilla/script.js:320-340 | inactive or not adjacent: nothing changes (so every click after a win is rejected); otherwise clicked and empty cells are swapped, emptyTileIndex becomes the click, moves + 1, solved exactly when the board is the identity, and a win deactivates |

## Left out

- Rendering: the DOM and the React JSX (`Tile`, `Modal`, `renderBoard`, `initBoard`, the hint overlay, CSS classes). It is presentation only.
- Background-position percentages (`col / (gridSize - 1) * 100`). They are floating-point rendering values.
- Image upload and drag-and-drop (`FileReader`, `useDropzone`, `handleImageUpload`, `resetToUpload`). They are browser I/O.
- Timers (`setInterval`, `clearInterval`, `setTimeout`, `startTimer`, `stopTimer`, the timer `useEffect`, `showWinModal`). They are host scheduling. `time` is modelled only as the field that `startGame`, `resetGame` and clicks set or keep. The legacy timer repeats the `mm:ss` formatting inline; `TimeFormat.FormatTime` covers that formatting.
- Changing the grid size. `gridSize` is a constructor parameter of at least 2, so the model cannot represent a grid change. In the React app the restart `useEffect` runs `startGame` only when no game is active (src/App.jsx:97-101). During an active game the size buttons still change `gridSize` and zero moves and time, but do not reshuffle (src/App.jsx:322-329). The old board then stays under a grid whose neighbourhoods and empty id (`isEmpty`, src/App.jsx:306) no longer fit it: a click can swap two tiles that are not neighbours on the board's own grid, and the resulting board need not be solvable. The legacy grid buttons restart the game at once whenever an image is loaded (_legacy_vanilla/script.js:33-40); the model represents that only as a new `Legacy.Game` of the new size followed by `StartGame`.
- The random number generator. It is replaced by the oracle `choices`. There is no claim about the distribution of shuffles.
- Array aliasing. The React `handleTileClick` copies the array before swapping, so it is modelled on values. The legacy `gameState` is a `seq` field that is reassigned rather than an array updated in place. Only the React shuffle keeps its local array.
- `tiles` and the unused tile-object setup code in the legacy script. They are never read by the engine.
- tailwind.config.js. It holds styling only.
- TimeFormat.DecimalString: does not model the exponential notation that `toString()` uses for numbers of 10²¹ and more; every number is written out in full.
- ReactApp.App.StartGame and Legacy.Game.StartGame require `choices` to hold at least `gridSize*20` draws, one per loop iteration.
