/** The puzzle engine of the vanilla-script front end.

    Its module-level variables become the fields of class `Game`; the
    functions that update them become methods. Randomness is an oracle:
    `choices[i]` stands for the draw of shuffle iteration i, reduced modulo the
    number of candidates. */
module Legacy {
  import opened Board

  /** Where swapTilesInState leaves emptyTileIndex after exchanging i and j:
      at whichever of the two cells now holds the empty id, looking at i
      first, and where it was if neither does. */
  function SwappedEmpty(s: seq<int>, i: int, j: int, e: int, size: nat): (r: int)
    requires 0 <= i < |s| && 0 <= j < |s|
    ensures r == i || r == j || r == e
  {
    var r := Swap(s, i, j);
    if r[i] == EmptyId(size) then i else if r[j] == EmptyId(size) then j else e
  }

  /** Whenever one of the two swapped cells holds the empty id afterwards,
      the index lands on such a cell, and on i when both do. */
  lemma SwappedEmptyLandsOnEmpty(s: seq<int>, i: int, j: int, e: int, size: nat)
    requires 0 <= i < |s| && 0 <= j < |s|
    ensures Swap(s, i, j)[i] == EmptyId(size) ==> SwappedEmpty(s, i, j, e, size) == i
    ensures Swap(s, i, j)[j] == EmptyId(size) ==>
      var r := SwappedEmpty(s, i, j, e, size);
      (r == i || r == j) && Swap(s, i, j)[r] == EmptyId(size)
  {
  }

  /** When one of the two swapped cells is the empty one, the index follows
      the empty tile to the other cell and the board stays well formed. */
  lemma SwapTracksEmpty(s: seq<int>, i: int, j: int, e: int, size: nat)
    requires WellFormed(s, e, size) && 0 <= i < |s| && 0 <= j < |s|
    requires i == e || j == e
    ensures SwappedEmpty(s, i, j, e, size) == (if i == e then j else i)
    ensures WellFormed(Swap(s, i, j), SwappedEmpty(s, i, j, e, size), size)
  {
    var r := Swap(s, i, j);
    if i == e {
      SlideKeepsWellFormed(s, e, j, size);
      if j != e {
        assert r[i] == s[j];
        if j < e { assert s[j] != s[e]; } else { assert s[e] != s[j]; }
      }
    } else {
      assert r[i] == s[e];
      SlideKeepsWellFormed(s, e, i, size);
      assert Swap(s, e, i) == r;
    }
  }

  // ---------------------------------------------------------------------------
  // The shuffle of shuffleBoard, as a specification

  /** One iteration: slide the empty tile to the candidate the draw picks,
      then record as "previous" the value emptyTileIndex has after the swap,
      which is the empty tile's new cell. */
  function Step(st: ShuffleState, size: nat, choice: nat): (r: ShuffleState)
    requires OnBoard(st, size)
    ensures OnBoard(r, size)
  {
    var valid := Candidates(st, size);
    CandidatesInRange(st, size);
    if |valid| > 0 then
      var randomNext := valid[choice % |valid|];
      assert randomNext in valid;
      var e := SwappedEmpty(st.board, randomNext, st.empty, st.empty, size);
      ShuffleState(Swap(st.board, randomNext, st.empty), e, e)
    else st
  }

  /** The iteration that finds a candidate: the cells it swaps and where it
      leaves the empty index and the previous index. */
  lemma StepTaken(st: ShuffleState, size: nat, choice: nat)
    requires OnBoard(st, size) && |Candidates(st, size)| > 0
    ensures var next := Candidates(st, size)[choice % |Candidates(st, size)|];
      && 0 <= next < |st.board|
      && var e := SwappedEmpty(st.board, next, st.empty, st.empty, size);
         Step(st, size, choice) == ShuffleState(Swap(st.board, next, st.empty), e, e)
  {
    var valid := Candidates(st, size);
    CandidatesInRange(st, size);
    assert valid[choice % |valid|] in valid;
  }

  /** The state after k iterations of shuffleBoard started on `board` with the
      empty tile at `empty` and previousIndex = -1. */
  function Shuffle(board: seq<int>, empty: int, size: nat, choices: seq<nat>, k: nat): (r: ShuffleState)
    requires OnBoard(ShuffleState(board, empty, -1), size) && k <= |choices|
    ensures OnBoard(r, size)
  {
    if k == 0 then ShuffleState(board, empty, -1)
    else Step(Shuffle(board, empty, size, choices, k - 1), size, choices[k - 1])
  }

  /** The positions the empty tile visits during the first k iterations. */
  function Trail(board: seq<int>, empty: int, size: nat, choices: seq<nat>, k: nat): (t: seq<int>)
    requires OnBoard(ShuffleState(board, empty, -1), size) && k <= |choices|
    ensures |t| <= k
  {
    if k == 0 then []
    else
      var before := Shuffle(board, empty, size, choices, k - 1);
      Trail(board, empty, size, choices, k - 1)
        + (if |Candidates(before, size)| > 0 then [Shuffle(board, empty, size, choices, k).empty] else [])
  }

  /** The cached empty position holds the empty id: all shuffleBoard needs
      for emptyTileIndex to follow the empty tile. */
  predicate HoldsEmpty(st: ShuffleState, size: nat) {
    OnBoard(st, size) && st.board[st.empty] == EmptyId(size)
  }

  /** An iteration either slides the empty tile to a neighbour and records
      that new cell as previous, or changes nothing; either way the empty
      index still points at the empty tile. */
  lemma StepIsSlide(st: ShuffleState, size: nat, choice: nat)
    requires HoldsEmpty(st, size)
    ensures var r := Step(st, size, choice);
      && HoldsEmpty(r, size)
      && if |Candidates(st, size)| > 0 then
           && IsNeighbour(st.empty, r.empty, size)
           && r.board == Swap(st.board, st.empty, r.empty) && r.previous == r.empty
         else r == st
  {
    var valid := Candidates(st, size);
    FilteredNeighbours(st.empty, st.previous, size);
    if |valid| > 0 {
      var next := valid[choice % |valid|];
      assert next in valid;
      assert Swap(st.board, next, st.empty)[next] == EmptyId(size);
      assert Swap(st.board, next, st.empty) == Swap(st.board, st.empty, next);
    }
  }

  /** One iteration keeps the state reached along the trail, extended by the
      cell the empty tile moves to when it moves. */
  lemma StepReach(s0: seq<int>, e0: int, front: seq<int>, before: ShuffleState, size: nat, choice: nat,
                  trail: seq<int>, after: ShuffleState)
    requires HoldsEmpty(before, size)
    requires after == Step(before, size, choice)
    requires trail == front + (if |Candidates(before, size)| > 0 then [after.empty] else [])
    ensures HoldsEmpty(after, size)
    ensures ReachedBy(s0, e0, front, before, size) ==> ReachedBy(s0, e0, trail, after, size)
  {
    StepIsSlide(before, size, choice);
    if ReachedBy(s0, e0, front, before, size) {
      ExtendReach(s0, e0, front, before, |Candidates(before, size)| > 0, after, trail, size);
    }
  }

  /** Iteration j + 1 of the loop takes one more step. */
  lemma ShuffleUnfold(board: seq<int>, empty: int, size: nat, choices: seq<nat>, j: nat)
    requires OnBoard(ShuffleState(board, empty, -1), size) && j < |choices|
    ensures Shuffle(board, empty, size, choices, j + 1) == Step(Shuffle(board, empty, size, choices, j), size, choices[j])
  {
  }

  /** Iteration j + 1 extends the trail by the cell the empty tile moves to,
      when it moves. */
  lemma TrailUnfold(board: seq<int>, empty: int, size: nat, choices: seq<nat>, j: nat)
    requires OnBoard(ShuffleState(board, empty, -1), size) && j < |choices|
    ensures Trail(board, empty, size, choices, j + 1) == Trail(board, empty, size, choices, j)
      + (if |Candidates(Shuffle(board, empty, size, choices, j), size)| > 0 then [Shuffle(board, empty, size, choices, j + 1).empty] else [])
  {
  }

  /** The shuffled board is the starting board with the empty tile slid along
      the trail. */
  lemma {:induction false} ShuffleFollowsTrail(board: seq<int>, empty: int, size: nat, choices: seq<nat>, k: nat)
    requires HoldsEmpty(ShuffleState(board, empty, -1), size) && k <= |choices|
    ensures ReachedBy(board, empty, Trail(board, empty, size, choices, k), Shuffle(board, empty, size, choices, k), size)
  {
    if k > 0 {
      var j := k - 1;
      ShuffleFollowsTrail(board, empty, size, choices, j);
      PreviousIsEmpty(board, empty, size, choices, j);
      ShuffleUnfold(board, empty, size, choices, j);
      TrailUnfold(board, empty, size, choices, j);
      StepReach(board, empty, Trail(board, empty, size, choices, j), Shuffle(board, empty, size, choices, j),
                size, choices[j], Trail(board, empty, size, choices, k), Shuffle(board, empty, size, choices, k));
    } else {
      ReachedAtStart(board, empty, Shuffle(board, empty, size, choices, 0), size);
    }
  }

  /** Shuffling keeps a board well formed. */
  lemma ShuffleWellFormed(board: seq<int>, empty: int, size: nat, choices: seq<nat>, k: nat)
    requires size > 0 && WellFormed(board, empty, size) && k <= |choices|
    ensures var r := Shuffle(board, empty, size, choices, k);
      WellFormed(r.board, r.empty, size)
  {
    ShuffleFollowsTrail(board, empty, size, choices, k);
    ReachedWellFormed(board, empty, Trail(board, empty, size, choices, k), Shuffle(board, empty, size, choices, k), size);
  }

  /** Shuffling keeps a board well formed and solvable. */
  lemma ShuffleKeepsSolvable(board: seq<int>, empty: int, size: nat, choices: seq<nat>, k: nat)
    requires size > 0 && WellFormed(board, empty, size) && Solvable(board, empty, size) && k <= |choices|
    ensures var r := Shuffle(board, empty, size, choices, k);
      WellFormed(r.board, r.empty, size) && Solvable(r.board, r.empty, size)
  {
    ShuffleWellFormed(board, empty, size, choices, k);
    ShuffleFollowsTrail(board, empty, size, choices, k);
    SlidesKeepSolvable(board, empty, Trail(board, empty, size, choices, k), size);
  }

  /** The board startGame shuffles from the solved one is a non-empty,
      well-formed and solvable placement. */
  lemma StartBoardValid(size: nat, choices: seq<nat>)
    requires size >= 2 && |choices| >= size * 20
    ensures var r := Shuffle(Identity(size * size), EmptyId(size), size, choices, size * 20);
      r.board != [] && WellFormed(r.board, r.empty, size) && Solvable(r.board, r.empty, size)
  {
    IdentityWellFormed(size);
    IdentitySolvable(size);
    ShuffleKeepsSolvable(Identity(size * size), EmptyId(size), size, choices, size * 20);
  }

  /** A previous position that is the empty cell itself, or -1, is never
      among the empty cell's neighbours, so filtering it out removes nothing. */
  lemma NothingToExclude(st: ShuffleState, size: nat)
    requires OnBoard(st, size) && (st.previous == st.empty || st.previous == -1)
    ensures Candidates(st, size) == Adjacent(st.empty, size)
  {
    AdjacentIsNeighbourhood(st.empty, size);
    WithoutMembers(Adjacent(st.empty, size), st.previous);
    assert st.previous !in Adjacent(st.empty, size);
  }

  /** After every iteration the recorded previous position is the empty cell
      itself, or still -1, and the empty index points at the empty tile. */
  lemma {:induction false} PreviousIsEmpty(board: seq<int>, empty: int, size: nat, choices: seq<nat>, k: nat)
    requires HoldsEmpty(ShuffleState(board, empty, -1), size) && k <= |choices|
    ensures var st := Shuffle(board, empty, size, choices, k);
      (st.previous == st.empty || st.previous == -1) && HoldsEmpty(st, size)
  {
    if k > 0 {
      var j := k - 1;
      PreviousIsEmpty(board, empty, size, choices, j);
      ShuffleUnfold(board, empty, size, choices, j);
      StepIsSlide(Shuffle(board, empty, size, choices, j), size, choices[j]);
    }
  }

  /** So the exclusion filter never removes anything. */
  lemma FilterRemovesNothing(board: seq<int>, empty: int, size: nat, choices: seq<nat>, k: nat)
    requires size > 0 && WellFormed(board, empty, size) && k <= |choices|
    ensures var st := Shuffle(board, empty, size, choices, k);
      Candidates(st, size) == Adjacent(st.empty, size)
  {
    PreviousIsEmpty(board, empty, size, choices, k);
    NothingToExclude(Shuffle(board, empty, size, choices, k), size);
  }

  /** So, unlike the React shuffle, this one may undo its last slide: on the
      3x3 board the draws 0 and 1 move the empty tile up and straight back,
      restoring the solved board. */
  lemma ShuffleMayUndo()
    ensures var st := Shuffle(Identity(9), 8, 3, [0, 1], 2);
      st.empty == 8 && st.board == Identity(9)
  {
    var s0 := Shuffle(Identity(9), 8, 3, [0, 1], 0);
    assert Adjacent(8, 3) == [5, 7];
    assert Candidates(s0, 3) == [5, 7];
    var s1 := Shuffle(Identity(9), 8, 3, [0, 1], 1);
    assert s1.empty == 5 && s1.previous == 5;
    assert Adjacent(5, 3) == [2, 8, 4];
    assert Candidates(s1, 3) == [2, 8, 4];
    var s2 := Shuffle(Identity(9), 8, 3, [0, 1], 2);
    assert s2.empty == 8;
    SwapTwice(Identity(9), 8, 5);
    assert s1.board == Swap(Identity(9), 5, 8);
    assert s2.board == Swap(s1.board, 8, 5);
  }

  // ---------------------------------------------------------------------------
  // The module state

  class Game {
    const gridSize: nat
    var gameState: seq<int>
    var emptyTileIndex: int
    var moves: nat
    var time: nat
    var isGameActive: bool
    var isSolved: bool

    /** Once a board exists it is a solvable permutation with emptyTileIndex on
        the empty tile; a solved game is no longer active and its board is the
        identity. */
    ghost predicate Valid()
      reads this
    {
      && gridSize >= 2
      && (gameState == [] ==> !isGameActive && !isSolved)
      && (gameState != [] ==>
            WellFormed(gameState, emptyTileIndex, gridSize) && Solvable(gameState, emptyTileIndex, gridSize))
      && (isSolved ==> !isGameActive && IsSolved(gameState))
    }

    /** The initial values of the module variables, for a chosen grid size. */
    constructor (size: nat)
      requires size >= 2
      ensures Valid() && gridSize == size
      ensures gameState == [] && emptyTileIndex == -1
      ensures moves == 0 && time == 0 && !isGameActive && !isSolved
    {
      gridSize := size;
      gameState := [];
      emptyTileIndex := -1;
      moves := 0;
      time := 0;
      isGameActive := false;
      isSolved := false;
    }

    /** getAdjacentIndices: push the up, down, left and right neighbours that
        exist on the module's grid. */
    method GetAdjacentIndices(index: int) returns (adj: seq<int>)
      requires gridSize > 0 && 0 <= index < gridSize * gridSize
      ensures adj == Adjacent(index, gridSize)
      ensures forall q :: q in adj <==> IsNeighbour(index, q, gridSize)
      ensures gridSize >= 2 && IsCorner(index, gridSize) ==> |adj| == 2
      ensures gridSize >= 2 && IsEdge(index, gridSize) ==> |adj| == 3
      ensures gridSize >= 2 && IsInterior(index, gridSize) ==> |adj| == 4
    {
      var row := index / gridSize;
      var col := index % gridSize;
      adj := [];
      if row > 0 { adj := adj + [index - gridSize]; }
      if row < gridSize - 1 { adj := adj + [index + gridSize]; }
      if col > 0 { adj := adj + [index - 1]; }
      if col < gridSize - 1 { adj := adj + [index + 1]; }
      AdjacentIsNeighbourhood(index, gridSize);
      if gridSize >= 2 { AdjacentCount(index, gridSize); }
    }

    /** swapTilesInState: exchange two cells and move emptyTileIndex to the one
        that now holds the empty id. */
    method SwapTilesInState(idx1: int, idx2: int)
      requires 0 <= idx1 < |gameState| && 0 <= idx2 < |gameState|
      modifies this`gameState, this`emptyTileIndex
      ensures gameState == Swap(old(gameState), idx1, idx2)
      ensures emptyTileIndex == SwappedEmpty(old(gameState), idx1, idx2, old(emptyTileIndex), gridSize)
    {
      gameState := Swap(gameState, idx1, idx2);
      if gameState[idx1] == gridSize * gridSize - 1 {
        emptyTileIndex := idx1;
      } else if gameState[idx2] == gridSize * gridSize - 1 {
        emptyTileIndex := idx2;
      }
    }

    /** shuffleBoard: gridSize*20 iterations of Step on the current board. */
    method ShuffleBoard(choices: seq<nat>)
      requires OnBoard(ShuffleState(gameState, emptyTileIndex, -1), gridSize)
      requires |choices| >= gridSize * 20
      modifies this`gameState, this`emptyTileIndex
      ensures var st := Shuffle(old(gameState), old(emptyTileIndex), gridSize, choices, gridSize * 20);
        gameState == st.board && emptyTileIndex == st.empty
    {
      var shuffleMoves := gridSize * 20;
      var previousIndex := -1;
      ghost var board, empty := gameState, emptyTileIndex;
      for i := 0 to shuffleMoves
        invariant ShuffleState(gameState, emptyTileIndex, previousIndex)
                  == Shuffle(board, empty, gridSize, choices, i)
      {
        ShuffleUnfold(board, empty, gridSize, choices, i);
        previousIndex := ShuffleIteration(previousIndex, choices[i]);
      }
    }

    /** One iteration of the shuffleBoard loop; returns the new previousIndex. */
    method ShuffleIteration(previousIndex: int, choice: nat) returns (nextPrevious: int)
      requires OnBoard(ShuffleState(gameState, emptyTileIndex, previousIndex), gridSize)
      modifies this`gameState, this`emptyTileIndex
      ensures ShuffleState(gameState, emptyTileIndex, nextPrevious)
              == Step(ShuffleState(old(gameState), old(emptyTileIndex), previousIndex), gridSize, choice)
    {
      ghost var st := ShuffleState(gameState, emptyTileIndex, previousIndex);
      var adjacent := GetAdjacentIndices(emptyTileIndex);
      var valid := Without(adjacent, previousIndex);
      assert valid == Candidates(st, gridSize);
      nextPrevious := previousIndex;
      if |valid| > 0 {
        var randomNext := valid[choice % |valid|];
        StepTaken(st, gridSize, choice);
        SwapTilesInState(randomNext, emptyTileIndex);
        nextPrevious := emptyTileIndex;
      }
    }

    /** resetGame: stop the clock and zero the counters. */
    method ResetGame()
      modifies this`moves, this`time
      ensures moves == 0 && time == 0
    {
      moves := 0;
      time := 0;
    }

    /** startGame: reset, lay out the solved board, shuffle it, activate. */
    method StartGame(choices: seq<nat>)
      requires Valid() && |choices| >= gridSize * 20
      modifies this
      ensures Valid()
      ensures var st := Shuffle(Identity(gridSize * gridSize), EmptyId(gridSize), gridSize, choices, gridSize * 20);
        gameState == st.board && emptyTileIndex == st.empty
      ensures moves == 0 && time == 0 && isGameActive && !isSolved
    {
      ResetGame();
      var totalTiles := gridSize * gridSize;
      gameState := Identity(totalTiles);
      emptyTileIndex := totalTiles - 1;
      assert gameState == Identity(gridSize * gridSize) && emptyTileIndex == EmptyId(gridSize);
      StartBoardValid(gridSize, choices);
      ShuffleBoard(choices);
      isGameActive := true;
      isSolved := false;
    }

    /** checkWin: a board in sorted order ends the game. */
    method CheckWin()
      modifies this`isGameActive, this`isSolved
      ensures IsSolved(gameState) ==> !isGameActive && isSolved
      ensures !IsSolved(gameState) ==> isGameActive == old(isGameActive) && isSolved == old(isSolved)
    {
      var isWinning := forall i :: 0 <= i < |gameState| ==> gameState[i] == i;
      if isWinning {
        isGameActive := false;
        isSolved := true;
      }
    }

    /** handleTileClick: in an active game, a click on a neighbour of the empty
        cell slides that tile, counts the move and checks for a win; any other
        click changes nothing. */
    method HandleTileClick(clickedIndex: int)
      requires Valid()
      modifies this`gameState, this`emptyTileIndex, this`moves, this`isGameActive, this`isSolved
      ensures Valid() && time == old(time)
      ensures !old(isGameActive) || clickedIndex !in Adjacent(old(emptyTileIndex), gridSize) ==>
        && gameState == old(gameState) && emptyTileIndex == old(emptyTileIndex) && moves == old(moves)
        && isGameActive == old(isGameActive) && isSolved == old(isSolved)
      ensures old(isGameActive) && clickedIndex in Adjacent(old(emptyTileIndex), gridSize) ==>
        && IsNeighbour(old(emptyTileIndex), clickedIndex, gridSize)
        && gameState == Swap(old(gameState), clickedIndex, old(emptyTileIndex))
        && emptyTileIndex == clickedIndex && moves == old(moves) + 1
        && isSolved == (gameState == Identity(gridSize * gridSize))
        && isGameActive == !isSolved
    {
      if !isGameActive {
        return;
      }
      var adjacent := GetAdjacentIndices(emptyTileIndex);
      if clickedIndex in adjacent {
        ghost var before := gameState;
        ghost var e := emptyTileIndex;
        SwapTilesInState(clickedIndex, emptyTileIndex);
        SwapTracksEmpty(before, clickedIndex, e, e, gridSize);
        SlideKeepsSolvable(before, e, clickedIndex, gridSize);
        assert Swap(before, e, clickedIndex) == gameState;
        moves := moves + 1;
        SolvedIffIdentity(gameState);
        CheckWin();
      }
    }
  }
}
