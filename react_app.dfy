/** The puzzle engine of the React front end (the `App` component).

    The component's state hooks become the fields of class `App`; each setter
    called in an event handler becomes an assignment to its field, applied in
    the order of the calls. Randomness is an oracle: `choices[i]` stands for the
    draw of iteration i, reduced modulo the number of candidates. */
module ReactApp {
  import opened Board

  /** getAdjacent: push the up, down, left and right neighbours that exist. */
  method GetAdjacent(index: int, size: nat) returns (adj: seq<int>)
    requires size > 0 && 0 <= index < size * size
    ensures adj == Adjacent(index, size)
    ensures forall q :: q in adj <==> IsNeighbour(index, q, size)
    ensures size >= 2 && IsCorner(index, size) ==> |adj| == 2
    ensures size >= 2 && IsEdge(index, size) ==> |adj| == 3
    ensures size >= 2 && IsInterior(index, size) ==> |adj| == 4
  {
    var row := index / size;
    var col := index % size;
    adj := [];
    if row > 0 { adj := adj + [index - size]; }
    if row < size - 1 { adj := adj + [index + size]; }
    if col > 0 { adj := adj + [index - 1]; }
    if col < size - 1 { adj := adj + [index + 1]; }
    AdjacentIsNeighbourhood(index, size);
    if size >= 2 { AdjacentCount(index, size); }
  }

  // ---------------------------------------------------------------------------
  // The shuffle of startGame, as a specification

  /** One iteration: if a candidate is left, slide the empty tile to the one
      the draw picks and remember the cell it came from. */
  function Step(st: ShuffleState, size: nat, choice: nat): (r: ShuffleState)
    requires OnBoard(st, size)
    ensures OnBoard(r, size)
  {
    var valid := Candidates(st, size);
    CandidatesInRange(st, size);
    if |valid| > 0 then
      var next := valid[choice % |valid|];
      assert next in valid;
      ShuffleState(Swap(st.board, st.empty, next), next, st.empty)
    else st
  }

  /** The iteration that finds a candidate: the cell it slides the empty tile
      to, and the state it leaves. */
  lemma StepTaken(st: ShuffleState, size: nat, choice: nat)
    requires OnBoard(st, size) && |Candidates(st, size)| > 0
    ensures var next := Candidates(st, size)[choice % |Candidates(st, size)|];
      && 0 <= next < |st.board|
      && Step(st, size, choice) == ShuffleState(Swap(st.board, st.empty, next), next, st.empty)
  {
    var valid := Candidates(st, size);
    CandidatesInRange(st, size);
    assert valid[choice % |valid|] in valid;
  }

  /** An iteration either slides the empty tile to a neighbour other than the
      previous cell, remembering where it came from, or changes nothing. */
  lemma StepIsSlide(st: ShuffleState, size: nat, choice: nat)
    requires OnBoard(st, size)
    ensures var r := Step(st, size, choice);
      if |Candidates(st, size)| > 0 then
        && IsNeighbour(st.empty, r.empty, size) && r.empty != st.previous
        && r.board == Swap(st.board, st.empty, r.empty) && r.previous == st.empty
      else r == st
  {
    var valid := Candidates(st, size);
    FilteredNeighbours(st.empty, st.previous, size);
    if |valid| > 0 {
      assert valid[choice % |valid|] in valid;
    }
  }

  /** The state after k iterations, starting from the solved board with the
      empty tile in the last cell and no previous position. */
  function Shuffle(size: nat, choices: seq<nat>, k: nat): (r: ShuffleState)
    requires size > 0 && k <= |choices|
    ensures OnBoard(r, size)
  {
    if k == 0 then
      ShuffleState(Identity(size * size), EmptyId(size), -1)
    else
      Step(Shuffle(size, choices, k - 1), size, choices[k - 1])
  }

  /** The positions the empty tile visits during the first k iterations. */
  function Trail(size: nat, choices: seq<nat>, k: nat): (t: seq<int>)
    requires size > 0 && k <= |choices|
    ensures |t| <= k
  {
    if k == 0 then []
    else
      var before := Shuffle(size, choices, k - 1);
      Trail(size, choices, k - 1)
        + (if |Candidates(before, size)| > 0 then [Shuffle(size, choices, k).empty] else [])
  }

  /** One iteration keeps the state reached along the trail, extended by the
      cell the empty tile moves to when it moves. */
  lemma StepReach(s0: seq<int>, e0: int, front: seq<int>, before: ShuffleState, size: nat, choice: nat,
                  trail: seq<int>, after: ShuffleState)
    requires OnBoard(before, size)
    requires after == Step(before, size, choice)
    requires trail == front + (if |Candidates(before, size)| > 0 then [after.empty] else [])
    ensures ReachedBy(s0, e0, front, before, size) ==> ReachedBy(s0, e0, trail, after, size)
  {
    if ReachedBy(s0, e0, front, before, size) {
      StepIsSlide(before, size, choice);
      ExtendReach(s0, e0, front, before, |Candidates(before, size)| > 0, after, trail, size);
    }
  }

  /** Iteration j + 1 of the loop takes one more step. */
  lemma ShuffleUnfold(size: nat, choices: seq<nat>, j: nat)
    requires size > 0 && j < |choices|
    ensures Shuffle(size, choices, j + 1) == Step(Shuffle(size, choices, j), size, choices[j])
  {
  }

  /** Iteration j + 1 extends the trail by the cell the empty tile moves to,
      when it moves. */
  lemma TrailUnfold(size: nat, choices: seq<nat>, j: nat)
    requires size > 0 && j < |choices|
    ensures Trail(size, choices, j + 1) == Trail(size, choices, j)
      + (if |Candidates(Shuffle(size, choices, j), size)| > 0 then [Shuffle(size, choices, j + 1).empty] else [])
  {
  }

  /** The shuffled board is the solved board with the empty tile slid along
      the trail: every intermediate board is reached by a legal slide. */
  lemma {:induction false} ShuffleFollowsTrail(size: nat, choices: seq<nat>, k: nat)
    requires size > 0 && k <= |choices|
    ensures ReachedBy(Identity(size * size), EmptyId(size), Trail(size, choices, k), Shuffle(size, choices, k), size)
  {
    if k > 0 {
      var j := k - 1;
      ShuffleFollowsTrail(size, choices, j);
      ShuffleUnfold(size, choices, j);
      TrailUnfold(size, choices, j);
      StepReach(Identity(size * size), EmptyId(size), Trail(size, choices, j), Shuffle(size, choices, j),
                size, choices[j], Trail(size, choices, k), Shuffle(size, choices, k));
    } else {
      IdentityWellFormed(size);
      ReachedAtStart(Identity(size * size), EmptyId(size), Shuffle(size, choices, 0), size);
    }
  }

  /** Every shuffled board is a well-formed placement of the tiles. */
  lemma ShuffleWellFormed(size: nat, choices: seq<nat>, k: nat)
    requires size > 0 && k <= |choices|
    ensures WellFormed(Shuffle(size, choices, k).board, Shuffle(size, choices, k).empty, size)
  {
    ShuffleFollowsTrail(size, choices, k);
    IdentityWellFormed(size);
    SlidesKeepWellFormed(Identity(size * size), EmptyId(size), Trail(size, choices, k), size);
  }

  /** Every shuffled board can be solved by legal slides. */
  lemma ShuffleSolvable(size: nat, choices: seq<nat>, k: nat)
    requires size > 0 && k <= |choices|
    ensures Solvable(Shuffle(size, choices, k).board, Shuffle(size, choices, k).empty, size)
  {
    ShuffleFollowsTrail(size, choices, k);
    ReachableIsSolvable(Trail(size, choices, k), size);
  }

  /** On a board at least 2 wide every iteration slides a tile, and from the
      first slide on `previous` is the cell the empty tile last left. */
  lemma {:induction false} ShuffleAlwaysSlides(size: nat, choices: seq<nat>, k: nat)
    requires size >= 2 && k <= |choices|
    ensures |Trail(size, choices, k)| == k
    ensures k > 0 ==> Shuffle(size, choices, k).previous == Shuffle(size, choices, k - 1).empty
  {
    if k > 0 {
      var j := k - 1;
      ShuffleAlwaysSlides(size, choices, j);
      ShuffleUnfold(size, choices, j);
      TrailUnfold(size, choices, j);
      var before := Shuffle(size, choices, j);
      CandidatesNonEmpty(before.empty, before.previous, size);
      StepIsSlide(before, size, choices[j]);
    }
  }

  /** The shuffle never undoes its last slide: two iterations never bring the
      empty tile back to where it was. */
  lemma NoImmediateUndo(size: nat, choices: seq<nat>, k: nat)
    requires size >= 2 && 1 <= k && k + 1 <= |choices|
    ensures Shuffle(size, choices, k + 1).empty != Shuffle(size, choices, k - 1).empty
  {
    ShuffleAlwaysSlides(size, choices, k);
    var mid := Shuffle(size, choices, k);
    CandidatesNonEmpty(mid.empty, mid.previous, size);
    StepIsSlide(mid, size, choices[k]);
  }

  /** The destructuring swap `[a[i], a[j]] = [a[j], a[i]]` on an array. */
  method SwapCells(a: array<int>, i: int, j: int)
    requires 0 <= i < a.Length && 0 <= j < a.Length
    modifies a
    ensures a[..] == Swap(old(a[..]), i, j)
  {
    a[i], a[j] := a[j], a[i];
  }

  /** One iteration of the shuffle loop of startGame, updating newGameState
      in place and returning the new currentEmptyIndex and previous. */
  method ShuffleIteration(newGameState: array<int>, currentEmptyIndex: int, previous: int, size: nat, choice: nat)
      returns (nextEmptyIndex: int, nextPrevious: int)
    requires OnBoard(ShuffleState(newGameState[..], currentEmptyIndex, previous), size)
    modifies newGameState
    ensures ShuffleState(newGameState[..], nextEmptyIndex, nextPrevious)
            == Step(ShuffleState(old(newGameState[..]), currentEmptyIndex, previous), size, choice)
  {
    ghost var st := ShuffleState(newGameState[..], currentEmptyIndex, previous);
    var adjacent := GetAdjacent(currentEmptyIndex, size);
    var valid := Without(adjacent, previous);
    assert valid == Candidates(st, size);
    if |valid| > 0 {
      var next := valid[choice % |valid|];
      StepTaken(st, size, choice);
      SwapCells(newGameState, currentEmptyIndex, next);
      nextEmptyIndex, nextPrevious := next, currentEmptyIndex;
    } else {
      nextEmptyIndex, nextPrevious := currentEmptyIndex, previous;
    }
  }

  /** The shuffle loop of startGame, on the local array newGameState: the
      solved board, then gridSize*20 slides of the empty tile. */
  method ShuffleFromSolved(size: nat, choices: seq<nat>) returns (board: seq<int>, empty: int)
    requires size > 0 && |choices| >= size * 20
    ensures ShuffleState(board, empty, Shuffle(size, choices, size * 20).previous)
            == Shuffle(size, choices, size * 20)
  {
    var totalTiles := size * size;
    var newGameState := new int[totalTiles](i => i);
    assert newGameState[..] == Identity(totalTiles);
    var currentEmptyIndex := totalTiles - 1;
    var previous := -1;
    var shuffleSteps := size * 20;
    for i := 0 to shuffleSteps
      invariant newGameState.Length == totalTiles
      invariant ShuffleState(newGameState[..], currentEmptyIndex, previous) == Shuffle(size, choices, i)
    {
      ShuffleUnfold(size, choices, i);
      currentEmptyIndex, previous := ShuffleIteration(newGameState, currentEmptyIndex, previous, size, choices[i]);
    }
    board, empty := newGameState[..], currentEmptyIndex;
  }

  // ---------------------------------------------------------------------------
  // The component state

  class App {
    const gridSize: nat
    var gameState: seq<int>
    var emptyIndex: int
    var isGameActive: bool
    var moves: nat
    var time: nat
    var isSolved: bool

    /** While a game is on, and after it is won, the board is a solvable
        permutation with the empty index on the empty tile; a solved game is
        no longer active and its board is the identity. */
    ghost predicate Valid()
      reads this
    {
      && gridSize >= 2
      && (isGameActive || isSolved ==>
            WellFormed(gameState, emptyIndex, gridSize) && Solvable(gameState, emptyIndex, gridSize))
      && (isSolved ==> !isGameActive && IsSolved(gameState))
    }

    /** The initial values of the state hooks, for a chosen grid size. */
    constructor (size: nat)
      requires size >= 2
      ensures Valid() && gridSize == size
      ensures gameState == [] && emptyIndex == -1
      ensures !isGameActive && moves == 0 && time == 0 && !isSolved
    {
      gridSize := size;
      gameState := [];
      emptyIndex := -1;
      isGameActive := false;
      moves := 0;
      time := 0;
      isSolved := false;
    }

    /** startGame: a freshly shuffled board, counters reset, game active. */
    method StartGame(choices: seq<nat>)
      requires Valid() && |choices| >= gridSize * 20
      modifies this
      ensures Valid()
      ensures gameState == Shuffle(gridSize, choices, gridSize * 20).board
      ensures emptyIndex == Shuffle(gridSize, choices, gridSize * 20).empty
      ensures WellFormed(gameState, emptyIndex, gridSize) && Solvable(gameState, emptyIndex, gridSize)
      ensures moves == 0 && time == 0 && !isSolved && isGameActive
    {
      var newGameState, currentEmptyIndex := ShuffleFromSolved(gridSize, choices);
      ShuffleWellFormed(gridSize, choices, gridSize * 20);
      ShuffleSolvable(gridSize, choices, gridSize * 20);
      gameState := newGameState;
      emptyIndex := currentEmptyIndex;
      moves := 0;
      time := 0;
      isSolved := false;
      isGameActive := true;
    }

    /** handleTileClick: a click on a neighbour of the empty cell of an active,
        unsolved game slides that tile; any other click changes nothing. */
    method HandleTileClick(index: int)
      requires Valid()
      modifies this`gameState, this`emptyIndex, this`moves, this`isSolved, this`isGameActive
      ensures Valid() && time == old(time)
      ensures !old(isGameActive) || old(isSolved) || index !in Adjacent(old(emptyIndex), gridSize) ==>
        && gameState == old(gameState) && emptyIndex == old(emptyIndex) && moves == old(moves)
        && isSolved == old(isSolved) && isGameActive == old(isGameActive)
      ensures old(isGameActive) && !old(isSolved) && index in Adjacent(old(emptyIndex), gridSize) ==>
        && IsNeighbour(old(emptyIndex), index, gridSize)
        && gameState == Swap(old(gameState), index, old(emptyIndex))
        && emptyIndex == index && moves == old(moves) + 1
        && isSolved == (gameState == Identity(gridSize * gridSize))
        && isGameActive == !isSolved
    {
      if !isGameActive || isSolved {
        return;
      }
      var adjacent := GetAdjacent(emptyIndex, gridSize);
      if index in adjacent {
        var newState := Swap(gameState, index, emptyIndex);
        SlideKeepsWellFormed(gameState, emptyIndex, index, gridSize);
        SlideKeepsSolvable(gameState, emptyIndex, index, gridSize);
        assert Swap(gameState, emptyIndex, index) == newState;
        gameState := newState;
        emptyIndex := index;
        moves := moves + 1;
        var isWinning := IsSolved(newState);
        SolvedIffIdentity(newState);
        if isWinning {
          isSolved := true;
          isGameActive := false;
        }
      }
    }
  }
}
