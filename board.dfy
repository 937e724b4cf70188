/** The board of a size x size sliding-tile puzzle, shared by both front ends.

    A placement `s` lists, for every position p (row-major), the id of the tile
    standing there. Tile ids are 0 .. size*size-1; the last id is the empty slot.
    This module holds the notions both front ends are stated against: what a
    well-formed placement is, when it is solved, the four-neighbourhood of a cell,
    and the legal slides of the empty tile. */
module Board {

  /** The tile id reserved for the empty slot. */
  function EmptyId(size: nat): int { size * size - 1 }

  /** The solved placement [0, 1, ..., n-1]. */
  function Identity(n: nat): (r: seq<int>)
    ensures |r| == n && forall i :: 0 <= i < n ==> r[i] == i
  {
    seq(n, i => i)
  }

  /** `s` is a permutation of 0 .. n-1: every id occurs, in range and once. */
  predicate IsPermutation(s: seq<int>, n: nat) {
    && |s| == n
    && (forall i :: 0 <= i < |s| ==> 0 <= s[i] < n)
    && (forall i, j :: 0 <= i < j < |s| ==> s[i] != s[j])
  }

  /** The win test: every position holds the tile whose id is that position.
      A board that passes it holds every id exactly once. */
  predicate IsSolved(s: seq<int>)
    ensures IsSolved(s) ==> IsPermutation(s, |s|)
  {
    forall i :: 0 <= i < |s| ==> s[i] == i
  }

  /** A placement with its cached empty position: a permutation of all ids
      whose position `e` holds the empty id. */
  predicate WellFormed(s: seq<int>, e: int, size: nat) {
    && IsPermutation(s, size * size)
    && 0 <= e < |s|
    && s[e] == EmptyId(size)
  }

  lemma {:induction false} SolvedIffIdentity(s: seq<int>)
    ensures IsSolved(s) <==> s == Identity(|s|)
  {
    if IsSolved(s) {
      assert forall i :: 0 <= i < |s| ==> s[i] == Identity(|s|)[i];
    }
  }

  /** One transposition away from the identity is never solved. */
  lemma TranspositionNotSolved(n: nat, i: int, j: int)
    requires 0 <= i < n && 0 <= j < n && i != j
    ensures IsSolved(Identity(n))
    ensures !IsSolved(Swap(Identity(n), i, j))
  {
    assert Swap(Identity(n), i, j)[i] == j;
  }

  lemma IdentityWellFormed(size: nat)
    requires size >= 1
    ensures WellFormed(Identity(size * size), EmptyId(size), size)
    ensures IsSolved(Identity(size * size))
  {
  }

  /** In a well-formed placement the empty id stands at exactly one position,
      the cached one. */
  lemma EmptyIsUnique(s: seq<int>, e: int, size: nat, p: int)
    requires WellFormed(s, e, size)
    requires 0 <= p < |s| && s[p] == EmptyId(size)
    ensures p == e
  {
  }

  /** Exchange the tiles at positions i and j: each of the two cells receives
      the other's tile and every other cell keeps its own. */
  function Swap(s: seq<int>, i: int, j: int): (r: seq<int>)
    requires 0 <= i < |s| && 0 <= j < |s|
    ensures |r| == |s| && r[i] == s[j] && r[j] == s[i]
    ensures forall k :: 0 <= k < |s| && k != i && k != j ==> r[k] == s[k]
  {
    s[i := s[j]][j := s[i]]
  }

  lemma SwapTwice(s: seq<int>, i: int, j: int)
    requires 0 <= i < |s| && 0 <= j < |s|
    ensures Swap(Swap(s, i, j), j, i) == s
  {
    var t := Swap(Swap(s, i, j), j, i);
    assert forall k :: 0 <= k < |s| ==> t[k] == s[k];
  }

  lemma SwapKeepsPermutation(s: seq<int>, n: nat, i: int, j: int)
    requires IsPermutation(s, n)
    requires 0 <= i < |s| && 0 <= j < |s|
    ensures IsPermutation(Swap(s, i, j), n)
  {
    var r := Swap(s, i, j);
    forall a, b | 0 <= a < b < |r|
      ensures r[a] != r[b]
    {
      var a' := if a == i then j else if a == j then i else a;
      var b' := if b == i then j else if b == j then i else b;
      assert r[a] == s[a'] && r[b] == s[b'];
      assert a' != b';
      if a' < b' { assert s[a'] != s[b']; } else { assert s[b'] != s[a']; }
    }
  }

  /** A swap of two different positions of a permutation changes exactly those
      two cells: both now hold another tile and every other cell is as before. */
  lemma SwapChangesExactlyTwo(s: seq<int>, n: nat, i: int, j: int)
    requires IsPermutation(s, n)
    requires 0 <= i < |s| && 0 <= j < |s| && i != j
    ensures Swap(s, i, j)[i] != s[i] && Swap(s, i, j)[j] != s[j]
    ensures forall k :: 0 <= k < |s| && k != i && k != j ==> Swap(s, i, j)[k] == s[k]
  {
    if i < j { assert s[i] != s[j]; } else { assert s[j] != s[i]; }
  }

  /** Moving the empty tile from e to p keeps the placement well formed, with
      the empty slot now at p. */
  lemma SlideKeepsWellFormed(s: seq<int>, e: int, p: int, size: nat)
    requires WellFormed(s, e, size)
    requires 0 <= p < |s|
    ensures WellFormed(Swap(s, e, p), p, size)
  {
    SwapKeepsPermutation(s, size * size, e, p);
  }

  // ---------------------------------------------------------------------------
  // Adjacency

  /** Row and column of position p on a grid `size` cells wide. */
  function Row(p: int, size: nat): int requires size > 0 { p / size }
  function Col(p: int, size: nat): int requires size > 0 { p % size }

  /** q is a cell of the board directly above, below, left or right of p. */
  predicate IsNeighbour(p: int, q: int, size: nat)
    requires size > 0
  {
    && 0 <= q < size * size
    && ((Row(p, size) == Row(q, size) && (Col(p, size) - Col(q, size) == 1 || Col(q, size) - Col(p, size) == 1))
     || (Col(p, size) == Col(q, size) && (Row(p, size) - Row(q, size) == 1 || Row(q, size) - Row(p, size) == 1)))
  }

  /** A multiple of a positive width is at least that width away from zero
      unless it is zero. */
  lemma MulSign(k: int, size: nat)
    requires size > 0
    ensures k >= 1 ==> k * size >= size
    ensures k <= -1 ==> k * size + size <= 0
  {
  }

  lemma MulMonotone(a: int, b: int, size: nat)
    ensures a <= b ==> a * size <= b * size
  {
  }

  lemma DivModUnique(p: int, size: nat, r: int, c: int)
    requires size > 0 && 0 <= c < size && p == r * size + c
    ensures p / size == r && p % size == c
  {
    var r', c' := p / size, p % size;
    assert p == r' * size + c';
    assert (r - r') * size == c' - c;
    MulSign(r - r', size);
  }

  /** On a board of size*size cells every position lies in rows and columns
      0 .. size-1. */
  lemma RowInRange(p: int, size: nat)
    requires size > 0 && 0 <= p < size * size
    ensures 0 <= Row(p, size) < size && 0 <= Col(p, size) < size
    ensures p == Row(p, size) * size + Col(p, size)
  {
    var r := p / size;
    assert p == r * size + p % size;
    MulMonotone(size, r, size);
  }

  /** The rows and columns of the four possible neighbours. */
  lemma UpCoordinates(p: int, size: nat)
    requires size > 0 && 0 <= p < size * size && Row(p, size) > 0
    ensures p - size >= 0
    ensures Row(p - size, size) == Row(p, size) - 1 && Col(p - size, size) == Col(p, size)
  {
    RowInRange(p, size);
    var r, c := Row(p, size), Col(p, size);
    assert (r - 1) * size == r * size - size;
    DivModUnique(p - size, size, r - 1, c);
  }

  lemma DownCoordinates(p: int, size: nat)
    requires size > 0 && 0 <= p < size * size && Row(p, size) < size - 1
    ensures Row(p + size, size) == Row(p, size) + 1 && Col(p + size, size) == Col(p, size)
  {
    RowInRange(p, size);
    var r, c := Row(p, size), Col(p, size);
    assert (r + 1) * size == r * size + size;
    DivModUnique(p + size, size, r + 1, c);
  }

  lemma SideCoordinates(p: int, size: nat)
    requires size > 0 && 0 <= p < size * size
    ensures Col(p, size) > 0 ==> Row(p - 1, size) == Row(p, size) && Col(p - 1, size) == Col(p, size) - 1
    ensures Col(p, size) < size - 1 ==> Row(p + 1, size) == Row(p, size) && Col(p + 1, size) == Col(p, size) + 1
  {
    RowInRange(p, size);
    var r, c := Row(p, size), Col(p, size);
    if c > 0 { DivModUnique(p - 1, size, r, c - 1); }
    if c < size - 1 { DivModUnique(p + 1, size, r, c + 1); }
  }

  lemma CandidatesOnBoard(index: int, size: nat)
    requires size > 0 && 0 <= index < size * size
    ensures Row(index, size) > 0 ==> 0 <= index - size
    ensures Row(index, size) < size - 1 ==> index + size < size * size
    ensures Col(index, size) > 0 ==> 0 <= index - 1
    ensures Col(index, size) < size - 1 ==> index + 1 < size * size
  {
    RowInRange(index, size);
    if Row(index, size) > 0 { UpCoordinates(index, size); }
    if Row(index, size) < size - 1 { BelowIsOnBoard(index, size); }
  }

  /** The neighbours of `index` in the order both front ends list them:
      up, down, left, right, each only when it is on the board. */
  function Adjacent(index: int, size: nat): (r: seq<int>)
    requires size > 0 && 0 <= index < size * size
    ensures |r| <= 4
    ensures size >= 2 ==> |r| >= 2
  {
    var row, col := index / size, index % size;
    (if row > 0 then [index - size] else [])
      + (if row < size - 1 then [index + size] else [])
      + (if col > 0 then [index - 1] else [])
      + (if col < size - 1 then [index + 1] else [])
  }

  /** Every listed neighbour is on the board, and none is listed twice. */
  lemma AdjacentOnBoard(index: int, size: nat)
    requires size > 0 && 0 <= index < size * size
    ensures forall q :: q in Adjacent(index, size) ==> 0 <= q < size * size
    ensures forall i, j :: 0 <= i < j < |Adjacent(index, size)| ==> Adjacent(index, size)[i] != Adjacent(index, size)[j]
  {
    CandidatesOnBoard(index, size);
  }

  /** Each of the four candidate positions is a neighbour when its guard holds. */
  lemma CandidatesAreNeighbours(index: int, size: nat)
    requires size > 0 && 0 <= index < size * size
    ensures Row(index, size) > 0 ==> IsNeighbour(index, index - size, size)
    ensures Row(index, size) < size - 1 ==> IsNeighbour(index, index + size, size)
    ensures Col(index, size) > 0 ==> IsNeighbour(index, index - 1, size)
    ensures Col(index, size) < size - 1 ==> IsNeighbour(index, index + 1, size)
  {
    RowInRange(index, size);
    SideCoordinates(index, size);
    if Row(index, size) > 0 {
      UpCoordinates(index, size);
    }
    if Row(index, size) < size - 1 {
      DownCoordinates(index, size);
      BelowIsOnBoard(index, size);
    }
  }

  lemma BelowIsOnBoard(index: int, size: nat)
    requires size > 0 && 0 <= index < size * size
    requires Row(index, size) < size - 1
    ensures index + size < size * size
  {
    var r, c := Row(index, size), Col(index, size);
    RowInRange(index, size);
    MulMonotone(r + 1, size - 1, size);
    assert index + size == (r + 1) * size + c;
    assert (size - 1) * size + c < size * size;
  }

  /** Every neighbour is one of the four candidates, with its guard. */
  lemma NeighbourIsCandidate(index: int, q: int, size: nat)
    requires size > 0 && 0 <= index < size * size
    requires IsNeighbour(index, q, size)
    ensures || (Row(index, size) > 0 && q == index - size)
            || (Row(index, size) < size - 1 && q == index + size)
            || (Col(index, size) > 0 && q == index - 1)
            || (Col(index, size) < size - 1 && q == index + 1)
  {
    RowInRange(index, size);
    RowInRange(q, size);
    var r, c := Row(index, size), Col(index, size);
    var rq, cq := Row(q, size), Col(q, size);
    if cq == c && rq == r + 1 {
      assert q == (r + 1) * size + c;
    } else if cq == c && rq == r - 1 {
      assert q == (r - 1) * size + c;
    }
  }

  /** The list holds exactly the geometric neighbours of the cell. */
  lemma AdjacentIsNeighbourhood(index: int, size: nat)
    requires size > 0 && 0 <= index < size * size
    ensures forall q :: q in Adjacent(index, size) <==> IsNeighbour(index, q, size)
  {
    CandidatesAreNeighbours(index, size);
    forall q | IsNeighbour(index, q, size)
      ensures q in Adjacent(index, size)
    {
      NeighbourIsCandidate(index, q, size);
    }
  }

  /** A cell in a corner, on an edge but not a corner, or strictly inside. */
  predicate IsCorner(p: int, size: nat) requires size > 0 {
    (Row(p, size) == 0 || Row(p, size) == size - 1) && (Col(p, size) == 0 || Col(p, size) == size - 1)
  }

  predicate IsInterior(p: int, size: nat) requires size > 0 {
    0 < Row(p, size) < size - 1 && 0 < Col(p, size) < size - 1
  }

  predicate IsEdge(p: int, size: nat) requires size > 0 {
    !IsCorner(p, size) && !IsInterior(p, size)
  }

  /** A cell has 2 neighbours in a corner, 3 on an edge and 4 inside; so every
      cell of a board at least 2 wide has at least two. */
  lemma AdjacentCount(index: int, size: nat)
    requires size >= 2 && 0 <= index < size * size
    ensures IsCorner(index, size) ==> |Adjacent(index, size)| == 2
    ensures IsEdge(index, size) ==> |Adjacent(index, size)| == 3
    ensures IsInterior(index, size) ==> |Adjacent(index, size)| == 4
    ensures |Adjacent(index, size)| >= 2
  {
    RowInRange(index, size);
  }

  lemma NeighbourSymmetric(p: int, q: int, size: nat)
    requires size > 0 && 0 <= p < size * size
    requires IsNeighbour(p, q, size)
    ensures IsNeighbour(q, p, size)
  {
  }

  // ---------------------------------------------------------------------------
  // Slides of the empty tile

  /** Where the empty tile stands after following `path` from e. */
  function EndOf(e: int, path: seq<int>): int {
    if path == [] then e else path[|path| - 1]
  }

  /** `path` lists the successive positions of the empty tile, starting from e,
      each a neighbour of the one before. */
  predicate IsSlidePath(e: int, path: seq<int>, size: nat)
    requires size > 0
  {
    && 0 <= e < size * size
    && (path == [] ||
        (IsSlidePath(e, path[..|path| - 1], size)
         && IsNeighbour(EndOf(e, path[..|path| - 1]), path[|path| - 1], size)))
  }

  lemma SlidePathEnd(e: int, path: seq<int>, size: nat)
    requires size > 0 && IsSlidePath(e, path, size)
    ensures 0 <= EndOf(e, path) < size * size
  {
  }

  /** The placement reached from `s` (empty slot at e) by sliding the empty
      tile along `path`. */
  function ApplySlides(s: seq<int>, e: int, path: seq<int>, size: nat): (r: seq<int>)
    requires size > 0 && |s| == size * size && IsSlidePath(e, path, size)
    ensures |r| == |s|
  {
    if path == [] then s
    else
      var front := path[..|path| - 1];
      SlidePathEnd(e, front, size);
      Swap(ApplySlides(s, e, front, size), EndOf(e, front), path[|path| - 1])
  }

  /** Extending a slide path by one legal slide at its end. */
  lemma SlidePathSnoc(s: seq<int>, e: int, path: seq<int>, p: int, size: nat)
    requires size > 0 && |s| == size * size && IsSlidePath(e, path, size)
    requires IsNeighbour(EndOf(e, path), p, size)
    ensures IsSlidePath(e, path + [p], size) && EndOf(e, path + [p]) == p
    ensures ApplySlides(s, e, path + [p], size) == Swap(ApplySlides(s, e, path, size), EndOf(e, path), p)
  {
    assert (path + [p])[..|path + [p]| - 1] == path;
  }

  /** If `path` leads from (s0, e0) to (s, e), one more legal slide from e to
      p leads to the swapped placement. */
  lemma ReachExtends(s0: seq<int>, e0: int, path: seq<int>, s: seq<int>, e: int, p: int, size: nat)
    requires size > 0 && |s0| == size * size && IsSlidePath(e0, path, size)
    requires EndOf(e0, path) == e && ApplySlides(s0, e0, path, size) == s
    requires IsNeighbour(e, p, size)
    ensures IsSlidePath(e0, path + [p], size) && EndOf(e0, path + [p]) == p
    ensures ApplySlides(s0, e0, path + [p], size) == Swap(s, e, p)
  {
    SlidePathSnoc(s0, e0, path, p, size);
  }

  /** Sliding along a path keeps a placement well formed, with the empty slot
      at the path's end. */
  lemma {:induction false} SlidesKeepWellFormed(s: seq<int>, e: int, path: seq<int>, size: nat)
    requires size > 0 && WellFormed(s, e, size) && IsSlidePath(e, path, size)
    ensures WellFormed(ApplySlides(s, e, path, size), EndOf(e, path), size)
  {
    if path != [] {
      var front := path[..|path| - 1];
      SlidesKeepWellFormed(s, e, front, size);
      SlideKeepsWellFormed(ApplySlides(s, e, front, size), EndOf(e, front), path[|path| - 1], size);
    }
  }

  /** A path that begins with one slide from a to b. */
  lemma {:induction false} SlidePathCons(a: int, b: int, rest: seq<int>, size: nat)
    requires size > 0 && 0 <= a < size * size && IsNeighbour(a, b, size)
    requires IsSlidePath(b, rest, size)
    ensures IsSlidePath(a, [b] + rest, size)
    ensures EndOf(a, [b] + rest) == EndOf(b, rest)
  {
    if rest != [] {
      var front := rest[..|rest| - 1];
      assert ([b] + rest)[..|[b] + rest| - 1] == [b] + front;
      SlidePathCons(a, b, front, size);
    }
  }

  lemma {:induction false} ApplySlidesCons(s: seq<int>, a: int, b: int, rest: seq<int>, size: nat)
    requires size > 0 && |s| == size * size && 0 <= a < size * size && IsNeighbour(a, b, size)
    requires IsSlidePath(b, rest, size)
    ensures IsSlidePath(a, [b] + rest, size)
    ensures ApplySlides(s, a, [b] + rest, size) == ApplySlides(Swap(s, a, b), b, rest, size)
  {
    SlidePathCons(a, b, rest, size);
    if rest == [] {
      assert ([b] + rest)[..0] == [];
    } else {
      var front := rest[..|rest| - 1];
      assert ([b] + rest)[..|[b] + rest| - 1] == [b] + front;
      ApplySlidesCons(s, a, b, front, size);
      SlidePathCons(a, b, front, size);
    }
  }

  /** The path back: the positions the empty tile left, latest first. */
  function Retrace(e: int, path: seq<int>): (r: seq<int>)
    ensures |r| == |path|
  {
    if path == [] then [] else [EndOf(e, path[..|path| - 1])] + Retrace(e, path[..|path| - 1])
  }

  /** Every slide can be undone: retracing a slide path is itself a slide path,
      leads the empty tile back to its start and restores the placement. */
  lemma {:induction false} RetraceUndoes(s: seq<int>, e: int, path: seq<int>, size: nat)
    requires size > 0 && |s| == size * size && IsSlidePath(e, path, size)
    ensures IsSlidePath(EndOf(e, path), Retrace(e, path), size)
    ensures EndOf(EndOf(e, path), Retrace(e, path)) == e
    ensures ApplySlides(ApplySlides(s, e, path, size), EndOf(e, path), Retrace(e, path), size) == s
  {
    if path != [] {
      var front := path[..|path| - 1];
      var p := path[|path| - 1];
      var q := EndOf(e, front);
      SlidePathEnd(e, front, size);
      RetraceUndoes(s, e, front, size);
      var back := Retrace(e, front);
      var b := ApplySlides(s, e, front, size);
      NeighbourSymmetric(q, p, size);
      ApplySlidesCons(Swap(b, q, p), p, q, back, size);
      SwapTwice(b, q, p);
    }
  }

  /** The placement can be brought back to the solved one by legal slides. */
  ghost predicate Solvable(s: seq<int>, e: int, size: nat)
    requires size > 0
  {
    && |s| == size * size
    && exists path :: IsSlidePath(e, path, size)
        && EndOf(e, path) == EmptyId(size)
        && ApplySlides(s, e, path, size) == Identity(size * size)
  }

  /** Whatever is reached from the solved placement by legal slides is solvable. */
  lemma ReachableIsSolvable(path: seq<int>, size: nat)
    requires size > 0 && IsSlidePath(EmptyId(size), path, size)
    ensures Solvable(ApplySlides(Identity(size * size), EmptyId(size), path, size), EndOf(EmptyId(size), path), size)
  {
    RetraceUndoes(Identity(size * size), EmptyId(size), path, size);
  }

  /** One legal slide keeps a placement solvable. */
  lemma SlideKeepsSolvable(s: seq<int>, e: int, p: int, size: nat)
    requires size > 0 && 0 <= e < size * size && Solvable(s, e, size) && IsNeighbour(e, p, size)
    ensures Solvable(Swap(s, e, p), p, size)
  {
    var path :| IsSlidePath(e, path, size)
      && EndOf(e, path) == EmptyId(size)
      && ApplySlides(s, e, path, size) == Identity(size * size);
    NeighbourSymmetric(e, p, size);
    ApplySlidesCons(Swap(s, e, p), p, e, path, size);
    SwapTwice(s, e, p);
    SlidePathCons(p, e, path, size);
    assert IsSlidePath(p, [e] + path, size)
      && EndOf(p, [e] + path) == EmptyId(size)
      && ApplySlides(Swap(s, e, p), p, [e] + path, size) == Identity(size * size);
  }

  /** The solved placement is solvable: by the empty path. */
  lemma IdentitySolvable(size: nat)
    requires size > 0
    ensures Solvable(Identity(size * size), EmptyId(size), size)
  {
    ReachableIsSolvable([], size);
  }

  /** Any sequence of legal slides keeps a placement solvable. */
  lemma {:induction false} SlidesKeepSolvable(s: seq<int>, e: int, path: seq<int>, size: nat)
    requires size > 0 && 0 <= e < size * size && Solvable(s, e, size) && IsSlidePath(e, path, size)
    ensures Solvable(ApplySlides(s, e, path, size), EndOf(e, path), size)
  {
    if path != [] {
      var front := path[..|path| - 1];
      SlidesKeepSolvable(s, e, front, size);
      SlidePathEnd(e, front, size);
      SlideKeepsSolvable(ApplySlides(s, e, front, size), EndOf(e, front), path[|path| - 1], size);
    }
  }

  // ---------------------------------------------------------------------------
  // What both shuffles have in common

  /** The state a shuffle loop carries from one iteration to the next: the
      placement, the empty position and the position it remembers as
      "previous" (-1 before the first slide). */
  datatype ShuffleState = ShuffleState(board: seq<int>, empty: int, previous: int)

  /** Shuffle states reached from the placement s0 with the empty slot at e0
      by sliding along `path`. */
  predicate ReachedBy(s0: seq<int>, e0: int, path: seq<int>, st: ShuffleState, size: nat)
    requires size > 0
  {
    && |s0| == size * size
    && IsSlidePath(e0, path, size) && EndOf(e0, path) == st.empty
    && ApplySlides(s0, e0, path, size) == st.board
  }

  /** Before any slide the state is the starting placement itself. */
  lemma ReachedAtStart(s0: seq<int>, e0: int, st: ShuffleState, size: nat)
    requires size > 0 && |s0| == size * size && 0 <= e0 < size * size
    requires st.board == s0 && st.empty == e0
    ensures ReachedBy(s0, e0, [], st, size)
  {
  }

  /** A state reached by legal slides from a well-formed placement is well
      formed. */
  lemma ReachedWellFormed(s0: seq<int>, e0: int, path: seq<int>, st: ShuffleState, size: nat)
    requires size > 0 && WellFormed(s0, e0, size) && ReachedBy(s0, e0, path, st, size)
    ensures WellFormed(st.board, st.empty, size)
  {
    SlidesKeepWellFormed(s0, e0, path, size);
  }

  /** A shuffle iteration that either slides the empty tile to a neighbour,
      extending the path by that cell, or leaves state and path alone, keeps
      the state reached by the path. */
  lemma ExtendReach(s0: seq<int>, e0: int, front: seq<int>, before: ShuffleState,
                    moved: bool, after: ShuffleState, trail: seq<int>, size: nat)
    requires size > 0 && ReachedBy(s0, e0, front, before, size)
    requires moved ==> (IsNeighbour(before.empty, after.empty, size)
      && after.board == Swap(before.board, before.empty, after.empty) && trail == front + [after.empty])
    requires !moved ==> (after.board == before.board && after.empty == before.empty && trail == front)
    ensures ReachedBy(s0, e0, trail, after, size)
  {
    if moved {
      ReachExtends(s0, e0, front, before.board, before.empty, after.empty, size);
    }
  }

  /** The positions a shuffle iteration may move the empty tile to: its
      neighbours other than the position recorded as previous. There are at
      most four, the excluded one is never among them, and on a board at
      least 2 wide at least one is left. */
  function Candidates(st: ShuffleState, size: nat): (r: seq<int>)
    requires size > 0 && 0 <= st.empty < size * size
    ensures |r| <= 4 && st.previous !in r
    ensures size >= 2 ==> |r| >= 1
  {
    var valid := Without(Adjacent(st.empty, size), st.previous);
    if size >= 2 then CandidatesNonEmpty(st.empty, st.previous, size); valid else valid
  }

  /** Every candidate lies on the board. */
  lemma CandidatesInRange(st: ShuffleState, size: nat)
    requires size > 0 && 0 <= st.empty < size * size
    ensures forall q :: q in Candidates(st, size) ==> 0 <= q < size * size
  {
    AdjacentOnBoard(st.empty, size);
    WithoutMembers(Adjacent(st.empty, size), st.previous);
  }

  /** The board has size*size cells and the empty position is one of them. */
  predicate OnBoard(st: ShuffleState, size: nat) {
    size > 0 && |st.board| == size * size && 0 <= st.empty < size * size
  }

  /** xs.filter(idx => idx !== x): the elements of xs other than x, in order. */
  function Without(xs: seq<int>, x: int): (r: seq<int>)
    ensures |r| <= |xs| && x !in r
  {
    if xs == [] then []
    else
      var rest := Without(xs[1..], x);
      if xs[0] == x then rest else [xs[0]] + rest
  }

  /** The filter keeps exactly the elements other than x, and removes nothing
      when x does not occur. */
  lemma {:induction false} WithoutMembers(xs: seq<int>, x: int)
    ensures forall y :: y in Without(xs, x) <==> y in xs && y != x
    ensures x !in xs ==> Without(xs, x) == xs
  {
    if xs != [] {
      WithoutMembers(xs[1..], x);
      assert xs == [xs[0]] + xs[1..];
    }
  }

  /** From a list without repetitions the filter removes at most one element. */
  lemma {:induction false} WithoutLength(xs: seq<int>, x: int)
    requires forall i, j :: 0 <= i < j < |xs| ==> xs[i] != xs[j]
    ensures |Without(xs, x)| + 1 >= |xs|
  {
    if xs != [] {
      WithoutLength(xs[1..], x);
      if xs[0] == x {
        WithoutMembers(xs[1..], x);
        assert x !in xs[1..];
      }
    }
  }

  /** The neighbours that survive the filter are the neighbours other than
      the excluded position. */
  lemma FilteredNeighbours(e: int, previous: int, size: nat)
    requires size > 0 && 0 <= e < size * size
    ensures forall q :: q in Without(Adjacent(e, size), previous) <==> IsNeighbour(e, q, size) && q != previous
  {
    AdjacentIsNeighbourhood(e, size);
    WithoutMembers(Adjacent(e, size), previous);
  }

  /** For boards at least 2 wide the candidate set of a shuffle step is never
      empty, whatever position is excluded. */
  lemma CandidatesNonEmpty(e: int, previous: int, size: nat)
    requires size >= 2 && 0 <= e < size * size
    ensures |Without(Adjacent(e, size), previous)| >= 1
  {
    AdjacentCount(e, size);
    AdjacentOnBoard(e, size);
    WithoutLength(Adjacent(e, size), previous);
  }
}
