/**
 * The circular jump puzzle of lab5/solve_puzzle.py. From tile `i` a move
 * goes `board[i]` tiles clockwise or counter-clockwise, around the ends of
 * the board; the puzzle is solved by reaching the last tile from the first.
 * The search marks each tile it leaves with -1 so it is never left twice.
 */
module JumpPuzzle {
  import opened Util

  /** The tiles not yet marked visited: the measure that shrinks with every move. */
  function Unvisited(board: seq<int>): (n: nat)
    ensures n <= |board|
  {
    if board == [] then 0 else (if board[0] != -1 then 1 else 0) + Unvisited(board[1..])
  }

  lemma {:induction false} UnvisitedMark(board: seq<int>, i: int)
    requires 0 <= i < |board| && board[i] != -1
    ensures Unvisited(board[i := -1]) == Unvisited(board) - 1
  {
    if i > 0 {
      UnvisitedMark(board[1..], i - 1);
      assert board[i := -1][1..] == board[1..][i - 1 := -1];
    } else {
      assert board[i := -1][1..] == board[1..];
    }
  }

  /** The two tiles one move from `i`; Python's `%` with a positive modulus agrees with Dafny's. */
  function Clockwise(board: seq<int>, i: int): int
    requires 0 <= i < |board|
  {
    (i + board[i]) % |board|
  }

  function Counterclockwise(board: seq<int>, i: int): int
    requires 0 <= i < |board|
  {
    (i - board[i]) % |board|
  }

  /** `_solve_from_index`: the end is reached, a visited or zero tile is a dead end, else try both moves. */
  function SolveFrom(board: seq<int>, index: int): bool
    requires 0 <= index < |board|
    decreases Unvisited(board)
  {
    if index == |board| - 1 then true
    else if board[index] == -1 then false
    else if board[index] == 0 then false
    else
      var next := board[index := -1];
      UnvisitedMark(board, index);
      SolveFrom(next, Clockwise(board, index)) || SolveFrom(next, Counterclockwise(board, index))
  }

  /**
   * `solve_puzzle`: an AssertionError unless every tile is non-negative;
   * an empty board fails on the first tile (IndexError).
   */
  function SolvePuzzle(board: seq<int>): (r: Result<bool>)
    ensures (exists k :: 0 <= k < |board| && board[k] < 0) <==> r == Err(AssertionError)
    ensures r.Ok? <==> |board| > 0 && forall k :: 0 <= k < |board| ==> board[k] >= 0
  {
    if exists k :: 0 <= k < |board| && board[k] < 0 then Err(AssertionError)
    else if board == [] then Err(IndexError)
    else Ok(SolveFrom(board, 0))
  }

  // ---------------------------------------------------------------------------
  // What a solution is

  /** A legal move from tile `i` (not marked visited, not zero) to tile `j`. */
  predicate Move(board: seq<int>, i: int, j: int)
    requires 0 <= i < |board|
  {
    board[i] != -1 && board[i] != 0 && (j == Clockwise(board, i) || j == Counterclockwise(board, i))
  }

  /** A route of moves from `path[0]` to the last tile that leaves no tile twice. */
  ghost predicate Route(board: seq<int>, path: seq<int>)
  {
    && |path| > 0
    && (forall k :: 0 <= k < |path| ==> 0 <= path[k] < |board|)
    && path[|path| - 1] == |board| - 1
    && (forall k, l :: 0 <= k < l < |path| ==> path[k] != path[l])
    && (forall k :: 0 <= k < |path| - 1 ==> Move(board, path[k], path[k + 1]))
  }

  /** A move from a fresh tile followed by a route on the board with that tile marked is a route. */
  lemma RouteCons(board: seq<int>, index: int, rest: seq<int>)
    requires 0 <= index < |board| - 1 && Route(board[index := -1], rest) && Move(board, index, rest[0])
    ensures Route(board, [index] + rest)
  {
    var next, path := board[index := -1], [index] + rest;
    forall k | 0 <= k < |rest| - 1
      ensures rest[k] != index && Move(board, rest[k], rest[k + 1])
    {
      assert Move(next, rest[k], rest[k + 1]);
    }
    forall k, l | 0 <= k < l < |path|
      ensures path[k] != path[l]
    {
      if k > 0 {
        assert path[k] == rest[k - 1] && path[l] == rest[l - 1];
      } else {
        assert path[l] == rest[l - 1];
      }
    }
    forall k | 0 <= k < |path| - 1
      ensures Move(board, path[k], path[k + 1])
    {
      if k > 0 {
        assert path[k] == rest[k - 1] && path[k + 1] == rest[k];
      }
    }
  }

  /** A true answer comes with a route. */
  lemma {:induction false} SolveFromSound(board: seq<int>, index: int) returns (path: seq<int>)
    requires 0 <= index < |board| && SolveFrom(board, index)
    ensures Route(board, path) && path[0] == index
    decreases Unvisited(board)
  {
    if index == |board| - 1 {
      path := [index];
    } else {
      var next := board[index := -1];
      UnvisitedMark(board, index);
      var j := if SolveFrom(next, Clockwise(board, index)) then Clockwise(board, index) else Counterclockwise(board, index);
      var rest := SolveFromSound(next, j);
      RouteCons(board, index, rest);
      path := [index] + rest;
    }
  }

  /** A route is found: the search answers true whenever a route exists. */
  lemma {:induction false} SolveFromComplete(board: seq<int>, path: seq<int>)
    requires Route(board, path)
    ensures SolveFrom(board, path[0])
    decreases |path|
  {
    var index := path[0];
    if index != |board| - 1 {
      assert |path| > 1;
      var next := board[index := -1];
      var rest := path[1..];
      forall k | 0 <= k < |rest| - 1
        ensures next[rest[k]] == board[rest[k]]
      {
        assert rest[k] == path[k + 1] && path[k + 1] != path[0];
      }
      assert Route(next, rest) by {
        forall k | 0 <= k < |rest| - 1
          ensures Move(next, rest[k], rest[k + 1])
        {
          assert rest[k] == path[k + 1] && rest[k + 1] == path[k + 2];
        }
      }
      SolveFromComplete(next, rest);
    }
  }

  /** The search answers true exactly when a route exists (one direction each above). */
  lemma SolveFromIffRoute(board: seq<int>, index: int)
    requires 0 <= index < |board|
    ensures SolveFrom(board, index) <==> exists path :: Route(board, path) && path[0] == index
  {
    if SolveFrom(board, index) {
      var path := SolveFromSound(board, index);
    }
    if p :| Route(board, p) && p[0] == index {
      SolveFromComplete(board, p);
    }
  }

  /** `[3, 6, 4, 1, 3, 4, 2, 0]` is solvable: 0 -> 3 -> 2 -> 6 -> 4 -> 7. */
  lemma SolvableExample()
    ensures SolvePuzzle([3, 6, 4, 1, 3, 4, 2, 0]) == Ok(true)
  {
    var b := [3, 6, 4, 1, 3, 4, 2, 0];
    var path := [0, 3, 2, 6, 4, 7];
    assert Move(b, 0, 3) && Move(b, 3, 2) && Move(b, 2, 6) && Move(b, 6, 4) && Move(b, 4, 7);
    assert Route(b, path);
    SolveFromComplete(b, path);
  }

  /** After the first move of `[3, 4, 1, 2, 0]` clockwise, to tile 3, the end is out of reach. */
  lemma UnsolvableAfterClockwise()
    ensures !SolveFrom([-1, 4, 1, 2, 0], 3)
  {
    var n1, n2, n3, n4 := [-1, 4, 1, 2, 0], [-1, 4, 1, -1, 0], [-1, -1, 1, -1, 0], [-1, -1, -1, -1, 0];
    assert n1[3 := -1] == n2 && n2[1 := -1] == n3 && n3[2 := -1] == n4;
    assert !SolveFrom(n4, 3) && !SolveFrom(n4, 1);
    assert !SolveFrom(n3, 2) && !SolveFrom(n3, 0);
    assert !SolveFrom(n2, 1) && !SolveFrom(n2, 0);
  }

  /** After the first move counter-clockwise, to tile 2, neither. */
  lemma UnsolvableAfterCounterclockwise()
    ensures !SolveFrom([-1, 4, 1, 2, 0], 2)
  {
    var n1, m2, m3, m4, m5 := [-1, 4, 1, 2, 0], [-1, 4, -1, 2, 0], [-1, 4, -1, -1, 0], [-1, -1, -1, -1, 0], [-1, -1, -1, 2, 0];
    assert n1[2 := -1] == m2 && m2[3 := -1] == m3 && m3[1 := -1] == m4 && m2[1 := -1] == m5;
    assert !SolveFrom(m4, 0) && !SolveFrom(m4, 2);
    assert !SolveFrom(m3, 1) && !SolveFrom(m3, 0);
    assert !SolveFrom(m5, 0) && !SolveFrom(m5, 2);
    assert !SolveFrom(m2, 3) && !SolveFrom(m2, 1);
  }

  /** `[3, 4, 1, 2, 0]` is not solvable: every route runs into a tile already left. */
  lemma UnsolvableExample()
    ensures SolvePuzzle([3, 4, 1, 2, 0]) == Ok(false)
  {
    var b := [3, 4, 1, 2, 0];
    assert b[0 := -1] == [-1, 4, 1, 2, 0];
    UnsolvableAfterClockwise();
    UnsolvableAfterCounterclockwise();
  }
}
