/**
 * The route search of hw5/game.py. From the current square the search
 * tries the four neighbours (down, right, up, left) that are inside the
 * maze, not walls and not already on the path, keeps the child result with
 * the highest score (the first one on a tie, as Python's `max` does) or the
 * sentinel `(-1, [])`, and adds the current square's points.
 *
 * `Search` covers both the code as written, which adds the points to the
 * sentinel of a dead end too, and the corrected search, which reports a
 * dead end as `(-1, [])` unchanged.
 */
module Game {
  import opened Maze

  /** A score and a path, as `find_route` returns them. */
  type Scored = (int, seq<Pos>)

  /**
   * `_is_move_available`: not on the path, inside the maze and not a wall,
   * so `make_move` there reads a square of points.
   */
  predicate Available(b: Board, p: Pos, path: seq<Pos>)
    requires Rectangular(b)
    ensures Available(b, p, path) ==> CellAt(b.cells, p).Some? && CellAt(b.cells, p).value.Points?
  {
    p !in path && InMaze(b, p) && !IsWall(b, p)
  }

  /** The points of an open square. */
  function PointsAt(b: Board, p: Pos): int
    requires Rectangular(b) && InMaze(b, p) && !IsWall(b, p)
  {
    b.cells[p.0][p.1].value
  }

  /** The neighbours in the order the search tries them: down, right, up, left. */
  function Steps(p: Pos): (s: seq<Pos>)
    ensures |s| == 4 && forall k :: 0 <= k < 4 ==> s[k] != p
  {
    [(p.0 + 1, p.1), (p.0, p.1 + 1), (p.0 - 1, p.1), (p.0, p.1 - 1)]
  }

  function Squares(b: Board): set<Pos>
  {
    set r, c | 0 <= r < b.rows && 0 <= c < b.cols :: (r, c)
  }

  function Visited(path: seq<Pos>): set<Pos>
  {
    set p | p in path
  }

  /** Python's `max(..., key=lambda x: x[0])`: a highest score, the first one on a tie. */
  function Best(s: seq<Scored>): (r: Scored)
    requires |s| > 0
    ensures r in s && forall k :: 0 <= k < |s| ==> s[k].0 <= r.0
    ensures exists i :: 0 <= i < |s| && r == s[i] && forall k :: 0 <= k < i ==> s[k].0 < r.0
  {
    if |s| == 1 then s[0]
    else
      var rest := Best(s[1..]);
      if rest.0 > s[0].0 then rest else s[0]
  }

  /**
   * `find_route`, as written when `asWritten` holds. The current square
   * must be inside the maze and not a wall, which the closing assertion of
   * `find_route` checks, and not already on the path.
   */
  function Search(asWritten: bool, b: Board, finish: Pos, cur: Pos, curscore: int, curpath: seq<Pos>): (r: Scored)
    requires Rectangular(b) && InMaze(b, cur) && !IsWall(b, cur) && cur !in curpath
    ensures !asWritten && r.1 == [] ==> r.0 == -1
    decreases Squares(b) - Visited(curpath), 1
  {
    if finish == cur then (curscore, curpath + [cur])
    else
      assert cur in Squares(b) && Visited(curpath + [cur]) == Visited(curpath) + {cur};
      var best := Best(Children(asWritten, b, finish, cur, curscore, curpath));
      if asWritten || best.1 != [] then (best.0 + PointsAt(b, cur), best.1) else (-1, [])
  }

  /** The candidates `max` chooses from: each available neighbour's result, in order, then the sentinel. */
  function Children(asWritten: bool, b: Board, finish: Pos, cur: Pos, curscore: int, curpath: seq<Pos>): (r: seq<Scored>)
    requires Rectangular(b) && InMaze(b, cur) && cur !in curpath
    ensures |r| > 0 && r[|r| - 1] == (-1, [])
    ensures !asWritten ==> forall x :: x in r && x.1 == [] ==> x.0 == -1
    decreases Squares(b) - Visited(curpath + [cur]), 3
  {
    var s := Steps(cur);
    Kid(asWritten, b, finish, cur, s[0], curscore, curpath) + Kid(asWritten, b, finish, cur, s[1], curscore, curpath)
      + Kid(asWritten, b, finish, cur, s[2], curscore, curpath) + Kid(asWritten, b, finish, cur, s[3], curscore, curpath)
      + [(-1, [])]
  }

  /** The result of the recursive call for one neighbour, if that neighbour is available. */
  function Kid(asWritten: bool, b: Board, finish: Pos, cur: Pos, next: Pos, curscore: int, curpath: seq<Pos>): (r: seq<Scored>)
    requires Rectangular(b) && InMaze(b, cur) && cur !in curpath && next != cur
    decreases Squares(b) - Visited(curpath + [cur]), 2
  {
    if Available(b, next, curpath) then [Search(asWritten, b, finish, next, curscore, curpath + [cur])] else []
  }

  /** `find_route` as written: any path it returns is the path so far and then a route to the finish. */
  function FindRoute(b: Board, finish: Pos, cur: Pos, curscore: int, curpath: seq<Pos>): (r: Scored)
    requires Rectangular(b) && InMaze(b, cur) && !IsWall(b, cur) && cur !in curpath
    ensures r.1 != [] ==> Found(b, finish, cur, curscore, curpath, r)
  {
    SearchSound(true, b, finish, cur, curscore, curpath);
    Search(true, b, finish, cur, curscore, curpath)
  }

  /** `find_route` with dead ends reported as `(-1, [])`. */
  function FindBestRoute(b: Board, finish: Pos, cur: Pos, curscore: int, curpath: seq<Pos>): (r: Scored)
    requires Rectangular(b) && InMaze(b, cur) && !IsWall(b, cur) && cur !in curpath
    ensures r.1 != [] ==> Found(b, finish, cur, curscore, curpath, r)
    ensures r.1 == [] ==> r.0 == -1
  {
    SearchSound(false, b, finish, cur, curscore, curpath);
    Search(false, b, finish, cur, curscore, curpath)
  }

  // ---------------------------------------------------------------------------
  // Routes

  predicate Open(b: Board, p: Pos)
    requires Rectangular(b)
  {
    InMaze(b, p) && !IsWall(b, p)
  }

  /** A walk through open squares, one step at a time, that ends at the finish, repeats no square and avoids `avoid`. */
  predicate Route(b: Board, finish: Pos, path: seq<Pos>, avoid: seq<Pos>)
    requires Rectangular(b)
  {
    && |path| > 0
    && path[|path| - 1] == finish
    && (forall k :: 0 <= k < |path| ==> Open(b, path[k]) && path[k] !in avoid)
    && (forall k, l :: 0 <= k < l < |path| ==> path[k] != path[l])
    && (forall k :: 0 <= k < |path| - 1 ==> path[k + 1] in Steps(path[k]))
  }

  /** The points collected along a path: every square but the last, the finish. */
  function Gain(b: Board, path: seq<Pos>): int
    requires Rectangular(b) && forall k :: 0 <= k < |path| ==> Open(b, path[k])
  {
    if |path| <= 1 then 0
    else
      assert Open(b, path[0]);
      PointsAt(b, path[0]) + Gain(b, path[1..])
  }

  /** The search result `r` is the path so far followed by a route from `cur`, scored `curscore` plus its gain. */
  predicate Found(b: Board, finish: Pos, cur: Pos, curscore: int, curpath: seq<Pos>, r: Scored)
    requires Rectangular(b)
  {
    && |r.1| > |curpath|
    && r.1[..|curpath|] == curpath
    && r.1[|curpath|] == cur
    && Route(b, finish, r.1[|curpath|..], curpath)
    && r.0 == curscore + Gain(b, r.1[|curpath|..])
  }

  /** A step from a fresh open square onto a route that avoids it is a route. */
  lemma RouteCons(b: Board, finish: Pos, cur: Pos, rest: seq<Pos>, curpath: seq<Pos>)
    requires Rectangular(b) && Open(b, cur) && cur !in curpath
    requires Route(b, finish, rest, curpath + [cur]) && rest[0] in Steps(cur)
    ensures Route(b, finish, [cur] + rest, curpath)
    ensures Gain(b, [cur] + rest) == PointsAt(b, cur) + Gain(b, rest)
  {
    var path := [cur] + rest;
    assert path[1..] == rest;
    forall k | 0 <= k < |rest|
      ensures rest[k] != cur && rest[k] !in curpath
    {
      assert rest[k] !in curpath + [cur];
    }
    forall k, l | 0 <= k < l < |path|
      ensures path[k] != path[l]
    {
      assert path[l] == rest[l - 1];
      if k > 0 {
        assert path[k] == rest[k - 1];
      }
    }
    forall k | 0 <= k < |path| - 1
      ensures path[k + 1] in Steps(path[k])
    {
      if k > 0 {
        assert path[k] == rest[k - 1] && path[k + 1] == rest[k];
      }
    }
  }

  /** A candidate with a path is the result of the search from an available neighbour. */
  lemma ChildOf(asWritten: bool, b: Board, finish: Pos, cur: Pos, curscore: int, curpath: seq<Pos>, x: Scored) returns (n: Pos)
    requires Rectangular(b) && InMaze(b, cur) && cur !in curpath
    requires x in Children(asWritten, b, finish, cur, curscore, curpath) && x.1 != []
    ensures n in Steps(cur) && Available(b, n, curpath)
    ensures x == Search(asWritten, b, finish, n, curscore, curpath + [cur])
  {
    var s := Steps(cur);
    if x in Kid(asWritten, b, finish, cur, s[0], curscore, curpath) {
      n := s[0];
    } else if x in Kid(asWritten, b, finish, cur, s[1], curscore, curpath) {
      n := s[1];
    } else if x in Kid(asWritten, b, finish, cur, s[2], curscore, curpath) {
      n := s[2];
    } else {
      n := s[3];
    }
  }

  /** The search from every available neighbour is a candidate. */
  lemma ChildIn(asWritten: bool, b: Board, finish: Pos, cur: Pos, curscore: int, curpath: seq<Pos>, n: Pos)
    requires Rectangular(b) && InMaze(b, cur) && cur !in curpath
    requires n in Steps(cur) && Available(b, n, curpath)
    ensures Search(asWritten, b, finish, n, curscore, curpath + [cur]) in Children(asWritten, b, finish, cur, curscore, curpath)
  {
    var s := Steps(cur);
    var kid := Search(asWritten, b, finish, n, curscore, curpath + [cur]);
    if n == s[0] {
      assert kid in Kid(asWritten, b, finish, cur, s[0], curscore, curpath);
    } else if n == s[1] {
      assert kid in Kid(asWritten, b, finish, cur, s[1], curscore, curpath);
    } else if n == s[2] {
      assert kid in Kid(asWritten, b, finish, cur, s[2], curscore, curpath);
    } else {
      assert kid in Kid(asWritten, b, finish, cur, s[3], curscore, curpath);
    }
  }

  /** Any path the search returns, as written or corrected, is the path so far and a route, scored by its gain. */
  lemma {:induction false} SearchSound(asWritten: bool, b: Board, finish: Pos, cur: Pos, curscore: int, curpath: seq<Pos>)
    requires Rectangular(b) && InMaze(b, cur) && !IsWall(b, cur) && cur !in curpath
    ensures var r := Search(asWritten, b, finish, cur, curscore, curpath);
      r.1 != [] ==> Found(b, finish, cur, curscore, curpath, r)
    decreases Squares(b) - Visited(curpath)
  {
    var r := Search(asWritten, b, finish, cur, curscore, curpath);
    if finish == cur {
      assert r.1[|curpath|..] == [cur];
    } else if r.1 != [] {
      assert cur in Squares(b) && Visited(curpath + [cur]) == Visited(curpath) + {cur};
      var best := Best(Children(asWritten, b, finish, cur, curscore, curpath));
      assert r == (best.0 + PointsAt(b, cur), best.1);
      var n := ChildOf(asWritten, b, finish, cur, curscore, curpath, best);
      SearchSound(asWritten, b, finish, n, curscore, curpath + [cur]);
      ExtendFound(b, finish, cur, n, curscore, curpath, best);
    }
  }

  /** A route found from a neighbour, with the current square in front, is a route found from here. */
  lemma ExtendFound(b: Board, finish: Pos, cur: Pos, n: Pos, curscore: int, curpath: seq<Pos>, best: Scored)
    requires Rectangular(b) && InMaze(b, cur) && !IsWall(b, cur) && cur !in curpath
    requires n in Steps(cur) && Found(b, finish, n, curscore, curpath + [cur], best)
    ensures Found(b, finish, cur, curscore, curpath, (best.0 + PointsAt(b, cur), best.1))
  {
    var next := curpath + [cur];
    var rest := best.1[|next|..];
    assert best.1 == next + rest by {
      assert best.1 == best.1[..|next|] + rest;
    }
    assert best.1[|curpath|..] == [cur] + rest;
    assert best.1[..|curpath|] == curpath;
    RouteCons(b, finish, cur, rest, curpath);
  }

  /** Every square of the grid holds a wall or a non-negative number of points. */
  predicate NonNegative(b: Board)
  {
    forall r, c :: 0 <= r < |b.cells| && 0 <= c < |b.cells[r]| && b.cells[r][c].Points? ==> b.cells[r][c].value >= 0
  }

  lemma {:induction false} GainNonNegative(b: Board, path: seq<Pos>)
    requires Rectangular(b) && NonNegative(b) && forall k :: 0 <= k < |path| ==> Open(b, path[k])
    ensures Gain(b, path) >= 0
  {
    if |path| > 1 {
      GainNonNegative(b, path[1..]);
    }
  }

  /** The rest of a route after its first square is a route that also avoids that square. */
  lemma RouteTail(b: Board, finish: Pos, route: seq<Pos>, curpath: seq<Pos>)
    requires Rectangular(b) && Route(b, finish, route, curpath) && |route| > 1
    ensures Route(b, finish, route[1..], curpath + [route[0]])
    ensures route[1] in Steps(route[0]) && Available(b, route[1], curpath)
    ensures Gain(b, route) == PointsAt(b, route[0]) + Gain(b, route[1..])
  {
    var rest := route[1..];
    forall k | 0 <= k < |rest|
      ensures rest[k] !in curpath + [route[0]]
    {
      assert rest[k] == route[k + 1] && route[k + 1] != route[0];
    }
    forall k | 0 <= k < |rest| - 1
      ensures rest[k + 1] in Steps(rest[k])
    {
      assert rest[k] == route[k + 1] && rest[k + 1] == route[k + 2];
    }
    assert Open(b, route[1]);
  }

  /**
   * The corrected search finds a route whenever one exists, and none
   * scores more than the one it returns (points being non-negative).
   */
  lemma {:induction false} BestRouteOptimal(b: Board, finish: Pos, cur: Pos, curscore: int, curpath: seq<Pos>, route: seq<Pos>)
    requires Rectangular(b) && InMaze(b, cur) && !IsWall(b, cur) && cur !in curpath
    requires NonNegative(b) && curscore >= 0
    requires Route(b, finish, route, curpath) && route[0] == cur
    ensures var r := Search(false, b, finish, cur, curscore, curpath);
      r.1 != [] && r.0 >= curscore + Gain(b, route)
    decreases Squares(b) - Visited(curpath)
  {
    var r := Search(false, b, finish, cur, curscore, curpath);
    if finish != cur {
      assert cur in Squares(b) && Visited(curpath + [cur]) == Visited(curpath) + {cur};
      RouteTail(b, finish, route, curpath);
      BestRouteOptimal(b, finish, route[1], curscore, curpath + [cur], route[1..]);
      GainNonNegative(b, route[1..]);
      OptimalStep(b, finish, cur, curscore, curpath, route[1], curscore + Gain(b, route[1..]));
    }
  }

  /** One step of `BestRouteOptimal`: a candidate path worth at least `g >= 0` lifts the best one to at least `g` plus this square. */
  lemma OptimalStep(b: Board, finish: Pos, cur: Pos, curscore: int, curpath: seq<Pos>, n: Pos, g: int)
    requires Rectangular(b) && InMaze(b, cur) && !IsWall(b, cur) && cur !in curpath && finish != cur
    requires n in Steps(cur) && Available(b, n, curpath) && g >= 0
    requires var kid := Search(false, b, finish, n, curscore, curpath + [cur]);
      kid.1 != [] && kid.0 >= g
    ensures var r := Search(false, b, finish, cur, curscore, curpath);
      r.1 != [] && r.0 >= g + PointsAt(b, cur)
  {
    ChildIn(false, b, finish, cur, curscore, curpath, n);
    var all := Children(false, b, finish, cur, curscore, curpath);
    var kid := Search(false, b, finish, n, curscore, curpath + [cur]);
    var best := Best(all);
    var i :| 0 <= i < |all| && all[i] == kid;
    assert best.0 >= kid.0;
    assert best.1 != [];
  }

  /**
   * From the start with no path and no score, the corrected search returns
   * a route exactly when one exists, scored by its gain, and no route
   * gains more.
   */
  lemma FindBestRouteCorrect(b: Board, finish: Pos, start: Pos)
    requires Rectangular(b) && InMaze(b, start) && !IsWall(b, start) && NonNegative(b)
    ensures var r := FindBestRoute(b, finish, start, 0, []);
      && (r.1 != [] <==> exists route :: Route(b, finish, route, []) && route[0] == start)
      && (r.1 != [] ==> Route(b, finish, r.1, []) && r.1[0] == start && r.0 == Gain(b, r.1))
      && (r.1 == [] ==> r.0 == -1)
      && forall route :: Route(b, finish, route, []) && route[0] == start ==> r.0 >= Gain(b, route)
  {
    var r := FindBestRoute(b, finish, start, 0, []);
    SearchSound(false, b, finish, start, 0, []);
    assert r.1[0..] == r.1;
    forall route | Route(b, finish, route, []) && route[0] == start
      ensures r.1 != [] && r.0 >= Gain(b, route)
    {
      BestRouteOptimal(b, finish, start, 0, [], route);
    }
  }

  // ---------------------------------------------------------------------------
  // Examples

  /** The one-row grid `[[9, 0, 0]]`. */
  function Row(): Board
  {
    Board(1, 3, [[Points(9), Points(0), Points(0)]])
  }

  /**
   * The score of a dead end is the sentinel -1 plus the square's points, so
   * in `[[9, 0, 0]]` from the middle to the right-hand end, the dead end to
   * the left (9 points) beats the route (0 points) and no path comes back,
   * while the corrected search returns the route.
   */
  lemma DeadEndOutscoresRoute()
    ensures && Route(Row(), (0, 2), [(0, 1), (0, 2)], [])
            && FindRoute(Row(), (0, 2), (0, 1), 0, []) == (8, [])
            && FindBestRoute(Row(), (0, 2), (0, 1), 0, []) == (0, [(0, 1), (0, 2)])
  {
    RowRoute();
    RowAsWritten();
    RowCorrected();
  }

  lemma RowRoute()
    ensures Route(Row(), (0, 2), [(0, 1), (0, 2)], [])
  {
  }

  lemma RowAsWritten()
    ensures FindRoute(Row(), (0, 2), (0, 1), 0, []) == (8, [])
  {
    FromMiddle(true);
    assert Best([(0, [(0, 1), (0, 2)]), (8, []), (-1, [])]) == (8, []);
  }

  lemma RowCorrected()
    ensures FindBestRoute(Row(), (0, 2), (0, 1), 0, []) == (0, [(0, 1), (0, 2)])
  {
    FromMiddle(false);
    assert Best([(0, [(0, 1), (0, 2)]), (-1, []), (-1, [])]) == (0, [(0, 1), (0, 2)]);
  }

  /** In `[[9, 0, 0]]` from the middle: the route to the right, then the dead end to the left. */
  lemma FromMiddle(asWritten: bool)
    ensures Children(asWritten, Row(), (0, 2), (0, 1), 0, [])
      == [(0, [(0, 1), (0, 2)]), if asWritten then (8, []) else (-1, []), (-1, [])]
  {
    var b, f := Row(), (0, 2);
    MiddleRight(asWritten);
    MiddleLeft(asWritten);
    assert Kid(asWritten, b, f, (0, 1), (1, 1), 0, []) == [];
    assert Kid(asWritten, b, f, (0, 1), (-1, 1), 0, []) == [];
  }

  lemma MiddleRight(asWritten: bool)
    ensures Kid(asWritten, Row(), (0, 2), (0, 1), (0, 2), 0, []) == [(0, [(0, 1), (0, 2)])]
  {
    var b, f := Row(), (0, 2);
    assert [] + [(0, 1)] == [(0, 1)] && [(0, 1)] + [(0, 2)] == [(0, 1), (0, 2)];
    assert Search(asWritten, b, f, f, 0, [(0, 1)]) == (0, [(0, 1), (0, 2)]);
  }

  lemma MiddleLeft(asWritten: bool)
    ensures Kid(asWritten, Row(), (0, 2), (0, 1), (0, 0), 0, []) == [if asWritten then (8, []) else (-1, [])]
  {
    assert [] + [(0, 1)] == [(0, 1)];
    DeadEnd(asWritten);
  }

  /** In `[[9, 0, 0]]`, the left-hand square is a dead end once the middle one is on the path. */
  lemma DeadEnd(asWritten: bool)
    ensures Search(asWritten, Row(), (0, 2), (0, 0), 0, [(0, 1)]) == if asWritten then (8, []) else (-1, [])
  {
    var b, f := Row(), (0, 2);
    assert Kid(asWritten, b, f, (0, 0), (1, 0), 0, [(0, 1)]) == [];
    assert Kid(asWritten, b, f, (0, 0), (0, 1), 0, [(0, 1)]) == [];
    assert Kid(asWritten, b, f, (0, 0), (-1, 0), 0, [(0, 1)]) == [];
    assert Kid(asWritten, b, f, (0, 0), (0, -1), 0, [(0, 1)]) == [];
    assert Children(asWritten, b, f, (0, 0), 0, [(0, 1)]) == [(-1, [])];
  }
}
