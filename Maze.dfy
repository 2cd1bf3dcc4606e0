/**
 * The maze grid of hw5/maze.py: a rectangle of cells holding points or a
 * wall, with a start and a finish square. Indexing follows Python's lists,
 * where a negative index counts from the end.
 */
module Maze {
  import opened Util

  datatype Cell = Wall | Points(value: int)

  type Pos = (int, int)

  /** The dimensions given to the constructor and the grid set for the maze. */
  datatype Board = Board(rows: int, cols: int, cells: seq<seq<Cell>>)

  /** The grid has exactly `rows` rows of `cols` cells each. */
  predicate Rectangular(b: Board)
  {
    |b.cells| == b.rows && forall r :: 0 <= r < |b.cells| ==> |b.cells[r]| == b.cols
  }

  /** `is_move_in_maze`: a square in the maze of a rectangular grid is read directly, with no wrap-around. */
  predicate InMaze(b: Board, p: Pos)
    ensures Rectangular(b) && InMaze(b, p) ==>
              0 <= p.0 < |b.cells| && 0 <= p.1 < |b.cells[p.0]| && CellAt(b.cells, p) == Some(b.cells[p.0][p.1])
  {
    0 <= p.0 < b.rows && 0 <= p.1 < b.cols
  }

  /** `is_wall`, at a square of a rectangular grid: the square reads as a wall. */
  predicate IsWall(b: Board, p: Pos)
    requires Rectangular(b) && InMaze(b, p)
    ensures IsWall(b, p) <==> CellAt(b.cells, p) == Some(Wall)
  {
    b.cells[p.0][p.1] == Wall
  }

  /** `cells[p[0]][p[1]]`, None when either index is out of range. */
  function CellAt(cells: seq<seq<Cell>>, p: Pos): (r: Option<Cell>)
    ensures r.None? <==> !(-|cells| <= p.0 < |cells|) || !(-|cells[PyIndex(|cells|, p.0).value]| <= p.1 < |cells[PyIndex(|cells|, p.0).value]|)
    ensures 0 <= p.0 < |cells| && 0 <= p.1 < |cells[p.0]| ==> r == Some(cells[p.0][p.1])
  {
    match PyIndex(|cells|, p.0)
    case None => None
    case Some(r) =>
      match PyIndex(|cells[r]|, p.1)
      case None => None
      case Some(c) => Some(cells[r][c])
  }

  /** `cells[p[0]][p[1]] = v`, None when either index is out of range. */
  function SetCell(cells: seq<seq<Cell>>, p: Pos, v: Cell): (r: Option<seq<seq<Cell>>>)
    ensures r.Some? <==> CellAt(cells, p).Some?
    ensures r.Some? ==> |r.value| == |cells| && CellAt(r.value, p) == Some(v)
    ensures r.Some? ==> forall q :: CellAt(cells, q).Some? && PyIndex(|cells|, q.0) != PyIndex(|cells|, p.0) ==> CellAt(r.value, q) == CellAt(cells, q)
  {
    match PyIndex(|cells|, p.0)
    case None => None
    case Some(r) =>
      match PyIndex(|cells[r]|, p.1)
      case None => None
      case Some(c) => Some(cells[r := cells[r][c := v]])
  }

  /** Inside a rectangular grid, reading and writing address the square itself and nothing else. */
  lemma InMazeAccess(b: Board, p: Pos, v: Cell)
    requires Rectangular(b) && InMaze(b, p)
    ensures CellAt(b.cells, p) == Some(b.cells[p.0][p.1])
    ensures SetCell(b.cells, p, v).Some?
    ensures var cells := SetCell(b.cells, p, v).value;
      |cells| == |b.cells| &&
      forall r, c :: 0 <= r < |cells| && 0 <= c < |cells[r]| ==>
        cells[r][c] == if (r, c) == p then v else b.cells[r][c]
  {
  }

  /** A negative index reaches the square counted from the far end: `(-1, -1)` is the bottom-right square. */
  lemma NegativeAccess(b: Board, v: Cell)
    requires Rectangular(b) && b.rows > 0 && b.cols > 0
    ensures CellAt(b.cells, (-1, -1)) == Some(b.cells[b.rows - 1][b.cols - 1])
    ensures SetCell(b.cells, (-1, -1), v) == SetCell(b.cells, (b.rows - 1, b.cols - 1), v)
  {
  }

  class Maze {
    var rows: int
    var cols: int
    /** Whether a grid was ever set; until then every access to it fails with an AttributeError. */
    var hasGrid: bool
    /** The grid, meaningful once `hasGrid` holds. */
    var cells: seq<seq<Cell>>
    var start: Option<Pos>
    var finish: Option<Pos>

    function Grid(): Board
      reads this
    {
      Board(rows, cols, cells)
    }

    constructor(rows: int, cols: int)
      ensures this.rows == rows && this.cols == cols && !hasGrid && cells == [] && start == None && finish == None
    {
      this.rows := rows;
      this.cols := cols;
      hasGrid := false;
      cells := [];
      start := None;
      finish := None;
    }

    /** `_set_maze`: the grid is replaced as given. */
    method SetMaze(lst: seq<seq<Cell>>)
      modifies this
      ensures hasGrid && cells == lst && rows == old(rows) && cols == old(cols) && start == old(start) && finish == old(finish)
    {
      hasGrid := true;
      cells := lst;
    }

    /**
     * `make_move`: the square joins the path, then its content is read:
     * AttributeError before any grid is set, IndexError out of range.
     */
    method MakeMove(row: int, col: int, path: seq<Pos>) returns (value: Result<Cell>, path': seq<Pos>)
      ensures path' == path + [(row, col)]
      ensures !hasGrid ==> value == Err(AttributeError)
      ensures hasGrid ==> value == match CellAt(cells, (row, col)) case None => Err(IndexError) case Some(v) => Ok(v)
      ensures hasGrid && Rectangular(Grid()) && InMaze(Grid(), (row, col)) ==> value == Ok(cells[row][col])
    {
      path' := path + [(row, col)];
      if !hasGrid {
        return Err(AttributeError), path';
      }
      match CellAt(cells, (row, col))
      case None => value := Err(IndexError);
      case Some(v) => value := Ok(v);
    }

    /**
     * `set_start_finish` as written: it tests the start against the maze
     * twice and never tests the finish, then records both and zeroes their
     * squares, failing with an AttributeError when no grid is set and with
     * an IndexError midway when an index is out of the grid.
     */
    method SetStartFinish(start: Pos, finish: Pos) returns (o: Outcome)
      modifies this
      ensures !InMaze(old(Grid()), start) || start == finish ==>
        o == Raised(RuntimeError) && cells == old(cells) && this.start == old(this.start) && this.finish == old(this.finish)
      ensures InMaze(old(Grid()), start) && start != finish && !hasGrid ==>
        o == Raised(AttributeError) && this.start == Some(start) && this.finish == Some(finish) && cells == old(cells)
      ensures InMaze(old(Grid()), start) && start != finish && hasGrid ==>
        this.start == Some(start) && this.finish == Some(finish) &&
        match SetCell(old(cells), start, Points(0))
        case None => o == Raised(IndexError) && cells == old(cells)
        case Some(once) =>
          match SetCell(once, finish, Points(0))
          case None => o == Raised(IndexError) && cells == once
          case Some(twice) => o == Done && cells == twice
      ensures rows == old(rows) && cols == old(cols) && hasGrid == old(hasGrid)
    {
      if !InMaze(Grid(), start) || !InMaze(Grid(), start) {
        return Raised(RuntimeError);
      }
      if start == finish {
        return Raised(RuntimeError);
      }
      this.start := Some(start);
      this.finish := Some(finish);
      if !hasGrid {
        return Raised(AttributeError);
      }
      var once := SetCell(cells, start, Points(0));
      if once.None? {
        return Raised(IndexError);
      }
      cells := once.value;
      var twice := SetCell(cells, finish, Points(0));
      if twice.None? {
        return Raised(IndexError);
      }
      cells := twice.value;
      o := Done;
    }

    /** `set_start_finish` testing both squares, as its error message says it should. */
    method SetStartFinishChecked(start: Pos, finish: Pos) returns (o: Outcome)
      requires hasGrid ==> Rectangular(Grid())
      modifies this
      ensures rows == old(rows) && cols == old(cols) && hasGrid == old(hasGrid)
      ensures !InMaze(old(Grid()), start) || !InMaze(old(Grid()), finish) || start == finish ==>
        o == Raised(RuntimeError) && cells == old(cells) && this.start == old(this.start) && this.finish == old(this.finish)
      ensures InMaze(old(Grid()), start) && InMaze(old(Grid()), finish) && start != finish && !hasGrid ==>
        o == Raised(AttributeError) && this.start == Some(start) && this.finish == Some(finish) && cells == old(cells)
      ensures InMaze(old(Grid()), start) && InMaze(old(Grid()), finish) && start != finish && hasGrid ==>
        && o == Done && this.start == Some(start) && this.finish == Some(finish)
        && Rectangular(Grid())
        && forall r, c :: 0 <= r < rows && 0 <= c < cols ==>
             cells[r][c] == if (r, c) == start || (r, c) == finish then Points(0) else old(cells)[r][c]
    {
      if !InMaze(Grid(), start) || !InMaze(Grid(), finish) {
        return Raised(RuntimeError);
      }
      if start == finish {
        return Raised(RuntimeError);
      }
      this.start := Some(start);
      this.finish := Some(finish);
      if !hasGrid {
        return Raised(AttributeError);
      }
      InMazeAccess(Grid(), start, Points(0));
      cells := SetCell(cells, start, Points(0)).value;
      InMazeAccess(Grid(), finish, Points(0));
      cells := SetCell(cells, finish, Points(0)).value;
      o := Done;
    }
  }

  /** A finish outside the maze is accepted: on a 2x2 grid, `(-1, -1)` zeroes the bottom-right square. */
  method FinishOutsideAccepted() returns (o: Outcome, corner: Cell)
    ensures o == Done && corner == Points(0)
  {
    var m := new Maze(2, 2);
    m.SetMaze([[Points(0), Points(1)], [Points(2), Points(3)]]);
    o := m.SetStartFinish((0, 0), (-1, -1));
    corner := m.cells[1][1];
  }

  /** The checked version refuses the same call. */
  method FinishOutsideRefused() returns (o: Outcome)
    ensures o == Raised(RuntimeError)
  {
    var m := new Maze(2, 2);
    m.SetMaze([[Points(0), Points(1)], [Points(2), Points(3)]]);
    o := m.SetStartFinishChecked((0, 0), (-1, -1));
  }
}
