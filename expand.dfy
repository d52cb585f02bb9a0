/** `expand` of hashlife.c: draws the live cells of a node into the
    display grid, skipping the parts of the node that fall outside the
    view. The view (`E.x`, `E.y`, `E.screencols`, `E.screenrows`) and the
    grid `E.grid`, indexed `[x][y]`, are parameters here. */
module Display {
  import opened Quadtree
  import opened Windows

  /** The cell (u, v) is in the view whose top-left corner is (vx, vy). */
  predicate InView(vx: int, vy: int, cols: int, rows: int, u: int, v: int) {
    vx <= u < vx + cols && vy <= v < vy + rows
  }

  /** `expand` sets cell (u, v) of the grid when it is in the view and is
      a live cell of p drawn with its top-left corner at (x, y). */
  ghost predicate Painted(p: Node, x: int, y: int, vx: int, vy: int, cols: int, rows: int, u: int, v: int)
    requires p.WellFormed()
  {
    InView(vx, vy, cols, rows, u, v) && At(Cells(p), u - x, v - y)
  }

  /** A live cell of p is a live cell of exactly the quadrant it lies in;
      h is the quadrant side, and the quadrants are drawn at (x, y), (X, y),
      (x, Y) and (X, Y). */
  lemma {:induction false} LiveSplit(p: Node, h: nat, x: int, y: int, X: int, Y: int, u: int, v: int)
    requires p.WellFormed() && p.Inner? && h == Size(p.Level() - 1) && X == x + h && Y == y + h
    ensures At(Cells(p), u - x, v - y) <==>
              At(Cells(p.a), u - x, v - y) || At(Cells(p.b), u - X, v - y) ||
              At(Cells(p.c), u - x, v - Y) || At(Cells(p.d), u - X, v - Y)
  {
    var i, j, i2, j2 := u - x, v - y, u - X, v - Y;
    if 0 <= i < h && 0 <= j < h {
      CellA(p, h, i, j, i, j);
    } else if h <= i < h + h && 0 <= j < h {
      CellB(p, h, i, j, i2, j);
    } else if 0 <= i < h && h <= j < h + h {
      CellC(p, h, i, j, i, j2);
    } else if h <= i < h + h && h <= j < h + h {
      CellD(p, h, i, j, i2, j2);
    }
  }

  /** `expand`: sets to 1 exactly the grid cells that are in the view and
      live in p drawn at (x, y); every other cell keeps its value. A node
      with no live cells, or one wholly outside the view, is skipped. */
  method Expand(p: Node, x: int, y: int, vx: int, vy: int, cols: int, rows: int, grid: array2<int>)
    requires p.WellFormed()
    requires 0 <= vx && 0 <= vy && vx + cols <= grid.Length0 && vy + rows <= grid.Length1
    modifies grid
    ensures forall u, v :: 0 <= u < grid.Length0 && 0 <= v < grid.Length1 ==>
              grid[u, v] == if Painted(p, x, y, vx, vy, cols, rows, u, v) then 1 else old(grid[u, v])
    decreases p
  {
    if p.Pop() == 0 {
      forall u, v | 0 <= u < grid.Length0 && 0 <= v < grid.Length1
        ensures !Painted(p, x, y, vx, vy, cols, rows, u, v)
      {
        var i, j := u - x, v - y;
        if InRange(p, i, j) {
          DeadIfEmpty(p, i, j);
        }
      }
      return;
    }
    var size := Size(p.Level());
    if x + size <= vx || x >= vx + cols || y + size <= vy || y >= vy + rows {
      return;
    }
    if p.Level() == 0 {
      grid[x, y] := 1;
      return;
    }
    var offset := Size(p.Level() - 1);
    var X, Y := x + offset, y + offset;
    label L0:
    Expand(p.a, x, y, vx, vy, cols, rows, grid);
    label L1:
    Expand(p.b, X, y, vx, vy, cols, rows, grid);
    label L2:
    Expand(p.c, x, Y, vx, vy, cols, rows, grid);
    Expand(p.d, X, Y, vx, vy, cols, rows, grid);
    forall u, v | 0 <= u < grid.Length0 && 0 <= v < grid.Length1
      ensures grid[u, v] == if Painted(p, x, y, vx, vy, cols, rows, u, v) then 1 else old(grid[u, v])
    {
      LiveSplit(p, offset, x, y, X, Y, u, v);
    }
  }
}
