/** The lattice of wall flags a maze is carved from.

    The grid is organised by points, not by boxes: point (row, col) owns the
    segment running right from it to (row, col + 1) (`drawRight`) and the
    segment running down from it to (row + 1, col) (`drawDown`).  A box is
    named by its top-left point, so these are its top and left walls.  A flag
    that is true means the wall is still standing and will be drawn. */
module GridMatrix {
  import opened Outcomes

  datatype LatticePoint = LatticePoint(x: int, y: int, drawRight: bool, drawDown: bool)

  datatype Flag = DrawRight | DrawDown

  /** One wall flag, addressed by the lattice point that owns it. */
  datatype Wall = Wall(row: int, col: int, flag: Flag)

  /** `matrix[row][col]` is the point at (row, col); `width`, `height` and
      `scale` are the constructor's arguments, kept as given. */
  datatype Grid = Grid(width: int, height: int, scale: int, matrix: seq<seq<LatticePoint>>)

  /** The number of values in Python's `range(n)`. */
  function Count(n: int): nat {
    if n < 0 then 0 else n
  }

  /** The shape the constructor gives every grid: `height` rows of `width` points. */
  predicate Shaped(g: Grid) {
    && |g.matrix| == Count(g.height)
    && forall r :: 0 <= r < |g.matrix| ==> |g.matrix[r]| == Count(g.width)
  }

  predicate OnLattice(g: Grid, row: int, col: int) {
    0 <= row < g.height && 0 <= col < g.width
  }

  function Draws(p: LatticePoint, f: Flag): bool {
    match f
    case DrawRight => p.drawRight
    case DrawDown => p.drawDown
  }

  function WithDraws(p: LatticePoint, f: Flag, v: bool): (q: LatticePoint)
    ensures Draws(q, f) == v
    ensures Draws(q, if f == DrawRight then DrawDown else DrawRight) == Draws(p, if f == DrawRight then DrawDown else DrawRight)
    ensures q.x == p.x && q.y == p.y
  {
    match f
    case DrawRight => p.(drawRight := v)
    case DrawDown => p.(drawDown := v)
  }

  function FlagAt(g: Grid, w: Wall): bool
    requires Shaped(g) && OnLattice(g, w.row, w.col)
  {
    Draws(g.matrix[w.row][w.col], w.flag)
  }

  /** The outer boundary the constructor forces: no wall below the last row
      and none to the right of the last column. */
  ghost predicate BoundaryForced(g: Grid)
    requires Shaped(g)
  {
    && (forall r, c :: OnLattice(g, r, c) && r == g.height - 1 ==> !g.matrix[r][c].drawDown)
    && (forall r, c :: OnLattice(g, r, c) && c == g.width - 1 ==> !g.matrix[r][c].drawRight)
  }

  /** The invariant every grid keeps: constructor shape and forced boundary. */
  ghost predicate Valid(g: Grid) {
    Shaped(g) && BoundaryForced(g)
  }

  /** A Python subscript into a list of length `n`: indices in [-n, n) are
      accepted and a negative one counts from the end. */
  function PyIndex(i: int, n: nat): (r: Option<nat>)
    ensures r.Some? <==> -(n as int) <= i < n
    ensures r.Some? ==> r.value < n
    ensures r.Some? && 0 <= i ==> r.value == i
    ensures r.Some? && i < 0 ==> r.value == i + n
  {
    if 0 <= i < n then Some(i)
    else if -(n as int) <= i < 0 then Some(i + n)
    else None
  }

  /** The subscripts `point_at` accepts. */
  predicate Addressable(g: Grid, row: int, col: int)
    requires Shaped(g)
  {
    -(|g.matrix| as int) <= row < |g.matrix| && -(Count(g.width) as int) <= col < Count(g.width)
  }

  /** `point_at(row, col)`: the point at `matrix[row][col]`, with Python's
      negative subscripts, or IndexError. */
  function PointAt(g: Grid, row: int, col: int): (r: Result<LatticePoint>)
    requires Shaped(g)
    ensures r.Ok? <==> Addressable(g, row, col)
    ensures r.Err? ==> r.error == IndexError
    ensures OnLattice(g, row, col) ==> r == Ok(g.matrix[row][col])
    ensures r.Ok? && row < 0 && 0 <= col ==> r.value == g.matrix[row + g.height][col]
    ensures r.Ok? && 0 <= row && col < 0 ==> r.value == g.matrix[row][col + g.width]
    ensures r.Ok? && row < 0 && col < 0 ==> r.value == g.matrix[row + g.height][col + g.width]
  {
    match PyIndex(row, |g.matrix|)
    case None => Err(IndexError)
    case Some(i) =>
      match PyIndex(col, |g.matrix[i]|)
      case None => Err(IndexError)
      case Some(j) => Ok(g.matrix[i][j])
  }

  /** `g2` is `g` with the flag named by `w` set to `v`: every other flag and
      every coordinate is unchanged. */
  ghost predicate Rewrites(g: Grid, g2: Grid, w: Wall, v: bool)
    requires Shaped(g)
  {
    && Shaped(g2)
    && g2.width == g.width && g2.height == g.height && g2.scale == g.scale
    && OnLattice(g, w.row, w.col)
    && forall r, c :: OnLattice(g, r, c) ==>
         g2.matrix[r][c] == (if r == w.row && c == w.col then WithDraws(g.matrix[r][c], w.flag, v) else g.matrix[r][c])
  }

  /** The lattice point a subscript accepted by `point_at` lands on. */
  function Resolve(g: Grid, row: int, col: int): (w: (int, int))
    requires Shaped(g) && Addressable(g, row, col)
    ensures OnLattice(g, w.0, w.1)
    ensures 0 <= row ==> w.0 == row
    ensures 0 <= col ==> w.1 == col
  {
    (PyIndex(row, |g.matrix|).value, PyIndex(col, Count(g.width)).value)
  }

  /** The flag a setter call on wall `w` writes, once its subscripts are
      resolved the way Python resolves them. */
  function ResolveWall(g: Grid, w: Wall): (x: Wall)
    requires Shaped(g) && Addressable(g, w.row, w.col)
    ensures OnLattice(g, x.row, x.col) && x.flag == w.flag
  {
    Wall(Resolve(g, w.row, w.col).0, Resolve(g, w.row, w.col).1, w.flag)
  }

  function SetDraws(g: Grid, row: int, col: int, f: Flag, v: bool): (r: Result<Grid>)
    requires Shaped(g)
    ensures r.Ok? <==> Addressable(g, row, col)
    ensures r.Err? ==> r.error == IndexError
    ensures r.Ok? ==> Rewrites(g, r.value, Wall(Resolve(g, row, col).0, Resolve(g, row, col).1, f), v)
  {
    match PyIndex(row, |g.matrix|)
    case None => Err(IndexError)
    case Some(i) =>
      match PyIndex(col, |g.matrix[i]|)
      case None => Err(IndexError)
      case Some(j) =>
        Ok(g.(matrix := g.matrix[i := g.matrix[i][j := WithDraws(g.matrix[i][j], f, v)]]))
  }

  /** `point_set_draws_right(row, col, val)`. */
  function PointSetDrawsRight(g: Grid, row: int, col: int, val: bool): (r: Result<Grid>)
    requires Shaped(g)
    ensures r.Ok? <==> Addressable(g, row, col)
    ensures r.Err? ==> r.error == IndexError
    ensures r.Ok? ==> Rewrites(g, r.value, Wall(Resolve(g, row, col).0, Resolve(g, row, col).1, DrawRight), val)
  {
    SetDraws(g, row, col, DrawRight, val)
  }

  /** `point_set_draws_down(row, col, val)`. */
  function PointSetDrawsDown(g: Grid, row: int, col: int, val: bool): (r: Result<Grid>)
    requires Shaped(g)
    ensures r.Ok? <==> Addressable(g, row, col)
    ensures r.Err? ==> r.error == IndexError
    ensures r.Ok? ==> Rewrites(g, r.value, Wall(Resolve(g, row, col).0, Resolve(g, row, col).1, DrawDown), val)
  {
    SetDraws(g, row, col, DrawDown, val)
  }

  /** `is_carved(row, col)`: whether the box whose top-left point is (row, col)
      has lost one of its four walls.  The walls are read in the source's
      order (up, left, down, right) and the first missing one ends the
      evaluation, so a later subscript that would raise is never reached. */
  function IsCarved(g: Grid, row: int, col: int): (r: Result<bool>)
    requires Shaped(g)
    ensures !Addressable(g, row, col) ==> r == Err(IndexError)
    ensures Addressable(g, row, col) && !PointAt(g, row, col).value.drawRight ==> r == Ok(true)
    ensures Addressable(g, row, col) && !PointAt(g, row, col).value.drawDown ==> r == Ok(true)
    ensures r == Ok(false) ==> Addressable(g, row + 1, col) && Addressable(g, row, col + 1)
  {
    var here :- PointAt(g, row, col);
    if !here.drawRight then Ok(true)
    else if !here.drawDown then Ok(true)
    else
      var below :- PointAt(g, row + 1, col);
      if !below.drawRight then Ok(true)
      else
        var right :- PointAt(g, row, col + 1);
        Ok(!right.drawDown)
  }

  /** A real box: its top-left point is neither in the last row nor in the
      last column. */
  predicate IsBox(g: Grid, row: int, col: int) {
    0 <= row < g.height - 1 && 0 <= col < g.width - 1
  }

  /** The four walls of the box at (row, col), in the order `is_carved` reads them. */
  function TopWall(row: int, col: int): Wall { Wall(row, col, DrawRight) }
  function LeftWall(row: int, col: int): Wall { Wall(row, col, DrawDown) }
  function BottomWall(row: int, col: int): Wall { Wall(row + 1, col, DrawRight) }
  function RightWall(row: int, col: int): Wall { Wall(row, col + 1, DrawDown) }

  /** A box is carved exactly when one of its four walls is gone. */
  lemma BoxCarvedIff(g: Grid, row: int, col: int)
    requires Valid(g) && IsBox(g, row, col)
    ensures IsCarved(g, row, col) == Ok(
      || !FlagAt(g, TopWall(row, col))
      || !FlagAt(g, LeftWall(row, col))
      || !FlagAt(g, BottomWall(row, col))
      || !FlagAt(g, RightWall(row, col)))
  {
  }

  /** A point in the last row or last column reads as carved, because its
      forced flag ends the evaluation; the subscript past the grid that a
      full evaluation would need is never made. */
  lemma EdgeReadsCarved(g: Grid, row: int, col: int)
    requires Valid(g) && OnLattice(g, row, col)
    requires row == g.height - 1 || col == g.width - 1
    ensures IsCarved(g, row, col) == Ok(true)
    ensures row == g.height - 1 ==> PointAt(g, row + 1, col).Err?
    ensures col == g.width - 1 ==> PointAt(g, row, col + 1).Err?
  {
  }

  /** Row -1 and column -1 wrap round to the last row and last column, whose
      forced flags make them read as carved. */
  lemma WrappedReadsCarved(g: Grid, row: int, col: int)
    requires Valid(g) && Addressable(g, row, col)
    requires row == -1 || col == -1
    ensures IsCarved(g, row, col) == Ok(true)
  {
    var p := PointAt(g, row, col).value;
    if col == -1 {
      assert p == g.matrix[Resolve(g, row, col).0][g.width - 1];
      assert !p.drawRight;
    } else {
      assert p == g.matrix[g.height - 1][Resolve(g, row, col).1];
      assert !p.drawDown;
    }
  }

  /** A query one row below the last row, or one column right of the last
      column, raises IndexError. */
  lemma PastEndRaises(g: Grid, row: int, col: int)
    requires Shaped(g)
    requires row == Count(g.height) || (-(Count(g.height) as int) <= row < Count(g.height) && col == Count(g.width))
    ensures IsCarved(g, row, col) == Err(IndexError)
  {
  }

  /** `g2` differs from `g` only by walls that have come down: every flag
      of `g2` that is set was set in `g`, and coordinates are unchanged. */
  ghost predicate Descends(g: Grid, g2: Grid) {
    && Shaped(g) && Shaped(g2)
    && g2.width == g.width && g2.height == g.height && g2.scale == g.scale
    && forall r, c :: OnLattice(g, r, c) ==> Lowered(g.matrix[r][c], g2.matrix[r][c])
  }

  predicate Lowered(p: LatticePoint, q: LatticePoint) {
    && q.x == p.x && q.y == p.y
    && (q.drawRight ==> p.drawRight)
    && (q.drawDown ==> p.drawDown)
  }

  lemma DescendsRefl(g: Grid)
    requires Shaped(g)
    ensures Descends(g, g)
  {
  }

  lemma DescendsTrans(g1: Grid, g2: Grid, g3: Grid)
    requires Descends(g1, g2) && Descends(g2, g3)
    ensures Descends(g1, g3)
  {
  }

  /** Clearing a flag lowers the grid and keeps the forced boundary. */
  lemma ClearDescends(g: Grid, g2: Grid, w: Wall)
    requires Valid(g) && Rewrites(g, g2, w, false)
    ensures Descends(g, g2)
    ensures Valid(g2)
  {
  }

  /** Lowering flags never un-carves a box, and never makes a query raise
      that did not raise before. */
  lemma CarvedMonotone(g: Grid, g2: Grid, row: int, col: int)
    requires Descends(g, g2)
    ensures IsCarved(g, row, col) == Ok(true) ==> IsCarved(g2, row, col) == Ok(true)
    ensures IsCarved(g2, row, col) == Ok(false) ==> IsCarved(g, row, col) == Ok(false)
  {
    if Addressable(g, row, col) {
      var (i, j) := Resolve(g, row, col);
      assert Lowered(g.matrix[i][j], g2.matrix[i][j]);
      if Addressable(g, row + 1, col) {
        var (i2, j2) := Resolve(g, row + 1, col);
        assert Lowered(g.matrix[i2][j2], g2.matrix[i2][j2]);
      }
      if Addressable(g, row, col + 1) {
        var (i3, j3) := Resolve(g, row, col + 1);
        assert Lowered(g.matrix[i3][j3], g2.matrix[i3][j3]);
      }
    }
  }

  /** Clearing a top/bottom wall (a `drawRight` flag) carves both boxes that
      share it, and changes no other box. */
  lemma ClearRightCarvesBothSides(g: Grid, g2: Grid, i: int, j: int, row: int, col: int)
    requires Valid(g) && Rewrites(g, g2, Wall(i, j, DrawRight), false)
    requires IsBox(g, row, col)
    ensures (row, col) == (i, j) || (row, col) == (i - 1, j) ==> IsCarved(g2, row, col) == Ok(true)
    ensures (row, col) != (i, j) && (row, col) != (i - 1, j) ==> IsCarved(g2, row, col) == IsCarved(g, row, col)
  {
    ClearDescends(g, g2, Wall(i, j, DrawRight));
    BoxCarvedIff(g, row, col);
    BoxCarvedIff(g2, row, col);
  }

  /** Clearing a left/right wall (a `drawDown` flag) carves both boxes that
      share it, and changes no other box. */
  lemma ClearDownCarvesBothSides(g: Grid, g2: Grid, i: int, j: int, row: int, col: int)
    requires Valid(g) && Rewrites(g, g2, Wall(i, j, DrawDown), false)
    requires IsBox(g, row, col)
    ensures (row, col) == (i, j) || (row, col) == (i, j - 1) ==> IsCarved(g2, row, col) == Ok(true)
    ensures (row, col) != (i, j) && (row, col) != (i, j - 1) ==> IsCarved(g2, row, col) == IsCarved(g, row, col)
  {
    ClearDescends(g, g2, Wall(i, j, DrawDown));
    BoxCarvedIff(g, row, col);
    BoxCarvedIff(g2, row, col);
  }

  /** The position the constructor gives the point at (row, col), and its
      flags: all walls standing except the forced boundary. */
  function Initial(width: int, height: int, scale: int, row: int, col: int): LatticePoint {
    LatticePoint(col * scale, row * scale, col != width - 1, row != height - 1)
  }

  /** Every point is where the constructor put it, with its initial flags. */
  ghost predicate Fresh(g: Grid) {
    && Shaped(g)
    && forall r, c :: OnLattice(g, r, c) ==> g.matrix[r][c] == Initial(g.width, g.height, g.scale, r, c)
  }

  /** A freshly built grid has no carved box: all interior walls stand. */
  lemma FreshBoxesUncarved(g: Grid, row: int, col: int)
    requires Fresh(g) && IsBox(g, row, col)
    ensures IsCarved(g, row, col) == Ok(false)
  {
    assert g.matrix[row][col] == Initial(g.width, g.height, g.scale, row, col);
    assert g.matrix[row + 1][col] == Initial(g.width, g.height, g.scale, row + 1, col);
    assert g.matrix[row][col + 1] == Initial(g.width, g.height, g.scale, row, col + 1);
  }

  /** `GridMatrix(width, height, scale)`: `height` rows of `width` points,
      built row by row as the constructor does. */
  method New(width: int, height: int, scale: int) returns (g: Grid)
    ensures Valid(g) && Fresh(g)
    ensures g.width == width && g.height == height && g.scale == scale
    ensures forall r, c :: OnLattice(g, r, c) ==> g.matrix[r][c] == Initial(width, height, scale, r, c)
  {
    var matrix: seq<seq<LatticePoint>> := [];
    var row := 0;
    while row < height
      invariant row <= Count(height)
      invariant |matrix| == row
      invariant forall r :: 0 <= r < row ==> |matrix[r]| == Count(width)
      invariant forall r, c :: 0 <= r < row && 0 <= c < Count(width) ==> matrix[r][c] == Initial(width, height, scale, r, c)
    {
      var line: seq<LatticePoint> := [];
      var col := 0;
      while col < width
        invariant col <= Count(width)
        invariant |line| == col
        invariant forall c :: 0 <= c < col ==> line[c] == Initial(width, height, scale, row, c)
      {
        var p := LatticePoint(col * scale, row * scale, true, true);
        if row == height - 1 {
          p := p.(drawDown := false);
        }
        if col == width - 1 {
          p := p.(drawRight := false);
        }
        line := line + [p];
        col := col + 1;
      }
      matrix := matrix + [line];
      row := row + 1;
    }
    g := Grid(width, height, scale, matrix);
  }
}
