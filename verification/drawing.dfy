/** The straight-line rendering loop of `draw()`: which wall segments a
    carved grid turns into lines, and in what order. */
module Drawing {
  import opened Outcomes
  import opened GridMatrix

  /** `Line((x1, y1), (x2, y2))`, without its stroke styling. */
  datatype Segment = Segment(x1: int, y1: int, x2: int, y2: int)

  function LineBetween(p: LatticePoint, q: LatticePoint): Segment {
    Segment(p.x, p.y, q.x, q.y)
  }

  /** The lines point (row, col) contributes: the wall to its right, then
      the wall below it, each only while its flag is set. */
  function PointSegments(g: Grid, row: int, col: int): seq<Segment>
    requires Valid(g) && OnLattice(g, row, col)
  {
    var here := g.matrix[row][col];
    (if here.drawRight then [LineBetween(here, g.matrix[row][col + 1])] else [])
    + (if here.drawDown then [LineBetween(here, g.matrix[row + 1][col])] else [])
  }

  /** The lines of the first `n` points of row `row`. */
  function RowSegments(g: Grid, row: int, n: int): seq<Segment>
    requires Valid(g) && 0 <= row < g.height && 0 <= n <= Count(g.width)
    decreases n
  {
    if n == 0 then [] else RowSegments(g, row, n - 1) + PointSegments(g, row, n - 1)
  }

  /** The lines of the first `n` rows, in row-major order. */
  function RowsSegments(g: Grid, n: int): seq<Segment>
    requires Valid(g) && 0 <= n <= Count(g.height)
    decreases n
  {
    if n == 0 then [] else RowsSegments(g, n - 1) + RowSegments(g, n - 1, Count(g.width))
  }

  /** Every line the grid draws, in emission order. */
  function Segments(g: Grid): seq<Segment>
    requires Valid(g)
  {
    RowsSegments(g, Count(g.height))
  }

  /** The nested loop of `draw()` over rows and columns.  The subscripts
      `col + 1` and `row + 1` would raise at the last column and row, but a
      valid grid never has those flags set there, so the loop always
      finishes and emits exactly `Segments(g)`. */
  method DrawSegments(g: Grid) returns (res: Result<seq<Segment>>)
    requires Shaped(g)
    ensures Valid(g) ==> res == Ok(Segments(g))
    ensures res.Err? ==> res.error == IndexError
  {
    var lines: seq<Segment> := [];
    var row := 0;
    while row < g.height
      invariant row <= Count(g.height)
      invariant Valid(g) ==> lines == RowsSegments(g, row)
    {
      lines :- DrawRow(g, row, lines);
      row := row + 1;
    }
    return Ok(lines);
  }

  /** One pass of the inner loop: appends the lines of row `row` to `lines`. */
  method DrawRow(g: Grid, row: int, lines: seq<Segment>) returns (res: Result<seq<Segment>>)
    requires Shaped(g) && 0 <= row < g.height
    ensures Valid(g) ==> res == Ok(lines + RowSegments(g, row, Count(g.width)))
    ensures res.Err? ==> res.error == IndexError
  {
    var acc := lines;
    var col := 0;
    while col < g.width
      invariant col <= Count(g.width)
      invariant Valid(g) ==> acc == lines + RowSegments(g, row, col)
    {
      var here :- PointAt(g, row, col);
      if here.drawRight {
        var right :- PointAt(g, row, col + 1);
        acc := acc + [LineBetween(here, right)];
      }
      if here.drawDown {
        var below :- PointAt(g, row + 1, col);
        acc := acc + [LineBetween(here, below)];
      }
      col := col + 1;
    }
    return Ok(acc);
  }

  lemma {:induction false} RowSegmentsMembership(g: Grid, row: int, n: int, s: Segment)
    requires Valid(g) && 0 <= row < g.height && 0 <= n <= Count(g.width)
    ensures s in RowSegments(g, row, n) <==> exists c :: 0 <= c < n && s in PointSegments(g, row, c)
    decreases n
  {
    if n > 0 {
      RowSegmentsMembership(g, row, n - 1, s);
    }
  }

  lemma {:induction false} RowsSegmentsMembership(g: Grid, n: int, s: Segment)
    requires Valid(g) && 0 <= n <= Count(g.height)
    ensures s in RowsSegments(g, n) <==> exists r, c :: 0 <= r < n && 0 <= c < g.width && s in PointSegments(g, r, c)
    decreases n
  {
    if n > 0 {
      RowsSegmentsMembership(g, n - 1, s);
      RowSegmentsMembership(g, n - 1, Count(g.width), s);
      assert RowsSegments(g, n) == RowsSegments(g, n - 1) + RowSegments(g, n - 1, Count(g.width));
      if s in RowsSegments(g, n) {
        if s !in RowsSegments(g, n - 1) {
          var c :| 0 <= c < Count(g.width) && s in PointSegments(g, n - 1, c);
          assert 0 <= n - 1 < n && 0 <= c < g.width && s in PointSegments(g, n - 1, c);
        }
      }
      if exists r, c :: 0 <= r < n && 0 <= c < g.width && s in PointSegments(g, r, c) {
        var r, c :| 0 <= r < n && 0 <= c < g.width && s in PointSegments(g, r, c);
        if r == n - 1 {
          assert s in RowSegments(g, n - 1, Count(g.width));
        }
      }
    }
  }

  /** The points sit where the constructor put them, on a grid of spacing
      `scale`. */
  ghost predicate Placed(g: Grid)
    requires Shaped(g)
  {
    forall r, c :: OnLattice(g, r, c) ==> g.matrix[r][c].x == c * g.scale && g.matrix[r][c].y == r * g.scale
  }

  /** The constructor places every point, and carving moves none of them. */
  lemma CarvedGridStaysPlaced(g: Grid, g2: Grid)
    requires Fresh(g) && Descends(g, g2)
    ensures Placed(g2)
  {
    forall r, c | OnLattice(g2, r, c)
      ensures g2.matrix[r][c].x == c * g2.scale && g2.matrix[r][c].y == r * g2.scale
    {
      assert Lowered(g.matrix[r][c], g2.matrix[r][c]);
    }
  }

  lemma MulCancel(a: int, b: int, s: int)
    requires 0 < s && a * s == b * s
    ensures a == b
  {
    assert (a - b) * s == 0;
  }

  /** The horizontal line from point (row, col) to (row, col + 1) is drawn
      exactly when that point's `drawRight` flag is set. */
  lemma DrawnRightExactlyWhenFlagged(g: Grid, row: int, col: int)
    requires Valid(g) && Placed(g) && 0 < g.scale
    requires 0 <= row < g.height && 0 <= col < g.width - 1
    ensures Segment(col * g.scale, row * g.scale, (col + 1) * g.scale, row * g.scale) in Segments(g)
      <==> g.matrix[row][col].drawRight
  {
    var s := g.scale;
    var right := Segment(col * s, row * s, (col + 1) * s, row * s);
    RowsSegmentsMembership(g, Count(g.height), right);
    if g.matrix[row][col].drawRight {
      assert g.matrix[row][col + 1].x == (col + 1) * s;
      assert right in PointSegments(g, row, col);
    }
    if right in Segments(g) {
      var r, c :| 0 <= r < Count(g.height) && 0 <= c < g.width && right in PointSegments(g, r, c);
      SegmentFrom(g, r, c, right);
      MulCancel(r, row, s);
      MulCancel(c, col, s);
    }
  }

  /** The vertical line from point (row, col) to (row + 1, col) is drawn
      exactly when that point's `drawDown` flag is set. */
  lemma DrawnDownExactlyWhenFlagged(g: Grid, row: int, col: int)
    requires Valid(g) && Placed(g) && 0 < g.scale
    requires 0 <= row < g.height - 1 && 0 <= col < g.width
    ensures Segment(col * g.scale, row * g.scale, col * g.scale, (row + 1) * g.scale) in Segments(g)
      <==> g.matrix[row][col].drawDown
  {
    var s := g.scale;
    var down := Segment(col * s, row * s, col * s, (row + 1) * s);
    RowsSegmentsMembership(g, Count(g.height), down);
    if g.matrix[row][col].drawDown {
      assert g.matrix[row + 1][col].y == (row + 1) * s;
      assert g.matrix[row + 1][col].x == col * s;
      assert down in PointSegments(g, row, col);
    }
    if down in Segments(g) {
      var r, c :| 0 <= r < Count(g.height) && 0 <= c < g.width && down in PointSegments(g, r, c);
      SegmentFrom(g, r, c, down);
      MulCancel(r, row, s);
      MulCancel(c, col, s);
    }
  }

  /** A line contributed by point (r, c) starts at that point and ends one
      step right (from `drawRight`) or one step down (from `drawDown`). */
  lemma SegmentFrom(g: Grid, r: int, c: int, seg: Segment)
    requires Valid(g) && Placed(g) && 0 < g.scale && OnLattice(g, r, c)
    requires seg in PointSegments(g, r, c)
    ensures seg.x1 == c * g.scale && seg.y1 == r * g.scale
    ensures seg.x2 != seg.x1 ==> g.matrix[r][c].drawRight && seg.x2 == (c + 1) * g.scale && seg.y2 == seg.y1
    ensures seg.x2 == seg.x1 ==> g.matrix[r][c].drawDown && seg.y2 == (r + 1) * g.scale
  {
    var s := g.scale;
    if g.matrix[r][c].drawRight {
      assert g.matrix[r][c + 1].x == (c + 1) * s;
      assert (c + 1) * s != c * s;
    }
    if g.matrix[r][c].drawDown {
      assert g.matrix[r + 1][c].y == (r + 1) * s;
      assert g.matrix[r + 1][c].x == c * s;
    }
  }
}
