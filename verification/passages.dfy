/** The passages of a carved maze: which walls between boxes are cleared,
    and the routes through them.  A finished maze is a spanning tree of the
    boxes: every box can reach every other through cleared walls, and there
    is exactly one cleared wall fewer than there are boxes. */
module Passages {
  import opened Outcomes
  import opened GridMatrix
  import opened GrowingTree

  /** Two boxes that share a wall. */
  predicate Adjacent(a: Point, b: Point) {
    || (a.row == b.row && (a.col + 1 == b.col || b.col + 1 == a.col))
    || (a.col == b.col && (a.row + 1 == b.row || b.row + 1 == a.row))
  }

  /** The direction from `b` to an adjacent box `q`. */
  function Towards(b: Point, q: Point): (d: char)
    requires Adjacent(b, q)
    ensures d in Directions && Step(b, d) == q
  {
    if q.row + 1 == b.row then 'U'
    else if q.row == b.row + 1 then 'D'
    else if q.col + 1 == b.col then 'L'
    else 'R'
  }

  /** The flag holding the wall between adjacent boxes `a` and `b`. */
  function WallBetween(a: Point, b: Point): Wall
    requires Adjacent(a, b)
  {
    WallOf(a, Towards(a, b))
  }

  /** Both boxes name the same wall between them. */
  lemma WallBetweenSymmetric(a: Point, b: Point)
    requires Adjacent(a, b)
    ensures Adjacent(b, a) && WallBetween(a, b) == WallBetween(b, a)
  {
    WallShared(a, Towards(a, b));
  }

  /** `a` and `b` are adjacent boxes and the wall between them is cleared. */
  ghost predicate Open(g: Grid, a: Point, b: Point)
    requires Shaped(g)
  {
    Box(g, a) && Box(g, b) && Adjacent(a, b) && !FlagAt(g, WallBetween(a, b))
  }

  lemma OpenSymmetric(g: Grid, a: Point, b: Point)
    requires Shaped(g) && Open(g, a, b)
    ensures Open(g, b, a)
  {
    WallBetweenSymmetric(a, b);
  }

  /** A cleared wall stays cleared while walls are only taken away. */
  lemma OpenMonotone(g: Grid, g2: Grid, a: Point, b: Point)
    requires Descends(g, g2) && Open(g, a, b)
    ensures Open(g2, a, b)
  {
    var w := WallBetween(a, b);
    assert Lowered(g.matrix[w.row][w.col], g2.matrix[w.row][w.col]);
  }

  /** A walk from box to box, each step through a cleared wall. */
  ghost predicate OpenPath(g: Grid, path: seq<Point>)
    requires Shaped(g)
  {
    && 0 < |path|
    && Box(g, path[0])
    && forall i, j :: 0 <= i && j == i + 1 && j < |path| ==> Open(g, path[i], path[j])
  }

  /** `a` can reach `b` through cleared walls. */
  ghost predicate Linked(g: Grid, a: Point, b: Point)
    requires Shaped(g)
  {
    exists path :: OpenPath(g, path) && path[0] == a && path[|path| - 1] == b
  }

  lemma LinkedSelf(g: Grid, a: Point)
    requires Shaped(g) && Box(g, a)
    ensures Linked(g, a, a)
  {
    assert OpenPath(g, [a]);
  }

  /** One step through a cleared wall extends a route at its front. */
  lemma LinkedStep(g: Grid, a: Point, b: Point, c: Point)
    requires Shaped(g) && Open(g, a, b) && Linked(g, b, c)
    ensures Linked(g, a, c)
  {
    var path :| OpenPath(g, path) && path[0] == b && path[|path| - 1] == c;
    var path2 := [a] + path;
    forall i, j | 0 <= i && j == i + 1 && j < |path2|
      ensures Open(g, path2[i], path2[j])
    {
      if 0 < i {
        assert path2[i] == path[i - 1] && path2[j] == path[j - 1];
      }
    }
    assert OpenPath(g, path2);
  }

  /** Routes run both ways. */
  lemma LinkedSymmetric(g: Grid, a: Point, b: Point)
    requires Shaped(g) && Linked(g, a, b)
    ensures Linked(g, b, a)
  {
    var path :| OpenPath(g, path) && path[0] == a && path[|path| - 1] == b;
    var n := |path|;
    var back := seq(n, k requires 0 <= k < n => path[n - 1 - k]);
    forall i, j | 0 <= i && j == i + 1 && j < n
      ensures Open(g, back[i], back[j])
    {
      assert Open(g, path[n - 2 - i], path[n - 1 - i]);
      OpenSymmetric(g, path[n - 2 - i], path[n - 1 - i]);
    }
    if 1 < n {
      assert Open(g, path[n - 2], path[n - 1]);
    }
    assert OpenPath(g, back);
  }

  /** Two routes that meet join into one. */
  lemma {:induction false} LinkedTrans(g: Grid, a: Point, b: Point, c: Point)
    requires Shaped(g) && Linked(g, a, b) && Linked(g, b, c)
    ensures Linked(g, a, c)
  {
    var path :| OpenPath(g, path) && path[0] == a && path[|path| - 1] == b;
    var path2 :| OpenPath(g, path2) && path2[0] == b && path2[|path2| - 1] == c;
    var joined := path + path2[1..];
    forall i, j | 0 <= i && j == i + 1 && j < |joined|
      ensures Open(g, joined[i], joined[j])
    {
      if j < |path| {
        assert joined[i] == path[i] && joined[j] == path[j];
      } else if i == |path| - 1 {
        assert joined[i] == path2[0] && joined[j] == path2[1];
      } else {
        assert joined[i] == path2[i - |path| + 1] && joined[j] == path2[j - |path| + 1];
      }
    }
    assert OpenPath(g, joined);
  }

  /** The boxes of the grid: `(height - 1) × (width - 1)` of them. */
  ghost function Boxes(g: Grid): set<Point> {
    set r, c | 0 <= r < g.height - 1 && 0 <= c < g.width - 1 :: Point(r, c)
  }

  /** The cleared walls that lie between two boxes.  A top wall (`drawRight`
      of a point) lies between two boxes except on the first and last rows; a
      left wall (`drawDown`) except in the first and last columns. */
  ghost function OpenWalls(g: Grid): set<Wall>
    requires Shaped(g)
  {
    (set r, c | 1 <= r < g.height - 1 && 0 <= c < g.width - 1 && !g.matrix[r][c].drawRight :: Wall(r, c, DrawRight))
    + (set r, c | 0 <= r < g.height - 1 && 1 <= c < g.width - 1 && !g.matrix[r][c].drawDown :: Wall(r, c, DrawDown))
  }

  /** A wall is in `OpenWalls` exactly when it is cleared and lies between two
      adjacent boxes. */
  lemma OpenWallsAreOpen(g: Grid, a: Point, b: Point)
    requires Shaped(g) && Box(g, a) && Box(g, b) && Adjacent(a, b)
    ensures WallBetween(a, b) in OpenWalls(g) <==> Open(g, a, b)
  {
    var w := WallBetween(a, b);
    if !FlagAt(g, w) {
      if w.flag == DrawRight {
        assert w in (set r, c | 1 <= r < g.height - 1 && 0 <= c < g.width - 1 && !g.matrix[r][c].drawRight :: Wall(r, c, DrawRight));
      } else {
        assert w in (set r, c | 0 <= r < g.height - 1 && 1 <= c < g.width - 1 && !g.matrix[r][c].drawDown :: Wall(r, c, DrawDown));
      }
    }
  }

  /** The maze is a spanning tree of its boxes: all of them are linked through
      cleared walls, and there is one cleared wall fewer than there are boxes,
      so no cleared wall closes a cycle. */
  ghost predicate SpanningTree(g: Grid)
    requires Shaped(g)
  {
    && (forall a, b :: Box(g, a) && Box(g, b) ==> Linked(g, a, b))
    && |OpenWalls(g)| + 1 == |Boxes(g)|
  }

  lemma BoxesAreBoxes(g: Grid, b: Point)
    ensures b in Boxes(g) <==> Box(g, b)
  {
  }

  /** Boxes in the first `k` rows, `m` per row. */
  ghost function BoxesAbove(k: int, m: int): set<Point> {
    set r, c | 0 <= r < k && 0 <= c < m :: Point(r, c)
  }

  ghost function RowBoxes(r: int, m: int): set<Point> {
    set c | 0 <= c < m :: Point(r, c)
  }

  lemma {:induction false} RowBoxesCount(r: int, m: nat)
    ensures |RowBoxes(r, m)| == m
  {
    if m > 0 {
      RowBoxesCount(r, m - 1);
      assert RowBoxes(r, m) == RowBoxes(r, m - 1) + {Point(r, m - 1)};
      assert Point(r, m - 1) !in RowBoxes(r, m - 1);
    } else {
      assert RowBoxes(r, m) == {};
    }
  }

  lemma {:induction false} BoxesAboveCount(k: nat, m: nat)
    ensures |BoxesAbove(k, m)| == k * m
  {
    if k > 0 {
      BoxesAboveCount(k - 1, m);
      RowBoxesCount(k - 1, m);
      BoxesAboveSplit(k, m);
      assert (k - 1) * m + m == k * m;
    } else {
      assert BoxesAbove(k, m) == {};
    }
  }

  /** The first `k` rows are the first `k - 1` rows and, apart from them,
      row `k - 1`. */
  lemma BoxesAboveSplit(k: nat, m: nat)
    requires 0 < k
    ensures BoxesAbove(k, m) == BoxesAbove(k - 1, m) + RowBoxes(k - 1, m)
    ensures |BoxesAbove(k, m)| == |BoxesAbove(k - 1, m)| + |RowBoxes(k - 1, m)|
  {
    assert BoxesAbove(k, m) == BoxesAbove(k - 1, m) + RowBoxes(k - 1, m);
    assert BoxesAbove(k - 1, m) * RowBoxes(k - 1, m) == {};
  }

  /** A grid of at least one point each way has `(height - 1) × (width - 1)`
      boxes. */
  lemma BoxCount(g: Grid)
    requires 1 <= g.height && 1 <= g.width
    ensures |Boxes(g)| == (g.height - 1) * (g.width - 1)
  {
    assert Boxes(g) == BoxesAbove(g.height - 1, g.width - 1);
    BoxesAboveCount(g.height - 1, g.width - 1);
  }

  /** A spanning tree of a grid with at least one box has
      `(height - 1) × (width - 1) - 1` cleared walls between boxes. */
  lemma SpanningTreeWallCount(g: Grid)
    requires Shaped(g) && 2 <= g.height && 2 <= g.width && SpanningTree(g)
    ensures |OpenWalls(g)| == (g.height - 1) * (g.width - 1) - 1
  {
    BoxCount(g);
  }

  /** A wall flag that separates two boxes rather than bounding the maze. */
  predicate Interior(g: Grid, x: Wall) {
    if x.flag == DrawRight then 1 <= x.row < g.height - 1 && 0 <= x.col < g.width - 1
    else 0 <= x.row < g.height - 1 && 1 <= x.col < g.width - 1
  }

  lemma OpenWallsMember(g: Grid, x: Wall)
    requires Shaped(g)
    ensures x in OpenWalls(g) <==> Interior(g, x) && !FlagAt(g, x)
  {
    if Interior(g, x) && !FlagAt(g, x) {
      if x.flag == DrawRight {
        assert x == Wall(x.row, x.col, DrawRight);
      } else {
        assert x == Wall(x.row, x.col, DrawDown);
      }
    }
  }

  /** Lowering one flag changes the cleared walls at that flag only. */
  lemma RewriteKeepsOtherWalls(g: Grid, g2: Grid, w: Wall, x: Wall)
    requires Shaped(g) && Rewrites(g, g2, w, false) && x != w
    ensures x in OpenWalls(g2) <==> x in OpenWalls(g)
  {
    OpenWallsMember(g, x);
    OpenWallsMember(g2, x);
    if Interior(g, x) {
      if x.row == w.row && x.col == w.col {
        assert x.flag != w.flag;
      }
    }
  }

  /** Clearing the standing wall between a box and its neighbour box adds
      exactly that wall to the cleared walls between boxes. */
  lemma ClearOpensOne(g: Grid, g2: Grid, p: Point, d: char)
    requires Valid(g) && d in Directions && Box(g, p) && Box(g, Step(p, d))
    requires FlagAt(g, WallOf(p, d)) && Rewrites(g, g2, WallOf(p, d), false)
    ensures WallOf(p, d) !in OpenWalls(g)
    ensures OpenWalls(g2) == OpenWalls(g) + {WallOf(p, d)}
    ensures |OpenWalls(g2)| == |OpenWalls(g)| + 1
  {
    var w := WallOf(p, d);
    assert Interior(g, w);
    OpenWallsMember(g, w);
    OpenWallsMember(g2, w);
    forall x | x != w
      ensures x in OpenWalls(g2) <==> x in OpenWalls(g)
    {
      RewriteKeepsOtherWalls(g, g2, w, x);
    }
  }

  /** Every flag that does not separate two boxes — the outer frame of the
      maze and the forced flags beyond it — is as it was in `g0`. */
  ghost predicate FrameKept(g0: Grid, g: Grid)
  {
    && Shaped(g0) && Shaped(g) && g.width == g0.width && g.height == g0.height
    && forall x: Wall :: OnLattice(g0, x.row, x.col) && !Interior(g0, x) ==> FlagAt(g, x) == FlagAt(g0, x)
  }

  /** The wall between a box and a neighbouring box separates two boxes. */
  lemma WallOfIsInterior(g: Grid, p: Point, d: char)
    requires d in Directions && Box(g, p) && Box(g, Step(p, d))
    ensures Interior(g, WallOf(p, d))
  {
  }

  /** Clearing the wall between two boxes keeps the frame. */
  lemma ClearKeepsFrame(g0: Grid, g: Grid, g2: Grid, p: Point, d: char)
    requires FrameKept(g0, g) && d in Directions && Box(g, p) && Box(g, Step(p, d))
    requires Rewrites(g, g2, WallOf(p, d), false)
    ensures FrameKept(g0, g2)
  {
    var w := WallOf(p, d);
    WallOfIsInterior(g, p, d);
    forall x: Wall | OnLattice(g0, x.row, x.col) && !Interior(g0, x)
      ensures FlagAt(g2, x) == FlagAt(g, x)
    {
      assert x != w;
      if x.row == w.row && x.col == w.col {
        assert x.flag != w.flag;
      }
    }
  }

  /** On a grid the constructor built, a kept frame is a standing frame: the
      top and bottom walls of every box in the first and last rows of boxes,
      and the left and right walls of every box in the first and last
      columns, are all drawn. */
  lemma FreshFrameStands(g0: Grid, g: Grid)
    requires Fresh(g0) && FrameKept(g0, g)
    ensures forall c :: 0 <= c < g.width - 1 && 0 < g.height ==>
      FlagAt(g, Wall(0, c, DrawRight)) && FlagAt(g, Wall(g.height - 1, c, DrawRight))
    ensures forall r :: 0 <= r < g.height - 1 && 0 < g.width ==>
      FlagAt(g, Wall(r, 0, DrawDown)) && FlagAt(g, Wall(r, g.width - 1, DrawDown))
  {
    forall c | 0 <= c < g.width - 1 && 0 < g.height
      ensures FlagAt(g, Wall(0, c, DrawRight)) && FlagAt(g, Wall(g.height - 1, c, DrawRight))
    {
      assert !Interior(g0, Wall(0, c, DrawRight)) && !Interior(g0, Wall(g.height - 1, c, DrawRight));
      assert g0.matrix[0][c] == Initial(g0.width, g0.height, g0.scale, 0, c);
      assert g0.matrix[g.height - 1][c] == Initial(g0.width, g0.height, g0.scale, g.height - 1, c);
    }
    forall r | 0 <= r < g.height - 1 && 0 < g.width
      ensures FlagAt(g, Wall(r, 0, DrawDown)) && FlagAt(g, Wall(r, g.width - 1, DrawDown))
    {
      assert !Interior(g0, Wall(r, 0, DrawDown)) && !Interior(g0, Wall(r, g.width - 1, DrawDown));
      assert g0.matrix[r][0] == Initial(g0.width, g0.height, g0.scale, r, 0);
      assert g0.matrix[r][g.width - 1] == Initial(g0.width, g0.height, g0.scale, r, g.width - 1);
    }
  }
}
