/** `GrowingTree.generate`: the frontier loop that carves a maze out of a
    grid, and what it guarantees about the maze it leaves. */
module Generator {
  import opened Outcomes
  import opened GridMatrix
  import opened GrowingTree
  import opened Frontier
  import opened Passages

  /** Every box next to `b` is carved: `b` has no uncarved neighbour left. */
  ghost predicate Exhausted(g: Grid, b: Point)
    requires Shaped(g)
  {
    forall q :: Box(g, q) && Adjacent(b, q) ==> Carved(g, q)
  }

  /** The real boxes `is_carved` still reports as uncarved. */
  ghost function UncarvedBoxes(g: Grid): set<Point>
    requires Shaped(g)
  {
    set r, c | 0 <= r < g.height - 1 && 0 <= c < g.width - 1 && IsCarved(g, r, c) == Ok(false) :: Point(r, c)
  }

  /** No real box is carved, except possibly `start`. */
  ghost predicate CarvedOnlyAt(g: Grid, start: Point)
    requires Shaped(g)
  {
    forall b :: Box(g, b) && Carved(g, b) ==> b == start
  }

  ghost predicate AllBoxesCarved(g: Grid)
    requires Shaped(g)
  {
    forall b :: Box(g, b) ==> Carved(g, b)
  }

  /** The grid has at least two boxes, so every box has a neighbour. */
  predicate SeveralBoxes(g: Grid) {
    2 <= g.height && 2 <= g.width && (3 <= g.height || 3 <= g.width)
  }

  /** An empty neighbour list means every adjacent box is carved. */
  lemma EmptyListExhausted(g: Grid, b: Point)
    requires Valid(g) && Box(g, b)
    requires GetUncarvedNeighbors(g, b) == Ok([])
    ensures Exhausted(g, b)
  {
    NeighborsListedExactly(g, b);
    forall q | Box(g, q) && Adjacent(b, q)
      ensures Carved(g, q)
    {
      var d := Towards(b, q);
      BoxCarvedIff(g, q.row, q.col);
    }
  }

  lemma ExhaustedMonotone(g: Grid, g2: Grid, b: Point)
    requires Descends(g, g2) && Exhausted(g, b)
    ensures Exhausted(g2, b)
  {
    forall q | Box(g2, q) && Adjacent(b, q)
      ensures Carved(g2, q)
    {
      CarvedMonotone(g, g2, q.row, q.col);
    }
  }

  /** Carving a box that was uncarved strictly shrinks the set of uncarved
      boxes: the first component of the loop's termination measure. */
  lemma CarveShrinksUncarved(g: Grid, g2: Grid, n: Point)
    requires Descends(g, g2)
    requires Box(g, n) && Uncarved(g, n) && Carved(g2, n)
    ensures UncarvedBoxes(g2) < UncarvedBoxes(g)
  {
    forall b | b in UncarvedBoxes(g2)
      ensures b in UncarvedBoxes(g)
    {
      CarvedMonotone(g, g2, b.row, b.col);
    }
    assert n in UncarvedBoxes(g);
    assert n !in UncarvedBoxes(g2);
  }

  /** A set of boxes that holds `a` and, with every box, each adjacent box,
      holds every box in the same column as `a`. */
  lemma {:induction false} ClosedReachesColumn(g: Grid, vs: set<Point>, a: Point, row: int)
    requires Box(g, a) && a in vs && 0 <= row < g.height - 1
    requires forall b, q :: b in vs && Box(g, q) && Adjacent(b, q) ==> q in vs
    ensures Point(row, a.col) in vs
    decreases if row < a.row then a.row - row else row - a.row
  {
    if row != a.row {
      var next := Point(if row < a.row then a.row - 1 else a.row + 1, a.col);
      assert Adjacent(a, next) && Box(g, next);
      ClosedReachesColumn(g, vs, next, row);
    }
  }

  lemma {:induction false} ClosedReachesRow(g: Grid, vs: set<Point>, a: Point, col: int)
    requires Box(g, a) && a in vs && 0 <= col < g.width - 1
    requires forall b, q :: b in vs && Box(g, q) && Adjacent(b, q) ==> q in vs
    ensures Point(a.row, col) in vs
    decreases if col < a.col then a.col - col else col - a.col
  {
    if col != a.col {
      var next := Point(a.row, if col < a.col then a.col - 1 else a.col + 1);
      assert Adjacent(a, next) && Box(g, next);
      ClosedReachesRow(g, vs, next, col);
    }
  }

  /** The boxes form one connected block: a set closed under adjacency that
      holds one box holds them all. */
  lemma ClosedCoversAllBoxes(g: Grid, vs: set<Point>, a: Point)
    requires Box(g, a) && a in vs
    requires forall b, q :: b in vs && Box(g, q) && Adjacent(b, q) ==> q in vs
    ensures forall q :: Box(g, q) ==> q in vs
  {
    forall q | Box(g, q)
      ensures q in vs
    {
      ClosedReachesColumn(g, vs, a, q.row);
      ClosedReachesRow(g, vs, Point(q.row, a.col), q.col);
    }
  }

  /** When every visited box is exhausted and every carved box was visited,
      the visited boxes are all the boxes, and with two or more boxes every
      one of them is carved. */
  lemma VisitedCoversAll(g: Grid, vs: set<Point>, start: Point)
    requires Valid(g) && Box(g, start) && start in vs
    requires forall b :: b in vs ==> Box(g, b) && Exhausted(g, b)
    requires forall b :: Box(g, b) && Carved(g, b) ==> b in vs
    ensures forall b :: Box(g, b) ==> b in vs
    ensures SeveralBoxes(g) ==> AllBoxesCarved(g)
  {
    ClosedCoversAllBoxes(g, vs, start);
    if SeveralBoxes(g) {
      forall b | Box(g, b)
        ensures Carved(g, b)
      {
        var q :=
          if 3 <= g.height then Point(if b.row == 0 then 1 else b.row - 1, b.col)
          else Point(b.row, if b.col == 0 then 1 else b.col - 1);
        assert Box(g, q) && Adjacent(q, b);
        assert Exhausted(g, q);
      }
    }
  }

  /** What holds between turns of the frontier loop started at `start` on
      `g0`: the grid has only lost walls; the frontier holds visited points
      of the grid; a visited box that has left the frontier is exhausted;
      and, when `start` was the only box that could be carved at the outset,
      every carved box has been visited. */
  ghost predicate LoopInvariant(g0: Grid, start: Point, g: Grid, frontier: seq<Point>, visited: set<Point>)
  {
    && Valid(g0) && Valid(g) && Descends(g0, g)
    && start in visited
    && (forall i :: 0 <= i < |frontier| ==> OnGrid(g, frontier[i]) && frontier[i] in visited)
    && (Box(g0, start) ==> forall b :: b in visited ==> Box(g, b))
    && (forall b :: b in visited && b !in frontier ==> Exhausted(g, b))
    && (CarvedOnlyAt(g0, start) ==> forall b :: Box(g, b) && Carved(g, b) ==> b in visited)
  }

  /** A turn that finds no uncarved neighbour removes one occurrence of the
      chosen point and keeps the invariant. */
  lemma RemoveTurn(g0: Grid, start: Point, g: Grid, frontier: seq<Point>, visited: set<Point>, point: Point)
    requires LoopInvariant(g0, start, g, frontier, visited)
    requires point in frontier && Box(g, point)
    requires GetUncarvedNeighbors(g, point) == Ok([])
    ensures Remove(frontier, point).Ok?
    ensures LoopInvariant(g0, start, g, Remove(frontier, point).value, visited)
  {
    var rest := Remove(frontier, point).value;
    assert forall i :: 0 <= i < |rest| ==> OnGrid(g, rest[i]) && rest[i] in visited by {
      forall i | 0 <= i < |rest|
        ensures rest[i] in frontier
      {
        RemoveKeepsOthers(frontier, point, rest[i]);
      }
    }
    assert forall b :: b in visited && b !in rest ==> Exhausted(g, b) by {
      EmptyListExhausted(g, point);
      forall b | b in visited && b !in rest
        ensures b == point || b !in frontier
      {
        RemoveKeepsOthers(frontier, point, b);
      }
    }
  }

  /** The i-th entry of a neighbour list names a direction and the uncarved
      box that lies that way. */
  lemma ListedNeighbor(g: Grid, point: Point, i: nat)
    requires Valid(g) && OnGrid(g, point)
    requires GetUncarvedNeighbors(g, point).Ok? && i < |GetUncarvedNeighbors(g, point).value|
    ensures var (d, n) := GetUncarvedNeighbors(g, point).value[i];
      d in Directions && n == Step(point, d) && Box(g, n) && Uncarved(g, n)
  {
    NeighborsListedExactly(g, point);
    NeighborsAreBoxes(g, point);
  }

  /** A turn that carves from `point` towards the uncarved box `n` keeps the
      invariant once `n` is appended to the frontier and marked visited, and
      strictly shrinks the set of uncarved boxes. */
  lemma CarveTurn(g0: Grid, start: Point, g: Grid, frontier: seq<Point>, visited: set<Point>, point: Point, d: char, n: Point)
    requires LoopInvariant(g0, start, g, frontier, visited)
    requires point in frontier && d in Directions && n == Step(point, d)
    requires Box(g, n) && Uncarved(g, n)
    ensures Carve(g, point, d).Ok?
    ensures LoopInvariant(g0, start, Carve(g, point, d).value, frontier + [n], visited + {n})
    ensures UncarvedBoxes(Carve(g, point, d).value) < UncarvedBoxes(g)
  {
    var frontier2 := frontier + [n];
    var visited2 := visited + {n};
    CarveTowards(g, point, d);
    var g2 := Carve(g, point, d).value;
    assert Valid(g2) && Descends(g0, g2) by {
      DescendsTrans(g0, g, g2);
    }
    assert forall j :: 0 <= j < |frontier2| ==> OnGrid(g2, frontier2[j]) && frontier2[j] in visited2 by {
      forall j | 0 <= j < |frontier2|
        ensures OnGrid(g2, frontier2[j]) && frontier2[j] in visited2
      {
        if j < |frontier| {
          assert frontier2[j] == frontier[j];
        }
      }
    }
    assert Box(g0, start) ==> forall b :: b in visited2 ==> Box(g2, b);
    assert forall b :: b in visited2 && b !in frontier2 ==> Exhausted(g2, b) by {
      forall b | b in visited2 && b !in frontier2
        ensures Exhausted(g2, b)
      {
        assert b in visited && b !in frontier;
        ExhaustedMonotone(g, g2, b);
      }
    }
    assert CarvedOnlyAt(g0, start) ==> forall b :: Box(g2, b) && Carved(g2, b) ==> b in visited2 by {
      if CarvedOnlyAt(g0, start) {
        forall b | Box(g2, b) && Carved(g2, b)
          ensures b in visited2
        {
          if b != point && b != n {
            CarveTouchesOnlyTwoBoxes(g, point, d, b);
          }
        }
      }
    }
    assert UncarvedBoxes(g2) < UncarvedBoxes(g) by {
      CarveShrinksUncarved(g, g2, n);
    }
  }

  /** Every visited box is carved, except possibly `start`. */
  ghost predicate VisitedCarved(g: Grid, start: Point, visited: set<Point>)
    requires Shaped(g)
  {
    forall b :: b in visited ==> b == start || Carved(g, b)
  }

  /** Before the first carve the frontier holds only `start`. */
  ghost predicate StartAlone(g: Grid, start: Point, frontier: seq<Point>)
    requires Shaped(g)
  {
    !Carved(g, start) ==> forall i :: 0 <= i < |frontier| ==> frontier[i] == start
  }

  /** Every visited box other than `start` hangs from a visited parent
      through a cleared wall, at a smaller depth. */
  ghost predicate ParentLinks(g: Grid, start: Point, visited: set<Point>, parent: map<Point, Point>, depth: map<Point, nat>)
    requires Shaped(g)
  {
    && (forall b :: b in visited ==> b in depth)
    && (forall b :: b in visited && b != start ==>
          && b in parent && parent[b] in visited && parent[b] in depth
          && Open(g, b, parent[b]) && depth[parent[b]] < depth[b])
  }

  /** The maze carved so far is a tree rooted at `start`: the parent links
      hold, every visited box is carved except `start` before the first
      carve, and each carve has added one visited box and one cleared wall
      between boxes. */
  ghost predicate TreeInvariant(g0: Grid, start: Point, g: Grid, frontier: seq<Point>, visited: set<Point>,
                                parent: map<Point, Point>, depth: map<Point, nat>)
  {
    && Shaped(g0) && Shaped(g)
    && VisitedCarved(g, start, visited)
    && StartAlone(g, start, frontier)
    && |OpenWalls(g)| + 1 == |visited| + |OpenWalls(g0)|
    && ParentLinks(g, start, visited, parent, depth)
  }

  lemma RemoveKeepsTree(g0: Grid, start: Point, g: Grid, frontier: seq<Point>, visited: set<Point>,
                        parent: map<Point, Point>, depth: map<Point, nat>, point: Point)
    requires TreeInvariant(g0, start, g, frontier, visited, parent, depth)
    requires point in frontier
    ensures Remove(frontier, point).Ok?
    ensures TreeInvariant(g0, start, g, Remove(frontier, point).value, visited, parent, depth)
  {
    var rest := Remove(frontier, point).value;
    if !Carved(g, start) {
      forall i | 0 <= i < |rest|
        ensures rest[i] == start
      {
        RemoveKeepsOthers(frontier, point, rest[i]);
        var k :| 0 <= k < |frontier| && frontier[k] == rest[i];
      }
    }
  }

  /** The box a carve reaches is new: it is uncarved, so it could only have
      been visited as `start` before the first carve, and then it would be
      the point carved from. */
  lemma CarveReachesNewBox(g: Grid, start: Point, visited: set<Point>, point: Point, d: char, n: Point)
    requires Shaped(g) && VisitedCarved(g, start, visited)
    requires !Carved(g, start) ==> point == start
    requires d in Directions && n == Step(point, d) && Uncarved(g, n)
    ensures n !in visited && |visited + {n}| == |visited| + 1
  {
    assert n != point;
  }

  /** After a carve, `start` is carved: either it was already, or it is the
      point carved from. */
  lemma CarveLeavesCarved(g: Grid, g2: Grid, start: Point, visited: set<Point>, point: Point, n: Point)
    requires Descends(g, g2) && VisitedCarved(g, start, visited)
    requires !Carved(g, start) ==> point == start
    requires Carved(g2, point) && Carved(g2, n)
    ensures VisitedCarved(g2, start, visited + {n}) && Carved(g2, start)
  {
    forall b | b in visited && b != start
      ensures Carved(g2, b)
    {
      CarvedMonotone(g, g2, b.row, b.col);
    }
    CarvedMonotone(g, g2, start.row, start.col);
  }

  /** A carving turn grows the tree by the new box, hung from the point it was
      carved from through the wall just cleared. */
  lemma CarveGrowsTree(g0: Grid, start: Point, g: Grid, frontier: seq<Point>, visited: set<Point>,
                       parent: map<Point, Point>, depth: map<Point, nat>, point: Point, d: char, n: Point, g2: Grid)
    requires Valid(g) && Box(g, point) && d in Directions && n == Step(point, d) && Box(g, n)
    requires FlagAt(g, WallOf(point, d)) && Rewrites(g, g2, WallOf(point, d), false) && Descends(g, g2)
    requires Uncarved(g, n) && Carved(g2, point) && Carved(g2, n)
    requires TreeInvariant(g0, start, g, frontier, visited, parent, depth) && point in frontier && point in visited
    ensures TreeInvariant(g0, start, g2, frontier + [n], visited + {n}, parent[n := point], depth[n := depth[point] + 1])
  {
    assert !Carved(g, start) ==> point == start by {
      if !Carved(g, start) {
        var k :| 0 <= k < |frontier| && frontier[k] == point;
      }
    }
    CarveReachesNewBox(g, start, visited, point, d, n);
    CarveLeavesCarved(g, g2, start, visited, point, n);
    ClearOpensOne(g, g2, point, d);
    CarveHangsNewBox(start, g, g2, visited, parent, depth, point, d, n);
  }

  /** The parent links after a carve: the new box hangs from `point` through
      the cleared wall, and every older link stays open. */
  lemma CarveHangsNewBox(start: Point, g: Grid, g2: Grid, visited: set<Point>,
                         parent: map<Point, Point>, depth: map<Point, nat>, point: Point, d: char, n: Point)
    requires Valid(g) && d in Directions && n == Step(point, d) && Box(g, point) && Box(g, n)
    requires FlagAt(g, WallOf(point, d)) && Rewrites(g, g2, WallOf(point, d), false) && Descends(g, g2)
    requires point in visited && n !in visited && n != start
    requires ParentLinks(g, start, visited, parent, depth)
    ensures ParentLinks(g2, start, visited + {n}, parent[n := point], depth[n := depth[point] + 1])
  {
    var parent2 := parent[n := point];
    var depth2 := depth[n := depth[point] + 1];
    assert Open(g2, n, point) by {
      assert Adjacent(point, n) && Towards(point, n) == d;
      OpenWallsAreOpen(g2, point, n);
      OpenWallsMember(g2, WallOf(point, d));
      OpenSymmetric(g2, point, n);
    }
    forall b | b in visited && b != start
      ensures Open(g2, b, parent[b])
    {
      OpenMonotone(g, g2, b, parent[b]);
    }
  }

  /** Following parents from a visited box leads to `start` through cleared
      walls. */
  lemma {:induction false} ParentsReachStart(start: Point, g: Grid, visited: set<Point>,
                                             parent: map<Point, Point>, depth: map<Point, nat>, b: Point)
    requires Shaped(g) && ParentLinks(g, start, visited, parent, depth)
    requires Box(g, start) && b in visited
    ensures Linked(g, b, start)
    decreases depth[b]
  {
    if b == start {
      LinkedSelf(g, start);
    } else {
      ParentsReachStart(start, g, visited, parent, depth, parent[b]);
      LinkedStep(g, b, parent[b], start);
    }
  }

  /** When the frontier has emptied, every visited box is an exhausted box
      linked to `start`, and, when `start` was the only box that could be
      carved at the outset, the visited boxes are all the boxes. */
  lemma FrontierEmptied(g0: Grid, start: Point, g: Grid, visited: set<Point>,
                        parent: map<Point, Point>, depth: map<Point, nat>)
    requires LoopInvariant(g0, start, g, [], visited) && TreeInvariant(g0, start, g, [], visited, parent, depth)
    requires Box(g0, start)
    ensures forall b :: b in visited ==> Box(g0, b) && Exhausted(g, b)
    ensures CarvedOnlyAt(g0, start) ==> forall b :: Box(g0, b) ==> b in visited
    ensures CarvedOnlyAt(g0, start) && SeveralBoxes(g0) ==> AllBoxesCarved(g)
    ensures forall b :: b in visited ==> Linked(g, b, start)
  {
    if CarvedOnlyAt(g0, start) {
      VisitedCoversAll(g, visited, start);
    }
    forall b | b in visited
      ensures Linked(g, b, start)
    {
      ParentsReachStart(start, g, visited, parent, depth, b);
    }
  }

  /** The frontier loop of `generate`, from the start point `start`.

      Each turn picks a frontier entry; if it has no uncarved neighbour one
      occurrence of it is removed, otherwise the wall to a randomly chosen
      uncarved neighbour is carved and the neighbour appended.  The loop
      ends because each turn either shrinks the set of uncarved boxes or,
      leaving the grid alone, shortens the frontier.  `k` counts the draws
      used; `visited` (proof only) holds every box ever put on the frontier. */
  method Grow(g0: Grid, start: Point, draws: nat -> nat, k0: nat) returns (res: Result<Grid>, k: nat, ghost visited: set<Point>)
    requires Valid(g0) && OnGrid(g0, start)
    ensures res.Ok? <==> Box(g0, start)
    ensures res.Err? ==> res.error == IndexError
    ensures res.Ok? ==> Valid(res.value) && Descends(g0, res.value)
    ensures res.Ok? ==> start in visited && forall b :: b in visited ==> Box(g0, b) && Exhausted(res.value, b)
    ensures res.Ok? && CarvedOnlyAt(g0, start) ==> forall b :: Box(g0, b) ==> b in visited
    ensures res.Ok? && CarvedOnlyAt(g0, start) && SeveralBoxes(g0) ==> AllBoxesCarved(res.value)
    ensures res.Ok? ==> |OpenWalls(res.value)| + 1 == |visited| + |OpenWalls(g0)|
    ensures res.Ok? ==> forall b :: b in visited ==> Linked(res.value, b, start)
    ensures res.Ok? ==> FrameKept(g0, res.value)
    ensures k0 <= k
  {
    var g := g0;
    var frontier := [start];
    k := k0;
    visited := {start};
    ghost var parent: map<Point, Point> := map[];
    ghost var depth: map<Point, nat> := map[start := 0];
    DescendsRefl(g0);
    while frontier != []
      invariant LoopInvariant(g0, start, g, frontier, visited)
      invariant TreeInvariant(g0, start, g, frontier, visited, parent, depth)
      invariant FrameKept(g0, g) && k0 <= k
      invariant !Box(g0, start) ==> g == g0 && frontier == [start]
      decreases UncarvedBoxes(g), |frontier|
    {
      var point := Choice(frontier, draws(k)).value;
      k := k + 1;
      NeighborQueryRaisesOffBox(g, point);
      var neighbors := GetUncarvedNeighbors(g, point);
      if neighbors.Err? {
        res := Err(neighbors.error);
        return;
      }
      if |neighbors.value| == 0 {
        RemoveTurn(g0, start, g, frontier, visited, point);
        RemoveKeepsTree(g0, start, g, frontier, visited, parent, depth, point);
        frontier := Remove(frontier, point).value;
        continue;
      }
      var (direction, next) := Choice(neighbors.value, draws(k)).value;
      ListedNeighbor(g, point, draws(k) % |neighbors.value|);
      k := k + 1;
      CarveTurn(g0, start, g, frontier, visited, point, direction, next);
      CarveTowards(g, point, direction);
      var carved := Carve(g, point, direction).value;
      CarveGrowsTree(g0, start, g, frontier, visited, parent, depth, point, direction, next, carved);
      ClearKeepsFrame(g0, g, carved, point, direction);
      g := carved;
      frontier := frontier + [next];
      visited := visited + {next};
      depth := depth[next := depth[point] + 1];
      parent := parent[next := point];
    }
    res := Ok(g);
    FrontierEmptied(g0, start, g, visited, parent, depth);
  }

  /** No real box is carved: the state the constructor leaves. */
  ghost predicate NoBoxCarved(g: Grid)
    requires Shaped(g)
  {
    forall b :: Box(g, b) ==> Uncarved(g, b)
  }

  /** The constructor's grid is one `generate` can start from: no box is
      carved yet, so a run that finishes visits every box and, when there
      are two or more, carves every one. */
  lemma FreshHasNoCarvedBox(g: Grid)
    requires Fresh(g)
    ensures NoBoxCarved(g)
  {
    forall b | Box(g, b)
      ensures Uncarved(g, b)
    {
      FreshBoxesUncarved(g, b.row, b.col);
    }
  }

  /** With no box carved, no wall between two boxes has been cleared. */
  lemma NoBoxCarvedNoOpenWall(g: Grid)
    requires Valid(g) && NoBoxCarved(g)
    ensures OpenWalls(g) == {}
  {
    forall x | Interior(g, x)
      ensures FlagAt(g, x)
    {
      assert Uncarved(g, Point(x.row, x.col));
      BoxCarvedIff(g, x.row, x.col);
      if x.flag == DrawRight {
        assert x == TopWall(x.row, x.col);
      } else {
        assert x == LeftWall(x.row, x.col);
      }
    }
    forall x
      ensures x !in OpenWalls(g)
    {
      OpenWallsMember(g, x);
    }
  }

  /** A run from an uncarved grid that visited every box, linked each to
      `start`, and cleared one wall per box after the first, leaves a
      spanning tree: every two boxes are joined, and there is one cleared
      wall fewer than there are boxes. */
  lemma GrownIsSpanningTree(g0: Grid, g: Grid, start: Point, visited: set<Point>)
    requires Valid(g0) && NoBoxCarved(g0) && Descends(g0, g)
    requires forall b :: b in visited <==> Box(g0, b)
    requires |OpenWalls(g)| + 1 == |visited| + |OpenWalls(g0)|
    requires forall b :: b in visited ==> Linked(g, b, start)
    ensures SpanningTree(g)
  {
    NoBoxCarvedNoOpenWall(g0);
    forall b
      ensures b in visited <==> b in Boxes(g)
    {
      BoxesAreBoxes(g, b);
    }
    assert visited == Boxes(g);
    forall a, b | Box(g, a) && Box(g, b)
      ensures Linked(g, a, b)
    {
      assert a in visited && b in visited;
      LinkedSymmetric(g, b, start);
      LinkedTrans(g, a, start, b);
    }
  }

  /** `generate()` as written: the start column is drawn from
      `randrange(0, width)` and the start row from `randrange(0, height)`,
      so the start may be a point of the last row or column, which names no
      box; the loop then raises IndexError on its first neighbour query. */
  method Generate(g: Grid, draws: nat -> nat) returns (res: Result<Grid>)
    requires Valid(g)
    ensures g.width <= 0 || g.height <= 0 ==> res == Err(ValueError)
    ensures 0 < g.width && 0 < g.height ==>
      (res.Ok? <==> draws(0) % g.width < g.width - 1 && draws(1) % g.height < g.height - 1)
    ensures 0 < g.width && 0 < g.height && res.Err? ==> res.error == IndexError
    ensures res.Ok? ==> Valid(res.value) && Descends(g, res.value)
    ensures res.Ok? && NoBoxCarved(g) && SeveralBoxes(g) ==> AllBoxesCarved(res.value)
    ensures res.Ok? && NoBoxCarved(g) ==> SpanningTree(res.value)
    ensures res.Ok? ==> FrameKept(g, res.value)
  {
    var startCol :- RandRange(g.width, draws(0));
    var startRow :- RandRange(g.height, draws(1));
    var grown, drawsUsed, visited := Grow(g, Point(startRow, startCol), draws, 2);
    res := grown;
    if res.Ok? && NoBoxCarved(g) {
      GrownIsSpanningTree(g, res.value, Point(startRow, startCol), visited);
    }
  }

  /** A start in the last column, as `randrange(0, width)` can draw, makes
      the first neighbour query subscript column `width` and raise. */
  lemma LastColumnStartRaises(g: Grid, row: int)
    requires Valid(g) && 0 <= row < g.height && 0 < g.width
    ensures GetUncarvedNeighbors(g, Point(row, g.width - 1)) == Err(IndexError)
  {
    NeighborQueryRaisesOffBox(g, Point(row, g.width - 1));
  }

  /** A start in the last row, as `randrange(0, height)` can draw, makes
      the first neighbour query subscript row `height` (or, in the last
      column too, column `width`) and raise. */
  lemma LastRowStartRaises(g: Grid, col: int)
    requires Valid(g) && 0 <= col < g.width && 0 < g.height
    ensures GetUncarvedNeighbors(g, Point(g.height - 1, col)) == Err(IndexError)
  {
    NeighborQueryRaisesOffBox(g, Point(g.height - 1, col));
  }

  /** `generate()` with the start drawn from the boxes, as evidently
      intended: `randrange(0, width - 1)` and `randrange(0, height - 1)`.
      On any grid with at least one box it never raises, and on a fresh grid
      with two or more boxes it carves every box. */
  method GenerateFromBox(g: Grid, draws: nat -> nat) returns (res: Result<Grid>)
    requires Valid(g)
    ensures res.Ok? <==> 2 <= g.width && 2 <= g.height
    ensures res.Err? ==> res.error == ValueError
    ensures res.Ok? ==> Valid(res.value) && Descends(g, res.value)
    ensures res.Ok? && NoBoxCarved(g) && SeveralBoxes(g) ==> AllBoxesCarved(res.value)
    ensures res.Ok? && NoBoxCarved(g) ==> SpanningTree(res.value)
    ensures res.Ok? ==> FrameKept(g, res.value)
  {
    var startCol :- RandRange(g.width - 1, draws(0));
    var startRow :- RandRange(g.height - 1, draws(1));
    var grown, drawsUsed, visited := Grow(g, Point(startRow, startCol), draws, 2);
    res := grown;
    if res.Ok? && NoBoxCarved(g) {
      GrownIsSpanningTree(g, res.value, Point(startRow, startCol), visited);
    }
  }
}

