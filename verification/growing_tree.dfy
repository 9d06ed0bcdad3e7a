/** The two grid operations of the growing-tree generator: listing a box's
    uncarved neighbours, and carving the wall between a box and a neighbour. */
module GrowingTree {
  import opened Outcomes
  import opened GridMatrix

  /** The `Point(row, col)` namedtuple: a box named by its top-left lattice point. */
  datatype Point = Point(row: int, col: int)

  /** The direction tokens `carve` accepts, in the order neighbours are listed. */
  const Directions: seq<char> := ['U', 'D', 'L', 'R']

  /** The position of a direction in `Directions`. */
  function Rank(d: char): nat {
    if d == 'U' then 0 else if d == 'D' then 1 else if d == 'L' then 2 else 3
  }

  /** The box one step from `p` in direction `d`. */
  function Step(p: Point, d: char): Point
    requires d in Directions
  {
    if d == 'U' then Point(p.row - 1, p.col)
    else if d == 'D' then Point(p.row + 1, p.col)
    else if d == 'L' then Point(p.row, p.col - 1)
    else Point(p.row, p.col + 1)
  }

  function Opposite(d: char): (e: char)
    requires d in Directions
    ensures e in Directions
  {
    if d == 'U' then 'D' else if d == 'D' then 'U' else if d == 'L' then 'R' else 'L'
  }

  /** The wall on side `d` of the box at `p`, as `is_carved` reads it. */
  function WallOf(p: Point, d: char): Wall
    requires d in Directions
  {
    if d == 'U' then TopWall(p.row, p.col)
    else if d == 'D' then BottomWall(p.row, p.col)
    else if d == 'L' then LeftWall(p.row, p.col)
    else RightWall(p.row, p.col)
  }

  predicate Box(g: Grid, p: Point) {
    IsBox(g, p.row, p.col)
  }

  predicate OnGrid(g: Grid, p: Point) {
    OnLattice(g, p.row, p.col)
  }

  /** `is_carved` answered "no" without raising. */
  predicate Uncarved(g: Grid, p: Point)
    requires Shaped(g)
  {
    IsCarved(g, p.row, p.col) == Ok(false)
  }

  predicate Carved(g: Grid, p: Point)
    requires Shaped(g)
  {
    IsCarved(g, p.row, p.col) == Ok(true)
  }

  /** Stepping to a neighbour and back, the two boxes name the same wall:
      the wall `carve` clears lies between them. */
  lemma WallShared(p: Point, d: char)
    requires d in Directions
    ensures Step(Step(p, d), Opposite(d)) == p
    ensures WallOf(p, d) == WallOf(Step(p, d), Opposite(d))
  {
  }

  /** `is_carved` about box `q` answers rather than raising. */
  predicate Answers(g: Grid, q: Point)
    requires Shaped(g)
  {
    IsCarved(g, q.row, q.col).Ok?
  }

  /** None of the four `is_carved` queries about the neighbours of `p` raises. */
  predicate AllQueriesAnswer(g: Grid, p: Point)
    requires Shaped(g)
  {
    && Answers(g, Point(p.row - 1, p.col))
    && Answers(g, Point(p.row + 1, p.col))
    && Answers(g, Point(p.row, p.col - 1))
    && Answers(g, Point(p.row, p.col + 1))
  }

  /** The neighbour entry for direction `d`, listed only when the box there
      is not carved. */
  function Listed(p: Point, d: char, carved: bool): seq<(char, Point)>
    requires d in Directions
  {
    if carved then [] else [(d, Step(p, d))]
  }

  /** The loop of `get_uncarved_neighbors` over the directions `ds`, in order. */
  function Collect(g: Grid, p: Point, ds: seq<char>): (r: Result<seq<(char, Point)>>)
    requires Shaped(g)
    requires forall i :: 0 <= i < |ds| ==> ds[i] in Directions
    ensures r.Err? ==> r.error == IndexError
    decreases |ds|
  {
    if ds == [] then Ok([])
    else
      var carved :- IsCarved(g, Step(p, ds[0]).row, Step(p, ds[0]).col);
      var rest :- Collect(g, p, ds[1..]);
      Ok(Listed(p, ds[0], carved) + rest)
  }

  /** `get_uncarved_neighbors(point)`: queries `is_carved` for the boxes
      above, below, left and right of `p`, in that order, and lists those
      that are not carved; the first query that raises ends the call. */
  function GetUncarvedNeighbors(g: Grid, p: Point): (r: Result<seq<(char, Point)>>)
    requires Shaped(g)
    ensures r.Ok? <==> AllQueriesAnswer(g, p)
    ensures r.Err? ==> r.error == IndexError
  {
    CollectAnswers(g, p, Directions);
    FourQueries(g, p);
    Collect(g, p, Directions)
  }

  /** The four queries of `AllQueriesAnswer` are those of the scan over
      `Directions`. */
  lemma FourQueries(g: Grid, p: Point)
    requires Shaped(g)
    ensures AllQueriesAnswer(g, p) <==> forall i :: 0 <= i < |Directions| ==> Answers(g, Step(p, Directions[i]))
  {
    assert Step(p, Directions[0]) == Point(p.row - 1, p.col);
    assert Step(p, Directions[1]) == Point(p.row + 1, p.col);
    assert Step(p, Directions[2]) == Point(p.row, p.col - 1);
    assert Step(p, Directions[3]) == Point(p.row, p.col + 1);
  }

  /** The scan over `ds` completes exactly when every query in it answers. */
  lemma {:induction false} CollectAnswers(g: Grid, p: Point, ds: seq<char>)
    requires Shaped(g)
    requires forall i :: 0 <= i < |ds| ==> ds[i] in Directions
    ensures Collect(g, p, ds).Ok? <==> forall i :: 0 <= i < |ds| ==> Answers(g, Step(p, ds[i]))
    decreases |ds|
  {
    if ds != [] {
      CollectAnswers(g, p, ds[1..]);
      assert forall i :: 1 <= i < |ds| ==> ds[i] == ds[1..][i - 1];
    }
  }

  /** The entries of a neighbour list: each names a direction and the box one
      step that way, which is not carved. */
  ghost predicate SoundList(g: Grid, p: Point, ns: seq<(char, Point)>)
    requires Shaped(g)
  {
    forall i :: 0 <= i < |ns| ==>
      && ns[i].0 in Directions
      && ns[i].1 == Step(p, ns[i].0)
      && Uncarved(g, ns[i].1)
  }

  /** Directions appear in the order U, D, L, R, each at most once. */
  ghost predicate RankSorted(ns: seq<(char, Point)>) {
    forall i, j :: 0 <= i < j < |ns| ==> Rank(ns[i].0) < Rank(ns[j].0)
  }

  lemma {:induction false} CollectSound(g: Grid, p: Point, ds: seq<char>)
    requires Shaped(g) && forall i :: 0 <= i < |ds| ==> ds[i] in Directions
    requires Collect(g, p, ds).Ok?
    ensures SoundList(g, p, Collect(g, p, ds).value)
    decreases |ds|
  {
    if ds != [] {
      CollectSound(g, p, ds[1..]);
      var ns := Collect(g, p, ds).value;
      var rest := Collect(g, p, ds[1..]).value;
      var head := Listed(p, ds[0], IsCarved(g, Step(p, ds[0]).row, Step(p, ds[0]).col).value);
      assert ns == head + rest;
      assert SoundList(g, p, head);
      SoundListAppend(g, p, head, rest);
    }
  }

  lemma SoundListAppend(g: Grid, p: Point, a: seq<(char, Point)>, b: seq<(char, Point)>)
    requires Shaped(g) && SoundList(g, p, a) && SoundList(g, p, b)
    ensures SoundList(g, p, a + b)
  {
    forall i | 0 <= i < |a + b|
      ensures (a + b)[i].0 in Directions && (a + b)[i].1 == Step(p, (a + b)[i].0) && Uncarved(g, (a + b)[i].1)
    {
      if i >= |a| {
        assert (a + b)[i] == b[i - |a|];
      }
    }
  }

  lemma {:induction false} CollectComplete(g: Grid, p: Point, ds: seq<char>, d: char)
    requires Shaped(g) && forall i :: 0 <= i < |ds| ==> ds[i] in Directions
    requires Collect(g, p, ds).Ok?
    requires d in ds && Uncarved(g, Step(p, d))
    ensures (d, Step(p, d)) in Collect(g, p, ds).value
    decreases |ds|
  {
    var rest := Collect(g, p, ds[1..]).value;
    var head := Listed(p, ds[0], IsCarved(g, Step(p, ds[0]).row, Step(p, ds[0]).col).value);
    assert Collect(g, p, ds).value == head + rest;
    if d != ds[0] {
      CollectComplete(g, p, ds[1..], d);
    }
  }

  /** Directions listed in strictly increasing rank. */
  ghost predicate Increasing(ds: seq<char>) {
    forall i, j :: 0 <= i < j < |ds| ==> Rank(ds[i]) < Rank(ds[j])
  }

  lemma {:induction false} CollectRanksFrom(g: Grid, p: Point, ds: seq<char>, lo: nat)
    requires Shaped(g) && forall i :: 0 <= i < |ds| ==> ds[i] in Directions
    requires Collect(g, p, ds).Ok?
    requires forall i :: 0 <= i < |ds| ==> lo <= Rank(ds[i])
    ensures forall i :: 0 <= i < |Collect(g, p, ds).value| ==> lo <= Rank(Collect(g, p, ds).value[i].0)
    decreases |ds|
  {
    if ds != [] {
      CollectRanksFrom(g, p, ds[1..], lo);
      var rest := Collect(g, p, ds[1..]).value;
      var head := Listed(p, ds[0], IsCarved(g, Step(p, ds[0]).row, Step(p, ds[0]).col).value);
      var ns := Collect(g, p, ds).value;
      assert ns == head + rest;
      forall i | 0 <= i < |ns|
        ensures lo <= Rank(ns[i].0)
      {
        if i >= |head| {
          assert ns[i] == rest[i - |head|];
        }
      }
    }
  }

  lemma {:induction false} CollectSorted(g: Grid, p: Point, ds: seq<char>)
    requires Shaped(g) && forall i :: 0 <= i < |ds| ==> ds[i] in Directions
    requires Collect(g, p, ds).Ok? && Increasing(ds)
    ensures RankSorted(Collect(g, p, ds).value)
    decreases |ds|
  {
    if ds != [] {
      CollectSorted(g, p, ds[1..]);
      CollectRanksFrom(g, p, ds[1..], Rank(ds[0]) + 1);
      var rest := Collect(g, p, ds[1..]).value;
      var head := Listed(p, ds[0], IsCarved(g, Step(p, ds[0]).row, Step(p, ds[0]).col).value);
      var ns := Collect(g, p, ds).value;
      assert ns == head + rest;
      forall i, j | 0 <= i < j < |ns|
        ensures Rank(ns[i].0) < Rank(ns[j].0)
      {
        assert ns[j] == rest[j - |head|];
        if i >= |head| {
          assert ns[i] == rest[i - |head|];
        }
      }
    }
  }

  lemma DirectionsIncreasing()
    ensures Increasing(Directions)
  {
  }

  /** The neighbour list holds, in the order U, D, L, R, exactly the
      neighbouring boxes whose `is_carved` query answered false. */
  lemma NeighborsListedExactly(g: Grid, p: Point)
    requires Shaped(g) && GetUncarvedNeighbors(g, p).Ok?
    ensures SoundList(g, p, GetUncarvedNeighbors(g, p).value)
    ensures forall d :: d in Directions && Uncarved(g, Step(p, d)) ==> (d, Step(p, d)) in GetUncarvedNeighbors(g, p).value
    ensures RankSorted(GetUncarvedNeighbors(g, p).value)
  {
    DirectionsIncreasing();
    assert GetUncarvedNeighbors(g, p) == Collect(g, p, Directions);
    CollectSound(g, p, Directions);
    forall d | d in Directions && Uncarved(g, Step(p, d))
      ensures (d, Step(p, d)) in GetUncarvedNeighbors(g, p).value
    {
      CollectComplete(g, p, Directions, d);
    }
    CollectSorted(g, p, Directions);
  }

  /** `carve(point, direction)`: clears the one flag that holds the wall on
      side `d` of `p`.  'U' at row 0 and 'L' at column 0 are rejected by the
      guards; 'D' and 'R' have guards that compare with `height` and `width`,
      and otherwise raise from the subscript; any other token is a ValueError. */
  function Carve(g: Grid, p: Point, d: char): (r: Result<Grid>)
    requires Shaped(g)
    ensures d !in Directions ==> r == Err(ValueError)
    ensures d in Directions && r.Err? ==> r.error == IndexError
    ensures d == 'U' && p.row == 0 ==> r == Err(IndexError)
    ensures d == 'L' && p.col == 0 ==> r == Err(IndexError)
    ensures d == 'D' && p.row == g.height ==> r == Err(IndexError)
    ensures d == 'R' && p.col == g.width ==> r == Err(IndexError)
    ensures r.Ok? ==> d in Directions && Addressable(g, WallOf(p, d).row, WallOf(p, d).col)
    ensures r.Ok? ==> Rewrites(g, r.value, ResolveWall(g, WallOf(p, d)), false)
    ensures r.Ok? && OnGrid(g, p) ==> Rewrites(g, r.value, WallOf(p, d), false)
  {
    if d == 'U' then
      if p.row == 0 then Err(IndexError) else PointSetDrawsRight(g, p.row, p.col, false)
    else if d == 'D' then
      if p.row == g.height then Err(IndexError) else PointSetDrawsRight(g, p.row + 1, p.col, false)
    else if d == 'L' then
      if p.col == 0 then Err(IndexError) else PointSetDrawsDown(g, p.row, p.col, false)
    else if d == 'R' then
      if p.col == g.width then Err(IndexError) else PointSetDrawsDown(g, p.row, p.col + 1, false)
    else
      Err(ValueError)
  }

  /** `carve` from the row above the grid is not rejected: the 'U' guard only
      looks for row 0, and the subscript -1 wraps round, so the top wall
      flag of the last row's point in that column is the one cleared. */
  lemma CarveAboveGridWraps(g: Grid, col: int)
    requires Shaped(g) && 1 <= g.height && 0 <= col < g.width
    ensures Carve(g, Point(-1, col), 'U').Ok?
    ensures Rewrites(g, Carve(g, Point(-1, col), 'U').value, Wall(g.height - 1, col, DrawRight), false)
  {
  }

  /** From a point of the grid, `carve` raises exactly when the wall would lie
      outside the grid: the off-by-one 'D' and 'R' guards never fire there,
      but the subscript raises the same IndexError one row or column earlier. */
  lemma CarveRaisesExactlyAtEdge(g: Grid, p: Point, d: char)
    requires Shaped(g) && OnGrid(g, p) && d in Directions
    ensures Carve(g, p, d).Err? <==>
      || (d == 'U' && p.row == 0)
      || (d == 'D' && p.row == g.height - 1)
      || (d == 'L' && p.col == 0)
      || (d == 'R' && p.col == g.width - 1)
  {
  }

  /** An uncarved box reached from a point of the grid is a real box: row -1
      and column -1 wrap round to the carved boundary, and the last row and
      column always read as carved. */
  lemma UncarvedIsBox(g: Grid, p: Point)
    requires Valid(g) && 0 <= p.row + 1 && 0 <= p.col + 1
    requires Uncarved(g, p)
    ensures Box(g, p)
  {
    if p.row == -1 || p.col == -1 {
      WrappedReadsCarved(g, p.row, p.col);
    } else if p.row == g.height - 1 || p.col == g.width - 1 {
      EdgeReadsCarved(g, p.row, p.col);
    }
  }

  /** Every neighbour listed for a point of the grid is a real box. */
  lemma NeighborsAreBoxes(g: Grid, p: Point)
    requires Valid(g) && OnGrid(g, p)
    requires GetUncarvedNeighbors(g, p).Ok?
    ensures forall i :: 0 <= i < |GetUncarvedNeighbors(g, p).value| ==> Box(g, GetUncarvedNeighbors(g, p).value[i].1)
  {
    var ns := GetUncarvedNeighbors(g, p).value;
    NeighborsListedExactly(g, p);
    forall i | 0 <= i < |ns|
      ensures Box(g, ns[i].1)
    {
      assert ns[i].1 == Step(p, ns[i].0) && Uncarved(g, ns[i].1);
      UncarvedIsBox(g, ns[i].1);
    }
  }

  lemma NeighborQueryAnswers(g: Grid, p: Point, d: char)
    requires Valid(g) && Box(g, p) && d in Directions
    ensures IsCarved(g, Step(p, d).row, Step(p, d).col).Ok?
  {
    var q := Step(p, d);
    if q.row == -1 || q.col == -1 {
      WrappedReadsCarved(g, q.row, q.col);
    } else if q.row == g.height - 1 || q.col == g.width - 1 {
      EdgeReadsCarved(g, q.row, q.col);
    } else {
      BoxCarvedIff(g, q.row, q.col);
    }
  }

  /** The neighbour query from a point of the grid succeeds exactly when the
      point names a real box: from the last row the 'D' query subscripts row
      `height`, and from the last column the 'R' query subscripts column `width`. */
  lemma NeighborQueryRaisesOffBox(g: Grid, p: Point)
    requires Valid(g) && OnGrid(g, p)
    ensures GetUncarvedNeighbors(g, p).Ok? <==> Box(g, p)
  {
    if Box(g, p) {
      forall d | d in Directions
        ensures IsCarved(g, Step(p, d).row, Step(p, d).col).Ok?
      {
        NeighborQueryAnswers(g, p, d);
      }
      assert Step(p, 'U') == Point(p.row - 1, p.col);
      assert Step(p, 'D') == Point(p.row + 1, p.col);
      assert Step(p, 'L') == Point(p.row, p.col - 1);
      assert Step(p, 'R') == Point(p.row, p.col + 1);
    } else if p.row == g.height - 1 {
      PastEndRaises(g, p.row + 1, p.col);
    } else {
      PastEndRaises(g, p.row, p.col + 1);
    }
  }

  /** Carving from a point of the grid towards an uncarved box next to it
      succeeds, clears exactly the wall the two boxes share (which was
      standing), and leaves both of them carved. */
  lemma CarveTowards(g: Grid, p: Point, d: char)
    requires Valid(g) && OnGrid(g, p) && d in Directions
    requires Box(g, Step(p, d)) && Uncarved(g, Step(p, d))
    ensures Carve(g, p, d).Ok?
    ensures FlagAt(g, WallOf(p, d))
    ensures Rewrites(g, Carve(g, p, d).value, WallOf(p, d), false)
    ensures Valid(Carve(g, p, d).value) && Descends(g, Carve(g, p, d).value)
    ensures Carved(Carve(g, p, d).value, p) && Carved(Carve(g, p, d).value, Step(p, d))
  {
    var n := Step(p, d);
    CarveSucceeds(g, p, d);
    var g2 := Carve(g, p, d).value;
    var w := WallOf(p, d);
    WallShared(p, d);
    BoxCarvedIff(g, n.row, n.col);
    assert FlagAt(g, WallOf(n, Opposite(d)));
    ClearDescends(g, g2, w);
    CarveCarvesBoth(g, g2, p, d);
  }

  lemma CarveSucceeds(g: Grid, p: Point, d: char)
    requires Shaped(g) && OnGrid(g, p) && d in Directions
    requires Box(g, Step(p, d))
    ensures Carve(g, p, d).Ok?
  {
  }

  lemma CarveCarvesBoth(g: Grid, g2: Grid, p: Point, d: char)
    requires Valid(g) && OnGrid(g, p) && d in Directions && Box(g, Step(p, d))
    requires Rewrites(g, g2, WallOf(p, d), false)
    ensures Carved(g2, p) && Carved(g2, Step(p, d))
  {
    var n := Step(p, d);
    var w := WallOf(p, d);
    ClearDescends(g, g2, w);
    if Box(g, p) {
      ClearedWallCarves(g, g2, w, p.row, p.col);
    } else {
      EdgeReadsCarved(g2, p.row, p.col);
    }
    ClearedWallCarves(g, g2, w, n.row, n.col);
  }

  /** A box one of whose four walls is `w` reads as carved once `w` is
      cleared. */
  lemma ClearedWallCarves(g: Grid, g2: Grid, w: Wall, row: int, col: int)
    requires Valid(g) && Rewrites(g, g2, w, false) && IsBox(g, row, col)
    requires w in {TopWall(row, col), LeftWall(row, col), BottomWall(row, col), RightWall(row, col)}
    ensures IsCarved(g2, row, col) == Ok(true)
  {
    if w.flag == DrawRight {
      ClearRightCarvesBothSides(g, g2, w.row, w.col, row, col);
    } else {
      ClearDownCarvesBothSides(g, g2, w.row, w.col, row, col);
    }
  }

  /** Carving from a point of the grid towards a neighbour box changes
      whether a box is carved only for the two boxes on either side of the
      cleared wall. */
  lemma CarveTouchesOnlyTwoBoxes(g: Grid, p: Point, d: char, b: Point)
    requires Valid(g) && OnGrid(g, p) && d in Directions
    requires Box(g, Step(p, d)) && Box(g, b)
    requires b != p && b != Step(p, d)
    ensures IsCarved(Carve(g, p, d).value, b.row, b.col) == IsCarved(g, b.row, b.col)
  {
    CarveSucceeds(g, p, d);
    var g2 := Carve(g, p, d).value;
    var w := WallOf(p, d);
    if w.flag == DrawRight {
      ClearRightCarvesBothSides(g, g2, w.row, w.col, b.row, b.col);
    } else {
      ClearDownCarvesBothSides(g, g2, w.row, w.col, b.row, b.col);
    }
  }
}
