/** Moving the focus to the nearest pane in a direction. */
module Navigation {
  import opened Prelude
  import opened LayoutTree
  import opened Geometry
  import opened Sightlines

  predicate VOverlap(a: Rect, b: Rect)
    requires a.Fits() && b.Fits()
  {
    a.y < b.Bottom() && b.y < a.Bottom()
  }

  predicate HOverlap(a: Rect, b: Rect)
    requires a.Fits() && b.Fits()
  {
    a.x < b.Right() && b.x < a.Right()
  }

  predicate IsAdjacent(from: Rect, to: Rect, nav: NavDir)
    requires from.Fits() && to.Fits()
  {
    if from.w == 0 || from.h == 0 || to.w == 0 || to.h == 0 then false
    else
      match nav
      case Left => to.Right() <= from.x && VOverlap(from, to)
      case Right => to.x >= from.Right() && VOverlap(from, to)
      case Up => to.Bottom() <= from.y && HOverlap(from, to)
      case Down => to.y >= from.Bottom() && HOverlap(from, to)
  }

  function NavDistance(from: Rect, to: Rect, nav: NavDir): u16
    requires from.Fits() && to.Fits()
  {
    match nav
    case Left => SatSub(from.x, to.Right())
    case Right => SatSub(to.x, from.Right())
    case Up => SatSub(from.y, to.Bottom())
    case Down => SatSub(to.y, from.Bottom())
  }

  // ----- choosing the nearest candidate -----

  predicate Candidate(rects: map<nat, Rect>, from: nat, id: nat, nav: NavDir)
    requires AllFit(rects) && from in rects && id in rects
  {
    id != from && IsAdjacent(rects[from], rects[id], nav)
  }

  /** Strictly closer, or as close with a smaller id. */
  predicate Before(rects: map<nat, Rect>, from: nat, a: nat, b: nat, nav: NavDir)
    requires AllFit(rects) && from in rects && a in rects && b in rects
  {
    var (da, db) := (NavDistance(rects[from], rects[a], nav), NavDistance(rects[from], rects[b], nav));
    da < db || (da == db && a < b)
  }

  // ----- what is meant by the nearest -----

  /** Seeing a pane means that it lies beyond on a common line. */
  ghost predicate IsNeighbour(r: Rect, t: Rect, nav: NavDir) {
    ShareLine(r, t, Along(nav)) && IsBeyond(r, t, nav)
  }

  /** How many cells lie between two rectangles, the second beyond the first. */
  function CellsBetween(r: Rect, t: Rect, nav: NavDir): int {
    if Forward(nav) then Lo(t, Along(nav)) - Hi(r, Along(nav)) else Lo(r, Along(nav)) - Hi(t, Along(nav))
  }

  lemma AdjacentMeansBeyond(r: Rect, t: Rect, nav: NavDir)
    requires r.Fits() && t.Fits()
    ensures IsAdjacent(r, t, nav) <==> IsNeighbour(r, t, nav)
    ensures IsNeighbour(r, t, nav) ==> NavDistance(r, t, nav) == CellsBetween(r, t, nav)
    ensures !IsNeighbour(r, r, nav)
  {
  }

  /** Among `ids`, `best` is a neighbour with the fewest cells between, and of several such the one with the least id. */
  ghost predicate NearestAmong(rects: map<nat, Rect>, ids: set<nat>, from: nat, nav: NavDir, best: Option<nat>)
    requires from in rects && ids <= rects.Keys
  {
    match best
    case None => forall id :: id in ids ==> !IsNeighbour(rects[from], rects[id], nav)
    case Some(b) =>
      && b in ids && IsNeighbour(rects[from], rects[b], nav)
      && forall id :: id in ids && IsNeighbour(rects[from], rects[id], nav) ==>
           && CellsBetween(rects[from], rects[b], nav) <= CellsBetween(rects[from], rects[id], nav)
           && (CellsBetween(rects[from], rects[b], nav) == CellsBetween(rects[from], rects[id], nav) ==> b <= id)
  }

  lemma NearestIsUnique(rects: map<nat, Rect>, from: nat, nav: NavDir, a: Option<nat>, b: Option<nat>)
    requires from in rects
    requires NearestAmong(rects, rects.Keys, from, nav, a) && NearestAmong(rects, rects.Keys, from, nav, b)
    ensures a == b
  {
  }

  /** Taking one more rectangle into account. */
  lemma OneMore(rects: map<nat, Rect>, seen: set<nat>, id: nat, from: nat, nav: NavDir, best: Option<nat>)
    requires AllFit(rects) && from in rects && seen <= rects.Keys && id in rects
    requires NearestAmong(rects, seen, from, nav, best)
    ensures var closer := Candidate(rects, from, id, nav) && (best.None? || Before(rects, from, id, best.value, nav));
            NearestAmong(rects, seen + {id}, from, nav, if closer then Some(id) else best)
  {
    forall k | k in rects
      ensures Candidate(rects, from, k, nav) <==> IsNeighbour(rects[from], rects[k], nav)
      ensures IsNeighbour(rects[from], rects[k], nav) ==>
                NavDistance(rects[from], rects[k], nav) == CellsBetween(rects[from], rects[k], nav)
    {
      AdjacentMeansBeyond(rects[from], rects[k], nav);
    }
  }

  /** Scans the rectangles in whatever order the map yields them. */
  method Navigate(node: Node, from: nat, nav: NavDir, inner: Rect, round: Rounding) returns (best: Option<nat>)
    ensures from !in RectMap(node, inner, round) ==> best == None
    ensures from in RectMap(node, inner, round) ==>
              NearestAmong(RectMap(node, inner, round), RectMap(node, inner, round).Keys, from, nav, best)
  {
    var rects := PaneRects(node, inner, round);
    RectMapFits(node, inner, round);
    best := None;
    if from !in rects {
      return;
    }
    var rest := rects.Keys;
    while rest != {}
      invariant rest <= rects.Keys
      invariant NearestAmong(rects, rects.Keys - rest, from, nav, best)
      decreases |rest|
    {
      var id :| id in rest;
      OneMore(rects, rects.Keys - rest, id, from, nav, best);
      assert rects.Keys - (rest - {id}) == (rects.Keys - rest) + {id};
      rest := rest - {id};
      if Candidate(rects, from, id, nav) && (best.None? || Before(rects, from, id, best.value, nav)) {
        best := Some(id);
      }
    }
    assert rects.Keys - rest == rects.Keys;
  }

  // ----- exchanging the axes -----

  function FlipRect(r: Rect): Rect { Rect(r.y, r.x, r.h, r.w) }

  function FlipNode(node: Node): Node {
    match node
    case Leaf(_) => node
    case Split(d, r, f, s) => Split(Other(d), r, FlipNode(f), FlipNode(s))
  }

  lemma FlipSplit(area: Rect, dir: Direction, ratio: Ratio, round: Rounding)
    requires area.Fits()
    ensures var (a1, a2) := SplitArea(area, dir, ratio, round);
            SplitArea(FlipRect(area), Other(dir), ratio, round) == (FlipRect(a1), FlipRect(a2))
  {
  }

  lemma {:induction false} FlipIds(node: Node)
    ensures PaneIds(FlipNode(node)) == PaneIds(node)
  {
    match node
    case Leaf(_) =>
    case Split(_, _, first, second) => FlipIds(first); FlipIds(second);
  }

  /** Laying out the transposed tree on the transposed area transposes every rectangle. */
  lemma {:induction false} FlipLeaf(node: Node, area: Rect, round: Rounding, i: nat)
    requires area.Fits() && i < |Leaves(node, area, round)|
    ensures |Leaves(FlipNode(node), FlipRect(area), round)| == |Leaves(node, area, round)|
    ensures Leaves(FlipNode(node), FlipRect(area), round)[i].rect == FlipRect(Leaves(node, area, round)[i].rect)
  {
    FlipIds(node);
    match node
    case Leaf(_) =>
    case Split(dir, ratio, first, second) =>
      var (a1, a2) := SplitArea(area, dir, ratio, round);
      FlipSplit(area, dir, ratio, round);
      FlipIds(first);
      var n := |Leaves(first, a1, round)|;
      if i < n {
        FlipLeaf(first, a1, round, i);
      } else {
        FlipLeaf(second, a2, round, i - n);
      }
  }

  // ----- from the map to the plan and back -----

  /** The plan of the tree on the content area, and where in it the pane with this id is. */
  lemma PaneOf(node: Node, inner: Rect, round: Rounding, id: nat) returns (p: Plan, i: nat)
    requires Distinct(PaneIds(node)) && id in RectMap(node, inner, round)
    ensures p == PlanOf(node, inner.Clipped(), round) && LaidOut(p) && p.area == inner.Clipped()
    ensures i < |PaneIds(node)| && PaneIds(node)[i] == id && IsPane(p, i, RectMap(node, inner, round)[id])
  {
    p := PlanOf(node, inner.Clipped(), round);
    PlanIsLaidOut(node, inner.Clipped(), round);
    RectMapIsLeaves(node, inner, round);
    i :| 0 <= i < |PaneIds(node)| && PaneIds(node)[i] == id;
    assert Leaves(node, inner.Clipped(), round)[i] in Leaves(node, inner.Clipped(), round);
    PanesAreLeaves(node, inner.Clipped(), round, i, RectMap(node, inner, round)[id]);
  }

  lemma IdOf(node: Node, inner: Rect, round: Rounding, i: nat, r: Rect) returns (id: nat)
    requires Distinct(PaneIds(node)) && IsPane(PlanOf(node, inner.Clipped(), round), i, r)
    ensures i < |PaneIds(node)| && PaneIds(node)[i] == id
    ensures id in RectMap(node, inner, round) && RectMap(node, inner, round)[id] == r
  {
    PanesAreLeaves(node, inner.Clipped(), round, i, r);
    RectMapIsLeaves(node, inner, round);
    assert Leaves(node, inner.Clipped(), round)[i] in Leaves(node, inner.Clipped(), round);
    id := PaneIds(node)[i];
  }

  /** Of two neighbouring cells along any edge of an area, at least one is covered by a pane. */
  lemma EdgeCovered(node: Node, area: Rect, round: Rounding, nav: NavDir, line: u16)
    requires area.Fits() && Nonempty(area) && Crosses(line, area, Along(nav)) && Crosses(line + 1, area, Along(nav))
    ensures var pos := if Forward(nav) then Lo(area, Along(nav)) else Hi(area, Along(nav)) - 1;
            if Along(nav) == Horizontal then
              PaneHits(node, area, round, pos, line) > 0 || PaneHits(node, area, round, pos, line + 1) > 0
            else
              PaneHits(node, area, round, line, pos) > 0 || PaneHits(node, area, round, line + 1, pos) > 0
  {
    var p := PlanOf(node, area, round);
    PlanIsLaidOut(node, area, round);
    NoTwoGaps(p, nav, line);
    var l := if EdgeGap(p, nav, line) then line + 1 else line;
    var j, t := PaneAtEntry(p, nav, l);
    PanesAreLeaves(node, area, round, j, t);
    var pos := if Forward(nav) then Lo(area, Along(nav)) else Hi(area, Along(nav)) - 1;
    PaneInside(p, j, t);
    if Along(nav) == Horizontal {
      PaneHitsOne(node, area, round, pos, l, j);
    } else {
      PaneHitsOne(node, area, round, l, pos, j);
    }
  }

  // ----- exactly when there is a neighbour -----

  /** Along this line of the pane, not every part between it and the area's edge is separator all the way across. */
  predicate LineOpens(node: Node, inner: Rect, round: Rounding, i: nat, nav: NavDir, line: int) {
    Opens(PlanOf(node, inner.Clipped(), round), i, nav, line)
  }

  /** The pane is not empty, and one of its lines opens. */
  ghost predicate SomeLineOpens(node: Node, inner: Rect, round: Rounding, i: nat, r: Rect, nav: NavDir) {
    Nonempty(r) && exists line :: Crosses(line, r, Along(nav)) && LineOpens(node, inner, round, i, nav, line)
  }

  lemma CandidateOpens(node: Node, inner: Rect, round: Rounding, i: nat, r: Rect, to: nat, nav: NavDir) returns (line: int)
    requires Distinct(PaneIds(node)) && to in RectMap(node, inner, round)
    requires IsPane(PlanOf(node, inner.Clipped(), round), i, r)
    requires IsNeighbour(r, RectMap(node, inner, round)[to], nav)
    ensures Crosses(line, r, Along(nav)) && LineOpens(node, inner, round, i, nav, line)
  {
    var t := RectMap(node, inner, round)[to];
    var p, k := PaneOf(node, inner, round, to);
    line := Max(Lo(r, Other(Along(nav))), Lo(t, Other(Along(nav))));
    PaneBeyondOpens(p, i, r, k, t, nav, line);
  }

  lemma OpenHasCandidate(node: Node, inner: Rect, round: Rounding, from: nat, i: nat, nav: NavDir, line: int) returns (to: nat)
    requires Distinct(PaneIds(node)) && from in RectMap(node, inner, round)
    requires IsPane(PlanOf(node, inner.Clipped(), round), i, RectMap(node, inner, round)[from])
    requires Nonempty(RectMap(node, inner, round)[from]) && Crosses(line, RectMap(node, inner, round)[from], Along(nav))
    requires LineOpens(node, inner, round, i, nav, line)
    ensures to in RectMap(node, inner, round)
    ensures IsNeighbour(RectMap(node, inner, round)[from], RectMap(node, inner, round)[to], nav)
  {
    var r := RectMap(node, inner, round)[from];
    PlanIsLaidOut(node, inner.Clipped(), round);
    var k, t := OpensToPane(PlanOf(node, inner.Clipped(), round), i, r, nav, line);
    to := IdOf(node, inner, round, k, t);
  }

  /**
   * Exactly when there is a neighbour, for every pane and direction: when the pane is not empty and one of its own
   * lines opens.
   */
  lemma NavigationExact(node: Node, inner: Rect, round: Rounding, i: nat, nav: NavDir, best: Option<nat>)
    requires Distinct(PaneIds(node)) && i < |PaneIds(node)|
    requires PaneIds(node)[i] in RectMap(node, inner, round)
    requires NearestAmong(RectMap(node, inner, round), RectMap(node, inner, round).Keys, PaneIds(node)[i], nav, best)
    ensures best.Some? <==> SomeLineOpens(node, inner, round, i, RectMap(node, inner, round)[PaneIds(node)[i]], nav)
  {
    var rects := RectMap(node, inner, round);
    var from := PaneIds(node)[i];
    IsPaneAt(node, inner, round, i);
    if best.Some? {
      var line := CandidateOpens(node, inner, round, i, rects[from], best.value, nav);
    } else if SomeLineOpens(node, inner, round, i, rects[from], nav) {
      var line :| Crosses(line, rects[from], Along(nav)) && LineOpens(node, inner, round, i, nav, line);
      var to := OpenHasCandidate(node, inner, round, from, i, nav, line);
      assert false;
    }
  }

  lemma IsPaneAt(node: Node, inner: Rect, round: Rounding, i: nat)
    requires Distinct(PaneIds(node)) && i < |PaneIds(node)| && PaneIds(node)[i] in RectMap(node, inner, round)
    ensures IsPane(PlanOf(node, inner.Clipped(), round), i, RectMap(node, inner, round)[PaneIds(node)[i]])
  {
    var _, k := PaneOf(node, inner, round, PaneIds(node)[i]);
    assert k == i;
  }

  /** A candidate across exactly one separator. */
  lemma RoomGivesNeighbour(node: Node, inner: Rect, round: Rounding, from: nat, nav: NavDir) returns (to: nat)
    requires Distinct(PaneIds(node)) && from in RectMap(node, inner, round)
    requires BroadEnough(RectMap(node, inner, round)[from], nav)
    requires RoomBeyond(RectMap(node, inner, round)[from], inner.Clipped(), nav)
    ensures to in RectMap(node, inner, round)
    ensures IsNeighbour(RectMap(node, inner, round)[from], RectMap(node, inner, round)[to], nav)
    ensures CellsBetween(RectMap(node, inner, round)[from], RectMap(node, inner, round)[to], nav) == 1
  {
    var r := RectMap(node, inner, round)[from];
    var p, i := PaneOf(node, inner, round, from);
    var j, t, l := NextPane(p, i, r, nav, Lo(r, Other(Along(nav))));
    to := IdOf(node, inner, round, j, t);
  }

  /**
   * Navigation is complete: a broad enough pane has a neighbour exactly when it stops short of the area's edge,
   * and then the chosen neighbour is one separator away.
   */
  lemma {:induction false} NavigationComplete(node: Node, inner: Rect, round: Rounding, from: nat, nav: NavDir, best: Option<nat>)
    requires Distinct(PaneIds(node)) && from in RectMap(node, inner, round)
    requires NearestAmong(RectMap(node, inner, round), RectMap(node, inner, round).Keys, from, nav, best)
    requires BroadEnough(RectMap(node, inner, round)[from], nav)
    ensures best.Some? <==> RoomBeyond(RectMap(node, inner, round)[from], inner.Clipped(), nav)
    ensures best.Some? ==> CellsBetween(RectMap(node, inner, round)[from], RectMap(node, inner, round)[best.value], nav) == 1
  {
    var p, i := PaneOf(node, inner, round, from);
    NavigationExact(node, inner, round, i, nav, best);
    BroadOpens(p, i, RectMap(node, inner, round)[from], nav);
    if best.Some? {
      var to := RoomGivesNeighbour(node, inner, round, from, nav);
      SomeGap(node, inner, round, from, best.value, nav);
    }
  }

  /** No candidate is closer than one cell. */
  lemma SomeGap(node: Node, inner: Rect, round: Rounding, from: nat, to: nat, nav: NavDir)
    requires Distinct(PaneIds(node))
    requires from in RectMap(node, inner, round) && to in RectMap(node, inner, round)
    requires IsNeighbour(RectMap(node, inner, round)[from], RectMap(node, inner, round)[to], nav)
    ensures CellsBetween(RectMap(node, inner, round)[from], RectMap(node, inner, round)[to], nav) >= 1
  {
    var (r, t) := (RectMap(node, inner, round)[from], RectMap(node, inner, round)[to]);
    var p, i := PaneOf(node, inner, round, from);
    var _, k := PaneOf(node, inner, round, to);
    if Forward(nav) {
      NeverTouch(p, i, r, k, t, Along(nav));
    } else {
      NeverTouch(p, k, t, i, r, Along(nav));
    }
  }

  // ----- a pane one cell high -----

  const EXAMPLE_LOWER := Split(Vertical, Finite(0.5), Leaf(1), Leaf(2))
  const EXAMPLE_LEFT := Split(Vertical, Finite(0.25), Leaf(0), EXAMPLE_LOWER)
  const EXAMPLE_RIGHT := Split(Vertical, Finite(0.5), Leaf(3), Leaf(4))

  lemma ColumnsOfExample()
    ensures Leaves(EXAMPLE_LEFT, Rect(0, 0, 1, 5), RoundHalfUp)
         == [Placed(0, Rect(0, 0, 1, 1)), Placed(1, Rect(0, 2, 1, 1)), Placed(2, Rect(0, 4, 1, 1))]
    ensures Leaves(EXAMPLE_RIGHT, Rect(2, 0, 1, 5), RoundHalfUp) == [Placed(3, Rect(2, 0, 1, 2)), Placed(4, Rect(2, 3, 1, 2))]
  {
    assert SplitArea(Rect(0, 0, 1, 5), Vertical, Finite(0.25), RoundHalfUp) == (Rect(0, 0, 1, 1), Rect(0, 2, 1, 3));
    assert SplitArea(Rect(0, 2, 1, 3), Vertical, Finite(0.5), RoundHalfUp) == (Rect(0, 2, 1, 1), Rect(0, 4, 1, 1));
    assert SplitArea(Rect(2, 0, 1, 5), Vertical, Finite(0.5), RoundHalfUp) == (Rect(2, 0, 1, 2), Rect(2, 3, 1, 2));
    assert Leaves(EXAMPLE_LOWER, Rect(0, 2, 1, 3), RoundHalfUp) == [Placed(1, Rect(0, 2, 1, 1)), Placed(2, Rect(0, 4, 1, 1))];
  }

  /** Two rows are needed: here a pane one row high faces a separator end on and has no right neighbour. */
  lemma OneRowMayHaveNoNeighbour()
    ensures var leaves := Leaves(Split(Horizontal, Finite(0.5), EXAMPLE_LEFT, EXAMPLE_RIGHT), Rect(0, 0, 3, 5), RoundHalfUp);
            && |leaves| == 5 && leaves[1].rect == Rect(0, 2, 1, 1)
            && RoomBeyond(leaves[1].rect, Rect(0, 0, 3, 5), NavDir.Right)
            && forall p :: p in leaves ==> !IsNeighbour(leaves[1].rect, p.rect, NavDir.Right)
  {
    ColumnsOfExample();
    assert SplitArea(Rect(0, 0, 3, 5), Horizontal, Finite(0.5), RoundHalfUp) == (Rect(0, 0, 1, 5), Rect(2, 0, 1, 5));
  }
}
