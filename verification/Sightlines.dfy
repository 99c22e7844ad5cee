/** What lies beyond a pane along one line of cells: walls of separators, openings, and the panes behind them. */
module Sightlines {
  import opened LayoutTree
  import opened Geometry

  datatype NavDir = Left | Right | Up | Down

  // ----- one axis at a time -----

  function Other(d: Direction): Direction { if d == Horizontal then Vertical else Horizontal }

  function Along(nav: NavDir): Direction {
    if nav == Left || nav == Right then Horizontal else Vertical
  }

  predicate Forward(nav: NavDir) { nav == Right || nav == Down }

  function Lo(r: Rect, dir: Direction): int {
    if dir == Horizontal then r.x else r.y
  }

  function Hi(r: Rect, dir: Direction): int {
    if dir == Horizontal then r.x + r.w else r.y + r.h
  }

  predicate Nonempty(r: Rect) { r.w > 0 && r.h > 0 }

  /** The line, a row for horizontal movement and a column for vertical, crosses the rectangle. */
  predicate Crosses(line: int, r: Rect, dir: Direction) {
    Lo(r, Other(dir)) <= line < Hi(r, Other(dir))
  }

  /** The second rectangle lies wholly beyond the first. */
  predicate IsBeyond(r: Rect, t: Rect, nav: NavDir) {
    if Forward(nav) then Hi(r, Along(nav)) <= Lo(t, Along(nav)) else Hi(t, Along(nav)) <= Lo(r, Along(nav))
  }

  /** The second rectangle begins one cell beyond the first. */
  predicate IsNext(r: Rect, t: Rect, nav: NavDir) {
    if Forward(nav) then Lo(t, Along(nav)) == Hi(r, Along(nav)) + 1 else Hi(t, Along(nav)) + 1 == Lo(r, Along(nav))
  }

  /** The pane stops short of the area's edge in that direction. */
  predicate RoomBeyond(r: Rect, area: Rect, nav: NavDir) {
    match nav
    case Left => r.x > area.x
    case Right => r.x + r.w < area.x + area.w
    case Up => r.y > area.y
    case Down => r.y + r.h < area.y + area.h
  }

  /** Nonempty, and at least two cells along the edge it looks across. */
  predicate BroadEnough(r: Rect, nav: NavDir) {
    if nav == Left || nav == Right then r.w > 0 && r.h >= 2 else r.h > 0 && r.w >= 2
  }

  // ----- a tree laid out -----

  /** The areas that a tree is given, without ids and ratios. */
  datatype Plan = Pane(area: Rect) | Halves(area: Rect, dir: Direction, first: Plan, second: Plan)

  function PlanOf(node: Node, area: Rect, round: Rounding): Plan {
    match node
    case Leaf(_) => Pane(area)
    case Split(d, ratio, first, second) =>
      var (a1, a2) := SplitArea(area, d, ratio, round);
      Halves(area, d, PlanOf(first, a1, round), PlanOf(second, a2, round))
  }

  /** Every area is divided into those of its halves. */
  ghost predicate LaidOut(p: Plan) {
    p.Halves? ==> Divides(p.area, p.dir, p.first.area, p.second.area) && LaidOut(p.first) && LaidOut(p.second)
  }

  function Count(p: Plan): nat {
    if p.Pane? then 1 else Count(p.first) + Count(p.second)
  }

  /** The i-th pane has this rectangle. */
  predicate IsPane(p: Plan, i: nat, r: Rect) {
    match p
    case Pane(area) => i == 0 && r == area
    case Halves(_, _, first, second) =>
      if i < Count(first) then IsPane(first, i, r) else IsPane(second, i - Count(first), r)
  }

  lemma {:induction false} PlanIsLaidOut(node: Node, area: Rect, round: Rounding)
    requires area.Fits()
    ensures LaidOut(PlanOf(node, area, round)) && PlanOf(node, area, round).area == area
    ensures Count(PlanOf(node, area, round)) == CountLeaves(node)
  {
    match node
    case Leaf(_) =>
    case Split(d, ratio, first, second) =>
      var (a1, a2) := SplitArea(area, d, ratio, round);
      SplitDivides(area, d, ratio, round);
      PlanIsLaidOut(first, a1, round);
      PlanIsLaidOut(second, a2, round);
  }

  lemma Appended(s: seq<Placed>, t: seq<Placed>, whole: seq<Placed>, i: nat)
    requires whole == s + t
    ensures |whole| == |s| + |t| && (i < |whole| ==> whole[i] == if i < |s| then s[i] else t[i - |s|])
  {
  }

  /** The panes of the plan are the rectangles of the leaves, in the same order. */
  lemma {:induction false} PanesAreLeaves(node: Node, area: Rect, round: Rounding, i: nat, r: Rect)
    requires area.Fits()
    ensures IsPane(PlanOf(node, area, round), i, r)
       <==> i < |Leaves(node, area, round)| && Leaves(node, area, round)[i].rect == r
  {
    match node
    case Leaf(_) =>
    case Split(d, ratio, first, second) =>
      var (a1, a2) := SplitArea(area, d, ratio, round);
      var (l1, l2) := (Leaves(first, a1, round), Leaves(second, a2, round));
      PlanIsLaidOut(first, a1, round);
      CountIsLength(first);
      Appended(l1, l2, Leaves(node, area, round), i);
      if i < |l1| {
        PanesAreLeaves(first, a1, round, i, r);
      } else {
        PanesAreLeaves(second, a2, round, i - |l1|, r);
      }
  }

  lemma {:induction false} PaneInside(p: Plan, i: nat, r: Rect)
    requires LaidOut(p) && IsPane(p, i, r)
    ensures Inside(r, p.area)
  {
    match p
    case Pane(_) =>
    case Halves(_, _, first, second) =>
      if i < Count(first) {
        PaneInside(first, i, r);
      } else {
        PaneInside(second, i - Count(first), r);
      }
  }

  // ----- walls and openings -----

  /** Along this line the plan is separator all the way across. */
  predicate Wall(p: Plan, dir: Direction, line: int) {
    match p
    case Pane(_) => false
    case Halves(_, d, first, second) =>
      if d == dir then Wall(first, dir, line) && (Lo(second.area, d) == Hi(second.area, d) || Wall(second, dir, line))
      else if line < Hi(first.area, d) then Wall(first, dir, line)
      else line == Hi(first.area, d) || Wall(second, dir, line)
  }

  /** Leaving the i-th pane along this line, some part on the way to the edge is no wall. */
  predicate Opens(p: Plan, i: nat, nav: NavDir, line: int) {
    match p
    case Pane(_) => false
    case Halves(_, d, first, second) =>
      if i < Count(first) then
        || Opens(first, i, nav, line)
        || (d == Along(nav) && Forward(nav) && Lo(second.area, d) < Hi(second.area, d) && !Wall(second, d, line))
      else
        || Opens(second, i - Count(first), nav, line)
        || (d == Along(nav) && !Forward(nav) && !Wall(first, d, line))
  }

  /** No pane reaches into a wall. */
  lemma {:induction false} WallStops(p: Plan, dir: Direction, line: int, k: nat, t: Rect)
    requires LaidOut(p) && Crosses(line, p.area, dir) && Wall(p, dir, line) && IsPane(p, k, t) && Nonempty(t)
    ensures !Crosses(line, t, dir)
  {
    var Halves(_, d, first, second) := p;
    if k < Count(first) {
      PaneInside(first, k, t);
      if Crosses(line, first.area, dir) {
        WallStops(first, dir, line, k, t);
      }
    } else {
      PaneInside(second, k - Count(first), t);
      if Crosses(line, second.area, dir) {
        WallStops(second, dir, line, k - Count(first), t);
      }
    }
  }

  /** What is no wall has a pane on the line. */
  lemma {:induction false} HoleInWall(p: Plan, dir: Direction, line: int) returns (k: nat, t: Rect)
    requires LaidOut(p) && Nonempty(p.area) && Crosses(line, p.area, dir) && !Wall(p, dir, line)
    ensures IsPane(p, k, t) && Nonempty(t) && Crosses(line, t, dir)
  {
    match p
    case Pane(area) => k, t := 0, area;
    case Halves(_, d, first, second) =>
      if Crosses(line, first.area, dir) && !Wall(first, dir, line) {
        k, t := HoleInWall(first, dir, line);
        IndexInside(first, k, t);
      } else {
        k, t := HoleInWall(second, dir, line);
        k := Count(first) + k;
      }
  }

  lemma {:induction false} IndexInside(p: Plan, k: nat, t: Rect)
    requires IsPane(p, k, t)
    ensures k < Count(p)
  {
    match p
    case Pane(_) =>
    case Halves(_, _, first, second) =>
      if k >= Count(first) {
        IndexInside(second, k - Count(first), t);
      }
  }

  /** The i-th pane is not empty and the line crosses it. */
  ghost predicate OnPane(p: Plan, i: nat, r: Rect, nav: NavDir, line: int) {
    LaidOut(p) && IsPane(p, i, r) && Nonempty(r) && Crosses(line, r, Along(nav))
  }

  /** Along an open line there is a pane beyond. */
  lemma {:induction false} OpensToPane(p: Plan, i: nat, r: Rect, nav: NavDir, line: int) returns (k: nat, t: Rect)
    requires OnPane(p, i, r, nav, line) && Opens(p, i, nav, line)
    ensures OnPane(p, k, t, nav, line) && IsBeyond(r, t, nav)
  {
    var Halves(_, d, first, second) := p;
    var n := Count(first);
    if i < n {
      PaneInside(first, i, r);
      if Opens(first, i, nav, line) {
        k, t := OpensToPane(first, i, r, nav, line);
        IndexInside(first, k, t);
      } else {
        k, t := HoleInWall(second, d, line);
        PaneInside(second, k, t);
        k := n + k;
      }
    } else {
      PaneInside(second, i - n, r);
      if Opens(second, i - n, nav, line) {
        k, t := OpensToPane(second, i - n, r, nav, line);
        k := n + k;
      } else {
        k, t := HoleInWall(first, d, line);
        PaneInside(first, k, t);
        IndexInside(first, k, t);
      }
    }
  }

  /** And a pane beyond on the same line means that the line is open. */
  lemma {:induction false} PaneBeyondOpens(p: Plan, i: nat, r: Rect, k: nat, t: Rect, nav: NavDir, line: int)
    requires OnPane(p, i, r, nav, line) && OnPane(p, k, t, nav, line) && IsBeyond(r, t, nav)
    ensures Opens(p, i, nav, line)
  {
    match p
    case Pane(_) =>
    case Halves(_, d, first, second) =>
      var n := Count(first);
      if i < n && k < n {
        PaneBeyondOpens(first, i, r, k, t, nav, line);
      } else if n <= i && n <= k {
        PaneBeyondOpens(second, i - n, r, k - n, t, nav, line);
      } else if i < n {
        PaneInside(first, i, r);
        PaneInside(second, k - n, t);
        if Wall(second, d, line) && Crosses(line, second.area, d) {
          WallStops(second, d, line, k - n, t);
        }
      } else {
        PaneInside(second, i - n, r);
        PaneInside(first, k, t);
        if Wall(first, d, line) && Crosses(line, first.area, d) {
          WallStops(first, d, line, k, t);
        }
      }
  }

  // ----- two neighbouring lines -----

  /** The outermost lines of an area are no walls. */
  lemma {:induction false} BorderIsNoWall(p: Plan, dir: Direction, line: int)
    requires LaidOut(p) && Nonempty(p.area) && (line == Lo(p.area, Other(dir)) || line == Hi(p.area, Other(dir)) - 1)
    ensures !Wall(p, dir, line)
  {
    match p
    case Pane(_) =>
    case Halves(_, d, first, second) =>
      if d == dir || line < Hi(first.area, d) {
        BorderIsNoWall(first, dir, line);
      } else {
        BorderIsNoWall(second, dir, line);
      }
  }

  /** Of two neighbouring lines at most one is a wall. */
  lemma {:induction false} NoTwoWalls(p: Plan, dir: Direction, line: int)
    requires LaidOut(p) && Nonempty(p.area) && Crosses(line, p.area, dir) && Crosses(line + 1, p.area, dir)
    ensures !Wall(p, dir, line) || !Wall(p, dir, line + 1)
  {
    match p
    case Pane(_) =>
    case Halves(_, d, first, second) =>
      if d == dir || line + 1 < Hi(first.area, d) {
        NoTwoWalls(first, dir, line);
      } else if line < Hi(first.area, d) {
        BorderIsNoWall(first, dir, line);
      } else if line == Hi(first.area, d) {
        BorderIsNoWall(second, dir, line + 1);
      } else {
        NoTwoWalls(second, dir, line);
      }
  }

  /** Short of the edge, one of two neighbouring lines of a pane is open. */
  lemma {:induction false} RoomOpens(p: Plan, i: nat, r: Rect, nav: NavDir, line: int)
    requires OnPane(p, i, r, nav, line) && Crosses(line + 1, r, Along(nav)) && RoomBeyond(r, p.area, nav)
    ensures Opens(p, i, nav, line) || Opens(p, i, nav, line + 1)
  {
    match p
    case Pane(_) =>
    case Halves(_, d, first, second) =>
      var n := Count(first);
      if i < n {
        PaneInside(first, i, r);
        if RoomBeyond(r, first.area, nav) {
          RoomOpens(first, i, r, nav, line);
        } else {
          NoTwoWalls(second, d, line);
        }
      } else {
        PaneInside(second, i - n, r);
        if RoomBeyond(r, second.area, nav) {
          RoomOpens(second, i - n, r, nav, line);
        } else {
          NoTwoWalls(first, d, line);
        }
      }
  }

  /** A pane at least two cells long has an open line exactly when it stops short of the edge. */
  lemma BroadOpens(p: Plan, i: nat, r: Rect, nav: NavDir)
    requires LaidOut(p) && IsPane(p, i, r) && BroadEnough(r, nav)
    ensures RoomBeyond(r, p.area, nav) <==> exists line :: Crosses(line, r, Along(nav)) && Opens(p, i, nav, line)
  {
    if RoomBeyond(r, p.area, nav) {
      RoomOpens(p, i, r, nav, Lo(r, Other(Along(nav))));
    }
    if line :| Crosses(line, r, Along(nav)) && Opens(p, i, nav, line) {
      var k, t := OpensToPane(p, i, r, nav, line);
      PaneInside(p, k, t);
    }
  }

  // ----- the pane across one separator -----

  /** Entering the area in this direction along this line, the first cell is a separator. */
  predicate EdgeGap(p: Plan, nav: NavDir, line: int) {
    match p
    case Pane(_) => false
    case Halves(_, d, first, second) =>
      if d == Along(nav) then
        if Forward(nav) || Lo(second.area, d) == Hi(second.area, d) then EdgeGap(first, nav, line)
        else EdgeGap(second, nav, line)
      else if line < Hi(first.area, d) then EdgeGap(first, nav, line)
      else line == Hi(first.area, d) || EdgeGap(second, nav, line)
  }

  /** The rectangle reaches the edge at which movement in this direction enters the area. */
  predicate AtEntry(t: Rect, area: Rect, nav: NavDir) {
    if Forward(nav) then Lo(t, Along(nav)) == Lo(area, Along(nav)) else Hi(t, Along(nav)) == Hi(area, Along(nav))
  }

  /** Whether the first cell on this line belongs to the first half. */
  predicate EntersFirst(p: Plan, nav: NavDir, line: int)
    requires p.Halves?
  {
    if p.dir == Along(nav) then Forward(nav) || Lo(p.second.area, p.dir) == Hi(p.second.area, p.dir)
    else line < Hi(p.first.area, p.dir)
  }

  lemma {:induction false} PaneAtEntry(p: Plan, nav: NavDir, line: int) returns (j: nat, t: Rect)
    requires LaidOut(p) && Nonempty(p.area) && Crosses(line, p.area, Along(nav)) && !EdgeGap(p, nav, line)
    ensures OnPane(p, j, t, nav, line) && AtEntry(t, p.area, nav)
  {
    match p
    case Pane(area) => j, t := 0, area;
    case Halves(_, _, first, second) =>
      if EntersFirst(p, nav, line) {
        j, t := PaneAtEntry(first, nav, line);
        IndexInside(first, j, t);
      } else {
        j, t := PaneAtEntry(second, nav, line);
        j := Count(first) + j;
      }
  }

  /** The corners of an area always belong to panes. */
  lemma {:induction false} CornerIsNoGap(p: Plan, nav: NavDir, line: int)
    requires LaidOut(p) && Nonempty(p.area)
    requires line == Lo(p.area, Other(Along(nav))) || line == Hi(p.area, Other(Along(nav))) - 1
    ensures !EdgeGap(p, nav, line)
  {
    match p
    case Pane(_) =>
    case Halves(_, _, first, second) =>
      if EntersFirst(p, nav, line) {
        CornerIsNoGap(first, nav, line);
      } else {
        CornerIsNoGap(second, nav, line);
      }
  }

  /** Along an edge no two neighbouring cells are both separators. */
  lemma {:induction false} NoTwoGaps(p: Plan, nav: NavDir, line: int)
    requires LaidOut(p) && Nonempty(p.area) && Crosses(line, p.area, Along(nav)) && Crosses(line + 1, p.area, Along(nav))
    ensures !EdgeGap(p, nav, line) || !EdgeGap(p, nav, line + 1)
  {
    match p
    case Pane(_) =>
    case Halves(_, d, first, second) =>
      if d == Along(nav) {
        if EntersFirst(p, nav, line) {
          NoTwoGaps(first, nav, line);
        } else {
          NoTwoGaps(second, nav, line);
        }
      } else if line + 1 < Hi(first.area, d) {
        NoTwoGaps(first, nav, line);
      } else if line < Hi(first.area, d) {
        CornerIsNoGap(first, nav, line);
      } else if line == Hi(first.area, d) {
        CornerIsNoGap(second, nav, line + 1);
      } else {
        NoTwoGaps(second, nav, line);
      }
  }

  /** Just beyond the pane begins a part of the area: one of its panes is one cell further on. */
  lemma AcrossGap(part: Plan, r: Rect, nav: NavDir, line: int) returns (j: nat, t: Rect, l: int)
    requires LaidOut(part) && Nonempty(part.area) && IsNext(r, part.area, nav)
    requires Crosses(line, r, Along(nav)) && Crosses(line + 1, r, Along(nav))
    requires Crosses(line, part.area, Along(nav)) && Crosses(line + 1, part.area, Along(nav))
    ensures OnPane(part, j, t, nav, l) && Crosses(l, r, Along(nav)) && IsNext(r, t, nav)
  {
    NoTwoGaps(part, nav, line);
    l := if EdgeGap(part, nav, line) then line + 1 else line;
    j, t := PaneAtEntry(part, nav, l);
  }

  /** A pane at least two cells long that stops short of the edge has a pane one separator further on. */
  lemma {:induction false} NextPane(p: Plan, i: nat, r: Rect, nav: NavDir, line: int) returns (j: nat, t: Rect, l: int)
    requires OnPane(p, i, r, nav, line) && Crosses(line + 1, r, Along(nav)) && RoomBeyond(r, p.area, nav)
    ensures OnPane(p, j, t, nav, l) && Crosses(l, r, Along(nav)) && IsNext(r, t, nav)
  {
    var Halves(_, d, first, second) := p;
    var n := Count(first);
    if i < n {
      PaneInside(first, i, r);
      if RoomBeyond(r, first.area, nav) {
        j, t, l := NextPane(first, i, r, nav, line);
        IndexInside(first, j, t);
      } else {
        j, t, l := AcrossGap(second, r, nav, line);
        j := n + j;
      }
    } else {
      PaneInside(second, i - n, r);
      if RoomBeyond(r, second.area, nav) {
        j, t, l := NextPane(second, i - n, r, nav, line);
        j := n + j;
      } else {
        j, t, l := AcrossGap(first, r, nav, line);
        IndexInside(first, j, t);
      }
    }
  }

  // ----- panes never touch -----

  ghost predicate ShareLine(r: Rect, t: Rect, dir: Direction) {
    Nonempty(r) && Nonempty(t) && Lo(r, Other(dir)) < Hi(t, Other(dir)) && Lo(t, Other(dir)) < Hi(r, Other(dir))
  }

  /** Two nonempty panes with a line in common have at least one cell between them. */
  lemma {:induction false} NeverTouch(p: Plan, i: nat, r: Rect, k: nat, t: Rect, dir: Direction)
    requires LaidOut(p) && IsPane(p, i, r) && IsPane(p, k, t) && ShareLine(r, t, dir)
    ensures Lo(t, dir) != Hi(r, dir)
  {
    match p
    case Pane(_) =>
    case Halves(area, d, first, second) =>
      var n := Count(first);
      if i < n && k < n {
        NeverTouch(first, i, r, k, t, dir);
      } else if n <= i && n <= k {
        NeverTouch(second, i - n, r, k - n, t, dir);
      } else if i < n {
        PaneInside(first, i, r);
        PaneInside(second, k - n, t);
        GapBetween(area, d, first.area, second.area, r, t, dir);
      } else {
        PaneInside(first, k, t);
        PaneInside(second, i - n, r);
        GapBetween(area, d, first.area, second.area, t, r, dir);
      }
  }

  lemma GapBetween(area: Rect, d: Direction, a1: Rect, a2: Rect, r: Rect, t: Rect, dir: Direction)
    requires Divides(area, d, a1, a2) && Inside(r, a1) && Inside(t, a2) && ShareLine(r, t, dir)
    ensures Hi(r, dir) < Lo(t, dir)
  {
  }
}
