/** The separator lines drawn between panes. */
module Separators {
  import opened Prelude
  import opened LayoutTree
  import opened Geometry

  datatype SepLine = SepLine(horizontal: bool, x: u16, y: u16, length: u16)

  /** A vertical line at `sx`, one cell past the area at both ends, clipped to `outer`. */
  function VLine(sx: u16, area: Rect, outer: Rect): SepLine
    requires area.Fits() && outer.Fits() && outer.Has(sx, area.y) && area.h > 0
  {
    var y0 := Max(SatSub(area.y, 1), outer.y);
    var y1 := Min(area.Bottom(), outer.Bottom() - 1);
    SepLine(false, sx, y0, SatSub(y1, y0) + 1)
  }

  function HLine(sy: u16, area: Rect, outer: Rect): SepLine
    requires area.Fits() && outer.Fits() && outer.Has(area.x, sy) && area.w > 0
  {
    var x0 := Max(SatSub(area.x, 1), outer.x);
    var x1 := Min(area.Right(), outer.Right() - 1);
    SepLine(true, x0, sy, SatSub(x1, x0) + 1)
  }

  /** The line of one split, if it has a gap whose start is visible. */
  function OwnLine(dir: Direction, a1: Rect, a2: Rect, area: Rect, outer: Rect): seq<SepLine>
    requires area.Fits() && outer.Fits() && a1.Fits() && area.w > 0 && area.h > 0
  {
    match dir
    case Horizontal =>
      if a2.w > 0 && outer.Has(a1.Right(), area.y) then [VLine(a1.Right(), area, outer)] else []
    case Vertical =>
      if a2.h > 0 && outer.Has(area.x, a1.Bottom()) then [HLine(a1.Bottom(), area, outer)] else []
  }

  function Lines(node: Node, area: Rect, outer: Rect, round: Rounding): seq<SepLine>
    requires area.Fits() && outer.Fits()
  {
    if area.w == 0 || area.h == 0 || outer.w == 0 || outer.h == 0 then []
    else
      match node
      case Leaf(_) => []
      case Split(dir, ratio, first, second) =>
        var (a1, a2) := SplitArea(area, dir, ratio, round);
        OwnLine(dir, a1, a2, area, outer) + (Lines(first, a1, outer, round) + Lines(second, a2, outer, round))
  }

  method CollectSeps(node: Node, area: Rect, outer: Rect, round: Rounding, seps: seq<SepLine>)
    returns (all: seq<SepLine>)
    requires area.Fits() && outer.Fits()
    ensures all == seps + Lines(node, area, outer, round)
  {
    all := seps;
    if area.w == 0 || area.h == 0 || outer.w == 0 || outer.h == 0 {
      return;
    }
    match node
    case Leaf(_) =>
    case Split(dir, ratio, first, second) =>
      var (a1, a2) := SplitArea(area, dir, ratio, round);
      var own := OwnLine(dir, a1, a2, area, outer);
      all := CollectSeps(first, a1, outer, round, seps + own);
      all := CollectSeps(second, a2, outer, round, all);
      Regroup(seps, own, Lines(first, a1, outer, round), Lines(second, a2, outer, round));
  }

  predicate OnLine(l: SepLine, x: u16, y: u16) {
    if l.horizontal then y == l.y && l.x <= x < l.x + l.length
    else x == l.x && l.y <= y < l.y + l.length
  }

  /** The cells directly above, below, left and right of an area. */
  ghost predicate Halo(area: Rect, x: u16, y: u16) {
    || (area.x <= x < area.x + area.w && (y == area.y - 1 || y == area.y + area.h))
    || (area.y <= y < area.y + area.h && (x == area.x - 1 || x == area.x + area.w))
  }

  lemma OwnLineCells(dir: Direction, a1: Rect, a2: Rect, area: Rect, outer: Rect, x: u16, y: u16)
    requires Divides(area, dir, a1, a2) && outer.Fits() && area.w > 0 && area.h > 0
    requires OwnLine(dir, a1, a2, area, outer) != [] && OnLine(OwnLine(dir, a1, a2, area, outer)[0], x, y)
    ensures outer.Has(x, y)
    ensures Gap(area, dir, a1, a2).Some?
    ensures Gap(area, dir, a1, a2).value.Has(x, y) || Halo(area, x, y)
  {
  }

  lemma HaloOfChild(dir: Direction, a1: Rect, a2: Rect, area: Rect, x: u16, y: u16)
    requires Divides(area, dir, a1, a2)
    requires (a1.w > 0 && a1.h > 0 && Halo(a1, x, y)) || (a2.w > 0 && a2.h > 0 && Halo(a2, x, y))
    ensures Halo(area, x, y) || (Gap(area, dir, a1, a2).Some? && Gap(area, dir, a1, a2).value.Has(x, y))
  {
  }

  /** A drawn cell is visible, and is a gap of the tree or just outside its area. */
  lemma {:induction false} LinesKeepToGaps(node: Node, area: Rect, outer: Rect, round: Rounding, l: SepLine, x: u16, y: u16)
    requires area.Fits() && outer.Fits()
    requires l in Lines(node, area, outer, round) && OnLine(l, x, y)
    ensures outer.Has(x, y)
    ensures StripHits(node, area, round, x, y) > 0 || Halo(area, x, y)
  {
    match node
    case Leaf(_) =>
    case Split(dir, ratio, first, second) =>
      var (a1, a2) := SplitArea(area, dir, ratio, round);
      SplitDivides(area, dir, ratio, round);
      if l in OwnLine(dir, a1, a2, area, outer) {
        OwnLineCells(dir, a1, a2, area, outer, x, y);
      } else if l in Lines(first, a1, outer, round) {
        LinesKeepToGaps(first, a1, outer, round, l, x, y);
        if Halo(a1, x, y) { HaloOfChild(dir, a1, a2, area, x, y); }
      } else {
        LinesKeepToGaps(second, a2, outer, round, l, x, y);
        if Halo(a2, x, y) { HaloOfChild(dir, a1, a2, area, x, y); }
      }
  }

  /** When the area is visible, every gap cell lies on a line. */
  lemma {:induction false} GapsAreDrawn(node: Node, area: Rect, outer: Rect, round: Rounding, x: u16, y: u16)
    returns (l: SepLine)
    requires area.Fits() && outer.Fits() && Inside(area, outer)
    requires StripHits(node, area, round, x, y) > 0
    ensures l in Lines(node, area, outer, round) && OnLine(l, x, y)
  {
    Partition(node, area, round, x, y);
    var Split(dir, ratio, first, second) := node;
    var (a1, a2) := SplitArea(area, dir, ratio, round);
    SplitDivides(area, dir, ratio, round);
    var gap := Gap(area, dir, a1, a2);
    if gap.Some? && gap.value.Has(x, y) {
      l := OwnLine(dir, a1, a2, area, outer)[0];
    } else if StripHits(first, a1, round, x, y) > 0 {
      l := GapsAreDrawn(first, a1, outer, round, x, y);
    } else {
      Partition(second, a2, round, x, y);
      l := GapsAreDrawn(second, a2, outer, round, x, y);
    }
  }

  /** Every cell of every drawn line lies inside the clipped outer rectangle. */
  lemma SeparatorsInsideOuter(node: Node, inner: Rect, outer: Rect, round: Rounding, l: SepLine, x: u16, y: u16)
    requires l in Lines(node, inner.Clipped(), outer.Clipped(), round) && OnLine(l, x, y)
    ensures outer.Clipped().Has(x, y)
  {
    LinesKeepToGaps(node, inner.Clipped(), outer.Clipped(), round, l, x, y);
  }

  /** Inside the content area the drawn cells are exactly the cells no pane covers. */
  lemma SeparatorsFillTheGaps(node: Node, inner: Rect, outer: Rect, round: Rounding, x: u16, y: u16)
    requires Inside(inner.Clipped(), outer.Clipped()) && inner.Clipped().Has(x, y)
    ensures (exists l :: l in Lines(node, inner.Clipped(), outer.Clipped(), round) && OnLine(l, x, y))
       <==> PaneHits(node, inner.Clipped(), round, x, y) == 0
  {
    var (area, out) := (inner.Clipped(), outer.Clipped());
    Partition(node, area, round, x, y);
    if l :| l in Lines(node, area, out, round) && OnLine(l, x, y) {
      LinesKeepToGaps(node, area, out, round, l, x, y);
    }
    if PaneHits(node, area, round, x, y) == 0 {
      var l := GapsAreDrawn(node, area, out, round, x, y);
    }
  }

  /** The gap of a split, and the one cell beyond each of its ends, where it meets what runs across. */
  ghost predicate GapAndEnds(area: Rect, dir: Direction, a1: Rect, a2: Rect, x: u16, y: u16)
    requires area.Fits() && a1.Fits()
  {
    var gap := Gap(area, dir, a1, a2);
    && area.w > 0 && area.h > 0 && gap.Some?
    && (if dir == Horizontal then x == gap.value.x && area.y - 1 <= y <= area.y + area.h
        else y == gap.value.y && area.x - 1 <= x <= area.x + area.w)
  }

  lemma OwnLineExactly(dir: Direction, a1: Rect, a2: Rect, area: Rect, outer: Rect, x: u16, y: u16)
    requires Divides(area, dir, a1, a2) && outer.Fits() && Inside(area, outer) && area.w > 0 && area.h > 0
    ensures var own := OwnLine(dir, a1, a2, area, outer);
            (own != [] && OnLine(own[0], x, y)) <==> outer.Has(x, y) && GapAndEnds(area, dir, a1, a2, x, y)
  {
  }

  /** Some gap of the tree, or an end of one, is at this cell. */
  ghost predicate Reached(node: Node, area: Rect, round: Rounding, x: u16, y: u16)
    requires area.Fits()
  {
    match node
    case Leaf(_) => false
    case Split(dir, ratio, first, second) =>
      var (a1, a2) := SplitArea(area, dir, ratio, round);
      GapAndEnds(area, dir, a1, a2, x, y) || Reached(first, a1, round, x, y) || Reached(second, a2, round, x, y)
  }

  ghost predicate Drawn(lines: seq<SepLine>, x: u16, y: u16) {
    exists l :: l in lines && OnLine(l, x, y)
  }

  lemma DrawnParts(s: seq<SepLine>, t: seq<SepLine>, u: seq<SepLine>, x: u16, y: u16)
    ensures Drawn(s + (t + u), x, y) <==> Drawn(s, x, y) || Drawn(t, x, y) || Drawn(u, x, y)
  {
    forall l ensures l in s + (t + u) <==> l in s || l in t || l in u {
    }
  }

  lemma {:induction false} NothingInNothing(node: Node, area: Rect, round: Rounding, x: u16, y: u16)
    requires area.Fits() && (area.w == 0 || area.h == 0)
    ensures !Reached(node, area, round, x, y)
  {
    match node
    case Leaf(_) =>
    case Split(dir, ratio, first, second) =>
      var (a1, a2) := SplitArea(area, dir, ratio, round);
      SplitDivides(area, dir, ratio, round);
      NothingInNothing(first, a1, round, x, y);
      NothingInNothing(second, a2, round, x, y);
  }

  /** Where the area is visible, exactly the gaps and their ends are drawn, as far as they are visible themselves. */
  lemma {:induction false} GapsAndEndsAreDrawn(node: Node, area: Rect, outer: Rect, round: Rounding, x: u16, y: u16)
    requires area.Fits() && outer.Fits() && Inside(area, outer)
    ensures Drawn(Lines(node, area, outer, round), x, y) <==> outer.Has(x, y) && Reached(node, area, round, x, y)
  {
    if area.w == 0 || area.h == 0 {
      NothingInNothing(node, area, round, x, y);
    } else if node.Split? {
      var Split(dir, ratio, first, second) := node;
      var (a1, a2) := SplitArea(area, dir, ratio, round);
      SplitDivides(area, dir, ratio, round);
      GapsAndEndsAreDrawn(first, a1, outer, round, x, y);
      GapsAndEndsAreDrawn(second, a2, outer, round, x, y);
      OwnLineExactly(dir, a1, a2, area, outer, x, y);
      DrawnParts(OwnLine(dir, a1, a2, area, outer), Lines(first, a1, outer, round), Lines(second, a2, outer, round), x, y);
    }
  }
}
