/** How a split tree is laid out on a rectangle of terminal cells. */
module Geometry {
  import opened Prelude
  import opened LayoutTree

  type u16 = n: int | 0 <= n < 0x1_0000

  const U16_MAX: u16 := 0xFFFF

  /** The value of `((extent + 1) * ratio).round()`, whatever floating point makes of it. */
  type Rounding = (real, nat) -> int

  /** Rounding half up, which is what exact arithmetic would make of it. */
  function RoundHalfUp(r: real, extent: nat): int {
    ((extent + 1) as real * r + 0.5).Floor
  }

  datatype Rect = Rect(x: u16, y: u16, w: u16, h: u16) {

    /** Both exclusive edges are representable. */
    ghost predicate Fits() {
      x + w <= U16_MAX && y + h <= U16_MAX
    }

    function Clipped(): (r: Rect)
      ensures r.Fits() && (Fits() ==> r == this)
    {
      Rect(x, y, Min(w, U16_MAX - x), Min(h, U16_MAX - y))
    }

    predicate Has(px: u16, py: u16) {
      px >= x && px - x < w && py >= y && py - y < h
    }

    /** The exclusive edges; in range for every rectangle that fits. */
    function Right(): u16
      requires Fits()
    {
      x + w
    }

    function Bottom(): u16
      requires Fits()
    {
      y + h
    }
  }

  /** Rust's saturating `as u16`. */
  function CastU16(n: int): u16 {
    if n < 0 then 0 else if n > U16_MAX then U16_MAX else n
  }

  /** The share of the first child once there is room for two panes and a separator. */
  function FirstExtent(extent: u16, ratio: Ratio, round: Rounding): (first: u16)
    requires extent >= 3
    ensures 1 <= first <= extent - 2
  {
    var usable := extent - 1;
    var r := if ratio.Finite? then ratio.value else 0.5;
    Clamp(SatSub(CastU16(round(r, extent)), 1), 1, usable - 1)
  }

  /** Divides an area in two with one separator cell between; too small an area goes to the first child whole. */
  function SplitArea(whole: Rect, dir: Direction, ratio: Ratio, round: Rounding): (halves: (Rect, Rect))
    ensures halves.0.Fits() && halves.1.Fits()
  {
    var area := whole.Clipped();
    match dir
    case Horizontal =>
      var usable := SatSub(area.w, 1);
      if usable < 2 then (area, area.(w := 0))
      else
        var fw := FirstExtent(area.w, ratio, round);
        (area.(w := fw), area.(x := area.x + fw + 1, w := usable - fw))
    case Vertical =>
      var usable := SatSub(area.h, 1);
      if usable < 2 then (area, area.(h := 0))
      else
        var fh := FirstExtent(area.h, ratio, round);
        (area.(h := fh), area.(y := area.y + fh + 1, h := usable - fh))
  }

  // ----- content rectangles -----

  datatype Placed = Placed(id: nat, rect: Rect)

  /** Every leaf with its rectangle, in tree order. */
  function Leaves(node: Node, area: Rect, round: Rounding): (placed: seq<Placed>)
    ensures |placed| == |PaneIds(node)|
    ensures forall i :: 0 <= i < |placed| ==> placed[i].id == PaneIds(node)[i]
  {
    match node
    case Leaf(id) => [Placed(id, area)]
    case Split(dir, ratio, first, second) =>
      var (a1, a2) := SplitArea(area, dir, ratio, round);
      Leaves(first, a1, round) + Leaves(second, a2, round)
  }

  /** `out` after inserting each placed rectangle in turn. */
  function Overlay(out: map<nat, Rect>, placed: seq<Placed>): map<nat, Rect>
    decreases |placed|
  {
    if placed == [] then out else Overlay(out[placed[0].id := placed[0].rect], placed[1..])
  }

  method CollectRects(node: Node, area: Rect, round: Rounding, out: map<nat, Rect>) returns (filled: map<nat, Rect>)
    ensures filled == Overlay(out, Leaves(node, area, round))
  {
    match node
    case Leaf(id) =>
      filled := out[id := area];
    case Split(dir, ratio, first, second) =>
      var (a1, a2) := SplitArea(area, dir, ratio, round);
      filled := CollectRects(first, a1, round, out);
      filled := CollectRects(second, a2, round, filled);
      OverlayAppend(out, Leaves(first, a1, round), Leaves(second, a2, round));
  }

  function RectMap(node: Node, inner: Rect, round: Rounding): map<nat, Rect> {
    Overlay(map[], Leaves(node, inner.Clipped(), round))
  }

  method PaneRects(node: Node, inner: Rect, round: Rounding) returns (rects: map<nat, Rect>)
    ensures rects == RectMap(node, inner, round)
  {
    rects := CollectRects(node, inner.Clipped(), round, map[]);
  }

  lemma {:induction false} OverlayAppend(out: map<nat, Rect>, s: seq<Placed>, t: seq<Placed>)
    ensures Overlay(out, s + t) == Overlay(Overlay(out, s), t)
    decreases |s|
  {
    if s == [] {
      assert s + t == t;
    } else {
      assert (s + t)[1..] == s[1..] + t;
      OverlayAppend(out[s[0].id := s[0].rect], s[1..], t);
    }
  }

  lemma {:induction false} OverlayKeys(out: map<nat, Rect>, placed: seq<Placed>)
    ensures forall id :: id in Overlay(out, placed) <==>
              id in out || exists i :: 0 <= i < |placed| && placed[i].id == id
    ensures forall id :: id in out && (forall i :: 0 <= i < |placed| ==> placed[i].id != id) ==>
              Overlay(out, placed)[id] == out[id]
    decreases |placed|
  {
    if placed != [] {
      var next := out[placed[0].id := placed[0].rect];
      OverlayKeys(next, placed[1..]);
      forall id ensures id in Overlay(out, placed) <==>
                          id in out || exists i :: 0 <= i < |placed| && placed[i].id == id {
        if i :| 0 <= i < |placed[1..]| && placed[1..][i].id == id {
          assert placed[i + 1].id == id;
        }
        if i :| 0 <= i < |placed| && placed[i].id == id {
          assert i > 0 ==> placed[1..][i - 1].id == id;
        }
      }
    }
  }

  lemma {:induction false} OverlayLooksUp(out: map<nat, Rect>, placed: seq<Placed>, k: nat)
    requires k < |placed|
    requires forall i, j :: 0 <= i < j < |placed| ==> placed[i].id != placed[j].id
    ensures placed[k].id in Overlay(out, placed) && Overlay(out, placed)[placed[k].id] == placed[k].rect
    decreases k
  {
    var next := out[placed[0].id := placed[0].rect];
    if k == 0 {
      OverlayKeys(next, placed[1..]);
    } else {
      OverlayLooksUp(next, placed[1..], k - 1);
    }
  }

  /** With distinct ids the map holds exactly one rectangle per leaf: the one the leaf was given. */
  lemma RectMapIsLeaves(node: Node, inner: Rect, round: Rounding)
    requires Distinct(PaneIds(node))
    ensures RectMap(node, inner, round).Keys == Elems(PaneIds(node))
    ensures forall p :: p in Leaves(node, inner.Clipped(), round) ==>
              p.id in RectMap(node, inner, round) && RectMap(node, inner, round)[p.id] == p.rect
  {
    var placed := Leaves(node, inner.Clipped(), round);
    OverlayKeys(map[], placed);
    forall k | 0 <= k < |placed|
      ensures placed[k].id in RectMap(node, inner, round) && RectMap(node, inner, round)[placed[k].id] == placed[k].rect
    {
      OverlayLooksUp(map[], placed, k);
    }
    forall id ensures id in RectMap(node, inner, round).Keys <==> id in Elems(PaneIds(node)) {
      if id in PaneIds(node) {
        var i :| 0 <= i < |PaneIds(node)| && PaneIds(node)[i] == id;
        assert placed[i].id == id;
      }
    }
  }

  // ----- separator strips -----

  /** The one-cell strip a split leaves between its children, if there was room for one. */
  function Gap(area: Rect, dir: Direction, a1: Rect, a2: Rect): Option<Rect>
    requires area.Fits() && a1.Fits()
  {
    match dir
    case Horizontal => if a2.w > 0 then Some(Rect(a1.Right(), area.y, 1, area.h)) else None
    case Vertical => if a2.h > 0 then Some(Rect(area.x, a1.Bottom(), area.w, 1)) else None
  }

  function HitsOf(r: Rect, x: u16, y: u16): nat {
    if r.Has(x, y) then 1 else 0
  }

  /** How many panes cover the cell. */
  function PaneHits(node: Node, area: Rect, round: Rounding, x: u16, y: u16): nat {
    match node
    case Leaf(_) => HitsOf(area, x, y)
    case Split(dir, ratio, first, second) =>
      var (a1, a2) := SplitArea(area, dir, ratio, round);
      PaneHits(first, a1, round, x, y) + PaneHits(second, a2, round, x, y)
  }

  /** How many separator strips cover the cell. */
  function StripHits(node: Node, area: Rect, round: Rounding, x: u16, y: u16): nat
    requires area.Fits()
  {
    match node
    case Leaf(_) => 0
    case Split(dir, ratio, first, second) =>
      var (a1, a2) := SplitArea(area, dir, ratio, round);
      var gap := Gap(area, dir, a1, a2);
      (if gap.Some? then HitsOf(gap.value, x, y) else 0)
      + StripHits(first, a1, round, x, y) + StripHits(second, a2, round, x, y)
  }

  function Cells(r: Rect): int {
    Times(r.h, r.w)
  }

  /** The cells of all the rectangles together. */
  function TotalCells(placed: seq<Placed>): int {
    if placed == [] then 0 else Cells(placed[0].rect) + TotalCells(placed[1..])
  }

  /** The number of cells given to separators, summed strip by strip. */
  function StripCells(node: Node, area: Rect, round: Rounding): int
    requires area.Fits()
  {
    match node
    case Leaf(_) => 0
    case Split(dir, ratio, first, second) =>
      var (a1, a2) := SplitArea(area, dir, ratio, round);
      var gap := Gap(area, dir, a1, a2);
      (if gap.Some? then Cells(gap.value) else 0)
      + StripCells(first, a1, round) + StripCells(second, a2, round)
  }

  // ----- exact tiling -----

  /** What a division does to an area: the children and the gap line up along one axis, or the first takes all. */
  ghost predicate Divides(area: Rect, dir: Direction, a1: Rect, a2: Rect) {
    && area.Fits() && a1.Fits() && a2.Fits()
    && a1.x == area.x && a1.y == area.y
    && (dir == Horizontal ==>
          && a1.h == area.h && a2.h == area.h && a2.y == area.y
          && (if a2.w == 0 then a1 == area && a2.x == area.x
              else a1.w >= 1 && a2.x == a1.x + a1.w + 1 && a1.w + 1 + a2.w == area.w))
    && (dir == Vertical ==>
          && a1.w == area.w && a2.w == area.w && a2.x == area.x
          && (if a2.h == 0 then a1 == area && a2.y == area.y
              else a1.h >= 1 && a2.y == a1.y + a1.h + 1 && a1.h + 1 + a2.h == area.h))
  }

  lemma SplitDivides(area: Rect, dir: Direction, ratio: Ratio, round: Rounding)
    requires area.Fits()
    ensures Divides(area, dir, SplitArea(area, dir, ratio, round).0, SplitArea(area, dir, ratio, round).1)
  {
  }

  /** A ratio that is no finite number divides evenly. */
  lemma NonFiniteDividesEvenly(area: Rect, dir: Direction, round: Rounding)
    ensures SplitArea(area, dir, NonFinite, round) == SplitArea(area, dir, Finite(1.0 / 2.0), round)
  {
  }

  lemma GapArea(area: Rect, dir: Direction, a1: Rect, a2: Rect)
    requires Divides(area, dir, a1, a2)
    ensures var gap := Gap(area, dir, a1, a2);
            Cells(a1) + Cells(a2) + (if gap.Some? then Cells(gap.value) else 0) == Cells(area)
  {
    if dir == Horizontal {
      SideBySide(a1.w, a2.w, area.h);
    } else {
      OneBelowAnother(area.w, a1.h, a2.h);
    }
  }

  lemma {:induction false} SideBySide(a: nat, b: nat, h: nat)
    ensures Times(h, a) + Times(h, b) + Times(h, 1) == Times(h, a + b + 1) && Times(h, 0) == 0
  {
    if a > 0 {
      SideBySide(a - 1, b, h);
    } else {
      assert Times(h, b + 1) == h + Times(h, b) && Times(h, 1) == h + Times(h, 0);
    }
  }

  lemma {:induction false} OneBelowAnother(w: nat, a: nat, b: nat)
    ensures Times(a, w) + Times(b, w) + Times(1, w) == Times(a + b + 1, w) && Times(0, w) == 0
  {
    if w > 0 {
      OneBelowAnother(w - 1, a, b);
    }
  }

  /** Every cell of the area lies in exactly one pane or exactly one separator strip; no other cell in any. */
  lemma {:induction false} Partition(node: Node, area: Rect, round: Rounding, x: u16, y: u16)
    requires area.Fits()
    ensures PaneHits(node, area, round, x, y) + StripHits(node, area, round, x, y) == HitsOf(area, x, y)
  {
    match node
    case Leaf(_) =>
    case Split(dir, ratio, first, second) =>
      var (a1, a2) := SplitArea(area, dir, ratio, round);
      Partition(first, a1, round, x, y);
      Partition(second, a2, round, x, y);
      SplitDivides(area, dir, ratio, round);
  }

  lemma {:induction false} TotalAppend(s: seq<Placed>, t: seq<Placed>)
    ensures TotalCells(s + t) == TotalCells(s) + TotalCells(t)
  {
    if s == [] {
      assert s + t == t;
    } else {
      assert (s + t)[1..] == s[1..] + t;
      TotalAppend(s[1..], t);
    }
  }

  /** The cells of the panes and the cells of the strips add up to the whole area. */
  lemma {:induction false} AreaConserved(node: Node, area: Rect, round: Rounding)
    requires area.Fits()
    ensures TotalCells(Leaves(node, area, round)) + StripCells(node, area, round) == Cells(area)
  {
    match node
    case Leaf(id) => assert Leaves(node, area, round)[1..] == [];
    case Split(dir, ratio, first, second) =>
      var (a1, a2) := SplitArea(area, dir, ratio, round);
      AreaConserved(first, a1, round);
      AreaConserved(second, a2, round);
      TotalAppend(Leaves(first, a1, round), Leaves(second, a2, round));
      SplitDivides(area, dir, ratio, round);
      GapArea(area, dir, a1, a2);
  }

  /** A leaf that has the cell is counted. */
  lemma {:induction false} PaneHitsOne(node: Node, area: Rect, round: Rounding, x: u16, y: u16, i: nat)
    requires i < |Leaves(node, area, round)| && Leaves(node, area, round)[i].rect.Has(x, y)
    ensures PaneHits(node, area, round, x, y) >= 1
  {
    match node
    case Leaf(_) =>
    case Split(dir, ratio, first, second) =>
      var (a1, a2) := SplitArea(area, dir, ratio, round);
      var l1 := Leaves(first, a1, round);
      if i < |l1| {
        PaneHitsOne(first, a1, round, x, y, i);
      } else {
        PaneHitsOne(second, a2, round, x, y, i - |l1|);
      }
  }

  /** Two leaves that share the cell are both counted. */
  lemma {:induction false} PaneHitsTwo(node: Node, area: Rect, round: Rounding, x: u16, y: u16, i: nat, j: nat)
    requires i < j < |Leaves(node, area, round)|
    requires Leaves(node, area, round)[i].rect.Has(x, y) && Leaves(node, area, round)[j].rect.Has(x, y)
    ensures PaneHits(node, area, round, x, y) >= 2
  {
    match node
    case Leaf(_) =>
    case Split(dir, ratio, first, second) =>
      var (a1, a2) := SplitArea(area, dir, ratio, round);
      var l1 := Leaves(first, a1, round);
      if j < |l1| {
        PaneHitsTwo(first, a1, round, x, y, i, j);
      } else if |l1| <= i {
        PaneHitsTwo(second, a2, round, x, y, i - |l1|, j - |l1|);
      } else {
        PaneHitsOne(first, a1, round, x, y, i);
        PaneHitsOne(second, a2, round, x, y, j - |l1|);
      }
  }

  ghost predicate Inside(r: Rect, area: Rect) {
    area.x <= r.x && r.x + r.w <= area.x + area.w && area.y <= r.y && r.y + r.h <= area.y + area.h
  }

  lemma {:induction false} LeafInside(node: Node, area: Rect, round: Rounding, i: nat)
    requires area.Fits() && i < |Leaves(node, area, round)|
    ensures Inside(Leaves(node, area, round)[i].rect, area)
  {
    match node
    case Leaf(_) =>
    case Split(dir, ratio, first, second) =>
      var (a1, a2) := SplitArea(area, dir, ratio, round);
      if i < |Leaves(first, a1, round)| {
        LeafInside(first, a1, round, i);
      } else {
        LeafInside(second, a2, round, i - |Leaves(first, a1, round)|);
      }
  }

  ghost predicate AllFit(rects: map<nat, Rect>) {
    forall id :: id in rects ==> rects[id].Fits()
  }

  lemma {:induction false} OverlayFits(out: map<nat, Rect>, placed: seq<Placed>)
    requires AllFit(out) && forall p :: p in placed ==> p.rect.Fits()
    ensures AllFit(Overlay(out, placed))
    decreases |placed|
  {
    if placed != [] {
      OverlayFits(out[placed[0].id := placed[0].rect], placed[1..]);
    }
  }

  lemma RectMapFits(node: Node, inner: Rect, round: Rounding)
    ensures AllFit(RectMap(node, inner, round))
  {
    var placed := Leaves(node, inner.Clipped(), round);
    forall i | 0 <= i < |placed| ensures placed[i].rect.Fits() {
      LeafInside(node, inner.Clipped(), round, i);
    }
    OverlayFits(map[], placed);
  }

  /** Exact tiling, for any rectangle: panes are disjoint, stay inside the clipped area, and with the strips fill it. */
  lemma ExactTiling(node: Node, inner: Rect, round: Rounding)
    ensures var area := inner.Clipped(); var leaves := Leaves(node, area, round);
            && (forall i :: 0 <= i < |leaves| ==> Inside(leaves[i].rect, area))
            && (forall i, j, x: u16, y: u16 :: 0 <= i < j < |leaves| ==> !(leaves[i].rect.Has(x, y) && leaves[j].rect.Has(x, y)))
            && TotalCells(leaves) + StripCells(node, area, round) == area.w * area.h
  {
    var area := inner.Clipped();
    var leaves := Leaves(node, area, round);
    AreaConserved(node, area, round);
    TimesIs(area.h, area.w);
    forall i | 0 <= i < |leaves| ensures Inside(leaves[i].rect, area) {
      LeafInside(node, area, round, i);
    }
    forall i, j, x: u16, y: u16 | 0 <= i < j < |leaves|
      ensures !(leaves[i].rect.Has(x, y) && leaves[j].rect.Has(x, y))
    {
      Partition(node, area, round, x, y);
      if leaves[i].rect.Has(x, y) && leaves[j].rect.Has(x, y) {
        PaneHitsTwo(node, area, round, x, y, i, j);
        assert false;
      }
    }
  }

  // ----- hit testing -----

  function FindAtNode(node: Node, x: u16, y: u16, area: Rect, round: Rounding): Option<nat> {
    match node
    case Leaf(id) => if area.Has(x, y) then Some(id) else None
    case Split(dir, ratio, first, second) =>
      var (a1, a2) := SplitArea(area, dir, ratio, round);
      var hit := FindAtNode(first, x, y, a1, round);
      if hit.Some? then hit else FindAtNode(second, x, y, a2, round)
  }

  function FindAt(node: Node, x: u16, y: u16, inner: Rect, round: Rounding): Option<nat> {
    FindAtNode(node, x, y, inner.Clipped(), round)
  }

  lemma {:induction false} HitIsLeaf(node: Node, x: u16, y: u16, area: Rect, round: Rounding) returns (i: nat)
    requires FindAtNode(node, x, y, area, round).Some?
    ensures i < |Leaves(node, area, round)|
    ensures Leaves(node, area, round)[i].id == FindAtNode(node, x, y, area, round).value
    ensures Leaves(node, area, round)[i].rect.Has(x, y)
  {
    match node
    case Leaf(_) => i := 0;
    case Split(dir, ratio, first, second) =>
      var (a1, a2) := SplitArea(area, dir, ratio, round);
      if FindAtNode(first, x, y, a1, round).Some? {
        i := HitIsLeaf(first, x, y, a1, round);
      } else {
        i := HitIsLeaf(second, x, y, a2, round);
        i := |Leaves(first, a1, round)| + i;
      }
  }

  /** The descent finds a leaf under the cell, and misses only when no leaf covers it. */
  lemma FindAtFindsLeaf(node: Node, x: u16, y: u16, area: Rect, round: Rounding)
    requires area.Fits()
    ensures var hit := FindAtNode(node, x, y, area, round); var leaves := Leaves(node, area, round);
            if hit.Some? then exists i :: 0 <= i < |leaves| && leaves[i].id == hit.value && leaves[i].rect.Has(x, y)
            else forall i :: 0 <= i < |leaves| ==> !leaves[i].rect.Has(x, y)
  {
    if FindAtNode(node, x, y, area, round).Some? {
      var i := HitIsLeaf(node, x, y, area, round);
    } else {
      FindAtCounts(node, x, y, area, round);
      forall i | 0 <= i < |Leaves(node, area, round)| ensures !Leaves(node, area, round)[i].rect.Has(x, y) {
        if Leaves(node, area, round)[i].rect.Has(x, y) {
          PaneHitsOne(node, area, round, x, y, i);
        }
      }
    }
  }

  /** The leaf whose rectangle holds the cell is the one the descent finds. */
  lemma OnlyHit(node: Node, x: u16, y: u16, area: Rect, round: Rounding, i: nat)
    requires area.Fits() && i < |Leaves(node, area, round)| && Leaves(node, area, round)[i].rect.Has(x, y)
    ensures FindAtNode(node, x, y, area, round) == Some(Leaves(node, area, round)[i].id)
  {
    PaneHitsOne(node, area, round, x, y, i);
    FindAtCounts(node, x, y, area, round);
    var k := HitIsLeaf(node, x, y, area, round);
    Partition(node, area, round, x, y);
    if i < k { PaneHitsTwo(node, area, round, x, y, i, k); }
    if k < i { PaneHitsTwo(node, area, round, x, y, k, i); }
  }

  /** Clicking agrees with drawing: the pane found at a cell is the one whose rectangle holds the cell. */
  lemma HitTestAgreement(node: Node, x: u16, y: u16, inner: Rect, round: Rounding)
    requires Distinct(PaneIds(node))
    ensures forall id :: FindAt(node, x, y, inner, round) == Some(id) <==>
              id in RectMap(node, inner, round) && RectMap(node, inner, round)[id].Has(x, y)
    ensures FindAt(node, x, y, inner, round) == None <==>
              !inner.Clipped().Has(x, y) || StripHits(node, inner.Clipped(), round, x, y) == 1
  {
    var area := inner.Clipped();
    var leaves := Leaves(node, area, round);
    FindAtCounts(node, x, y, area, round);
    Partition(node, area, round, x, y);
    RectMapIsLeaves(node, inner, round);
    if FindAt(node, x, y, inner, round).Some? {
      var k := HitIsLeaf(node, x, y, area, round);
      assert leaves[k] in leaves;
    }
    forall id | id in RectMap(node, inner, round) && RectMap(node, inner, round)[id].Has(x, y)
      ensures FindAt(node, x, y, inner, round) == Some(id)
    {
      var i :| 0 <= i < |PaneIds(node)| && PaneIds(node)[i] == id;
      assert leaves[i] in leaves;
      OnlyHit(node, x, y, area, round, i);
    }
  }

  lemma {:induction false} FindAtCounts(node: Node, x: u16, y: u16, area: Rect, round: Rounding)
    ensures FindAtNode(node, x, y, area, round).Some? <==> PaneHits(node, area, round, x, y) > 0
  {
    match node
    case Leaf(_) =>
    case Split(dir, ratio, first, second) =>
      var (a1, a2) := SplitArea(area, dir, ratio, round);
      FindAtCounts(first, x, y, a1, round);
      FindAtCounts(second, x, y, a2, round);
  }
}
