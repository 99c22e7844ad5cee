/** Where the panes are after a split, a swap, or a split that is then equalized. */
module Placement {
  import opened Prelude
  import opened LayoutTree
  import opened Geometry
  import opened Sightlines

  /** The direction in which a split puts the new pane. */
  function Toward(dir: Direction): NavDir { if dir == Horizontal then NavDir.Right else NavDir.Down }

  // ----- a split on its own -----

  lemma DistinctParts(s: seq<nat>, t: seq<nat>)
    requires Distinct(s + t)
    ensures Distinct(s) && Distinct(t) && forall x :: x in s ==> x !in t
  {
    forall i, j | 0 <= i < j < |s| ensures s[i] != s[j] {
      assert (s + t)[i] == s[i] && (s + t)[j] == s[j];
    }
    forall i, j | 0 <= i < j < |t| ensures t[i] != t[j] {
      assert (s + t)[|s| + i] == t[i] && (s + t)[|s| + j] == t[j];
    }
    forall i, j | 0 <= i < |s| && 0 <= j < |t| ensures s[i] != t[j] {
      assert (s + t)[i] == s[i] && (s + t)[|s| + j] == t[j];
    }
  }

  /** `s` with two elements in place of the i-th. */
  function Spliced<T>(s: seq<T>, i: nat, a: T, b: T): seq<T>
    requires i < |s|
  {
    s[..i] + [a, b] + s[i + 1..]
  }

  lemma SplicedLeft<T>(s: seq<T>, t: seq<T>, i: nat, a: T, b: T)
    requires i < |s|
    ensures Spliced(s + t, i, a, b) == Spliced(s, i, a, b) + t && (s + t)[i] == s[i]
  {
  }

  lemma SplicedRight<T>(s: seq<T>, t: seq<T>, i: nat, a: T, b: T)
    requires i < |t|
    ensures Spliced(s + t, |s| + i, a, b) == s + Spliced(t, i, a, b) && (s + t)[|s| + i] == t[i]
  {
  }

  /** The leaves after the i-th one was halved. */
  function Halved(leaves: seq<Placed>, i: nat, newId: nat, dir: Direction, round: Rounding): seq<Placed>
    requires i < |leaves|
  {
    var (a1, a2) := SplitArea(leaves[i].rect, dir, Finite(0.5), round);
    Spliced(leaves, i, Placed(leaves[i].id, a1), Placed(newId, a2))
  }

  lemma HalvedLeft(s: seq<Placed>, t: seq<Placed>, i: nat, newId: nat, dir: Direction, round: Rounding)
    requires i < |s|
    ensures Halved(s + t, i, newId, dir, round) == Halved(s, i, newId, dir, round) + t
  {
    var (a1, a2) := SplitArea(s[i].rect, dir, Finite(0.5), round);
    SplicedLeft(s, t, i, Placed(s[i].id, a1), Placed(newId, a2));
  }

  lemma HalvedRight(s: seq<Placed>, t: seq<Placed>, i: nat, k: nat, newId: nat, dir: Direction, round: Rounding)
    requires k < |t| && i == |s| + k
    ensures Halved(s + t, i, newId, dir, round) == s + Halved(t, k, newId, dir, round)
  {
    var (a1, a2) := SplitArea(t[k].rect, dir, Finite(0.5), round);
    SplicedRight(s, t, k, Placed(t[k].id, a1), Placed(newId, a2));
  }

  /** Splitting halves the target's rectangle for the old and the new pane, and leaves every other rectangle alone. */
  lemma {:induction false} SplitHalves(
    node: Node, target: nat, newId: nat, dir: Direction, area: Rect, round: Rounding, i: nat)
    requires area.Fits() && Distinct(PaneIds(node)) && i < |PaneIds(node)| && PaneIds(node)[i] == target
    ensures Leaves(SplitNode(node, target, newId, dir), area, round) == Halved(Leaves(node, area, round), i, newId, dir, round)
  {
    match node
    case Leaf(_) =>
    case Split(d, ratio, first, second) =>
      var (b1, b2) := SplitArea(area, d, ratio, round);
      var (l1, l2) := (Leaves(first, b1, round), Leaves(second, b2, round));
      DistinctParts(PaneIds(first), PaneIds(second));
      if i < |l1| {
        SplitHalves(first, target, newId, dir, b1, round, i);
        SplitMisses(second, target, newId, dir);
        HalvedLeft(l1, l2, i, newId, dir, round);
      } else {
        var k := i - |l1|;
        SplitMisses(first, target, newId, dir);
        SplitHalves(second, target, newId, dir, b2, round, k);
        HalvedRight(l1, l2, i, k, newId, dir, round);
      }
  }

  /** The same extent across the direction, and the same position. */
  ghost predicate SameAcross(r: Rect, t: Rect, dir: Direction) {
    Lo(r, Other(dir)) == Lo(t, Other(dir)) && Hi(r, Other(dir)) == Hi(t, Other(dir))
  }

  /**
   * The second rectangle lies right of the first or below it, one separator away, and together they take up `was`; with
   * less than three cells along the direction the first takes all of it.
   */
  ghost predicate Adjoin(kept: Rect, added: Rect, was: Rect, dir: Direction) {
    && SameAcross(kept, was, dir) && SameAcross(added, was, dir) && Lo(kept, dir) == Lo(was, dir)
    && (if Hi(was, dir) - Lo(was, dir) >= 3
        then IsNext(kept, added, Toward(dir)) && Hi(added, dir) == Hi(was, dir)
             && Lo(kept, dir) < Hi(kept, dir) && Lo(added, dir) < Hi(added, dir)
        else kept == was && Lo(added, dir) == Hi(added, dir))
  }

  lemma HalvesAdjoin(area: Rect, dir: Direction, ratio: Ratio, round: Rounding)
    requires area.Fits()
    ensures var (a1, a2) := SplitArea(area, dir, ratio, round); Adjoin(a1, a2, area, dir)
  {
  }

  /** Every other element stays, those behind moving up by one. */
  ghost predicate OthersStay(leaves: seq<Placed>, after: seq<Placed>, i: nat) {
    && |after| == |leaves| + 1
    && (forall k :: 0 <= k < i < |leaves| ==> after[k] == leaves[k])
    && (forall k :: i < k < |leaves| ==> after[k + 1] == leaves[k])
  }

  lemma HalvedParts(leaves: seq<Placed>, i: nat, newId: nat, dir: Direction, round: Rounding)
    requires i < |leaves| && leaves[i].rect.Fits()
    ensures var after := Halved(leaves, i, newId, dir, round);
            && OthersStay(leaves, after, i)
            && after[i].id == leaves[i].id && after[i + 1].id == newId
            && Adjoin(after[i].rect, after[i + 1].rect, leaves[i].rect, dir)
  {
    HalvesAdjoin(leaves[i].rect, dir, Finite(0.5), round);
  }

  /**
   * A new pane appears next to its target, the two sharing the target's old rectangle along the direction and keeping
   * its extent across. Every other pane stays where it is.
   */
  lemma NewPaneIsNext(node: Node, target: nat, newId: nat, dir: Direction, area: Rect, round: Rounding, i: nat)
    requires area.Fits() && Distinct(PaneIds(node)) && i < |PaneIds(node)| && PaneIds(node)[i] == target
    ensures var (leaves, after) := (Leaves(node, area, round), Leaves(SplitNode(node, target, newId, dir), area, round));
            && OthersStay(leaves, after, i)
            && after[i].id == target && after[i + 1].id == newId
            && Adjoin(after[i].rect, after[i + 1].rect, leaves[i].rect, dir)
  {
    SplitHalves(node, target, newId, dir, area, round, i);
    LeafInside(node, area, round, i);
    HalvedParts(Leaves(node, area, round), i, newId, dir, round);
  }

  // ----- a split that is then equalized -----

  /** Somewhere in the tree the two panes are the halves of one split. */
  ghost predicate Siblings(node: Node, dir: Direction, a: nat, b: nat) {
    match node
    case Leaf(_) => false
    case Split(d, _, first, second) =>
      (d == dir && first == Leaf(a) && second == Leaf(b)) || Siblings(first, dir, a, b) || Siblings(second, dir, a, b)
  }

  lemma {:induction false} SplitMakesSiblings(node: Node, target: nat, newId: nat, dir: Direction)
    requires target in PaneIds(node)
    ensures Siblings(SplitNode(node, target, newId, dir), dir, target, newId)
  {
    match node
    case Leaf(_) =>
    case Split(_, _, first, second) =>
      if target in PaneIds(first) {
        SplitMakesSiblings(first, target, newId, dir);
      } else {
        SplitMakesSiblings(second, target, newId, dir);
      }
  }

  lemma {:induction false} EqualizeKeepsSiblings(node: Node, dir: Direction, a: nat, b: nat)
    requires Siblings(node, dir, a, b)
    ensures Siblings(EqualizeNode(node), dir, a, b)
  {
    var Split(_, _, first, second) := node;
    if Siblings(first, dir, a, b) {
      EqualizeKeepsSiblings(first, dir, a, b);
    } else if Siblings(second, dir, a, b) {
      EqualizeKeepsSiblings(second, dir, a, b);
    }
  }

  lemma {:induction false} SiblingsAdjoin(node: Node, dir: Direction, a: nat, b: nat, area: Rect, round: Rounding)
    returns (i: nat)
    requires area.Fits() && Siblings(node, dir, a, b)
    ensures var leaves := Leaves(node, area, round);
            && i + 1 < |leaves| && leaves[i].id == a && leaves[i + 1].id == b
            && SameAcross(leaves[i].rect, leaves[i + 1].rect, dir)
            && (Nonempty(leaves[i + 1].rect) ==> IsNext(leaves[i].rect, leaves[i + 1].rect, Toward(dir)))
  {
    var Split(d, ratio, first, second) := node;
    var (a1, a2) := SplitArea(area, d, ratio, round);
    if Siblings(first, dir, a, b) {
      i := SiblingsAdjoin(first, dir, a, b, a1, round);
    } else if Siblings(second, dir, a, b) {
      var k := SiblingsAdjoin(second, dir, a, b, a2, round);
      i := |Leaves(first, a1, round)| + k;
    } else {
      i := 0;
      HalvesAdjoin(area, dir, ratio, round);
    }
  }

  /** After `Layout.Split`, whatever the area, a new pane that is not empty is right of its target or below it. */
  lemma SplitPlacesNewPane(node: Node, target: nat, newId: nat, dir: Direction, area: Rect, round: Rounding)
    returns (i: nat)
    requires area.Fits() && target in PaneIds(node)
    ensures var leaves := Leaves(EqualizeNode(SplitNode(node, target, newId, dir)), area, round);
            && i + 1 < |leaves| && leaves[i].id == target && leaves[i + 1].id == newId
            && SameAcross(leaves[i].rect, leaves[i + 1].rect, dir)
            && (Nonempty(leaves[i + 1].rect) ==> IsNext(leaves[i].rect, leaves[i + 1].rect, Toward(dir)))
  {
    SplitMakesSiblings(node, target, newId, dir);
    EqualizeKeepsSiblings(SplitNode(node, target, newId, dir), dir, target, newId);
    i := SiblingsAdjoin(EqualizeNode(SplitNode(node, target, newId, dir)), dir, target, newId, area, round);
  }

  // ----- a swap -----

  /** Swapping two panes moves no rectangle: each takes the place of the other. */
  lemma {:induction false} SwapKeepsPlaces(node: Node, a: nat, b: nat, area: Rect, round: Rounding, i: nat)
    requires area.Fits() && i < |Leaves(node, area, round)|
    ensures |Leaves(SwapLeafIds(node, a, b), area, round)| == |Leaves(node, area, round)|
    ensures var (before, after) := (Leaves(node, area, round)[i], Leaves(SwapLeafIds(node, a, b), area, round)[i]);
            && after.rect == before.rect
            && after.id == if before.id == a then b else if before.id == b then a else before.id
  {
    match node
    case Leaf(_) =>
    case Split(d, ratio, first, second) =>
      var (a1, a2) := SplitArea(area, d, ratio, round);
      SwapIds(node, a, b);
      SwapIds(first, a, b);
      if i < |Leaves(first, a1, round)| {
        SwapKeepsPlaces(first, a, b, a1, round, i);
      } else {
        SwapKeepsPlaces(second, a, b, a2, round, i - |Leaves(first, a1, round)|);
      }
  }
}
