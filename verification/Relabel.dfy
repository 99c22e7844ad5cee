/** Fitting the running panes into the tree of a parsed layout spec. */
module Relabel {
  import opened LayoutTree
  import opened LayoutSpec

  /** A place in a tree: which child to take at each split, `true` for the second. */
  type Path = seq<bool>

  predicate HasPath(node: Node, path: Path) {
    path == [] || (node.Split? && HasPath(if path[0] then node.second else node.first, path[1..]))
  }

  function At(node: Node, path: Path): Node
    requires HasPath(node, path)
  {
    if path == [] then node else At(if path[0] then node.second else node.first, path[1..])
  }

  /** Overwrites the id of the leaf at a place. */
  function SetId(node: Node, path: Path, id: nat): Node
    requires HasPath(node, path) && At(node, path).Leaf?
  {
    if path == [] then Leaf(id)
    else if path[0] then node.(second := SetId(node.second, path[1..], id))
    else node.(first := SetId(node.first, path[1..], id))
  }

  /** How many leaves come before the subtree at a place. */
  function Start(node: Node, path: Path): nat
    requires HasPath(node, path)
  {
    if path == [] then 0
    else if path[0] then CountLeaves(node.first) + Start(node.second, path[1..])
    else Start(node.first, path[1..])
  }

  /** The same tree up to the leaf ids. */
  ghost predicate SameUpToIds(a: Node, b: Node) {
    match (a, b)
    case (Leaf(_), Leaf(_)) => true
    case (Split(d, r, f, s), Split(e, q, g, t)) => d == e && r == q && SameUpToIds(f, g) && SameUpToIds(s, t)
    case _ => false
  }

  /** The pending places, top of the stack last, cover the leaves from `k` on, in order. */
  ghost predicate CoversRest(shape: Node, pending: seq<Path>, k: nat) {
    if pending == [] then k == CountLeaves(shape)
    else
      var top := pending[|pending| - 1];
      && HasPath(shape, top) && Start(shape, top) == k
      && CoversRest(shape, pending[..|pending| - 1], k + CountLeaves(At(shape, top)))
  }

  /** Visits the places of the tree from a stack and hands out the ids in turn. */
  method RelabelLeaves(shape: Node, ids: seq<nat>) returns (root: Node)
    requires CountLeaves(shape) == |ids|
    ensures SameUpToIds(root, shape)
    ensures PaneIds(root) == ids
  {
    root := shape;
    var pending: seq<Path> := [[]];
    var k := 0;
    SameReflexive(shape);
    CountIsLength(shape);
    assert pending[..0] == [];
    while pending != []
      invariant k <= |ids| && SameUpToIds(root, shape) && |PaneIds(root)| == |ids|
      invariant CoversRest(shape, pending, k)
      invariant PaneIds(root)[..k] == ids[..k]
      decreases 2 * (|ids| - k) - |pending|
    {
      PendingNonempty(shape, pending, k);
      var path := pending[|pending| - 1];
      pending := pending[..|pending| - 1];
      SamePlaces(root, shape, path);
      StartInRange(shape, path);
      match At(root, path)
      case Leaf(_) =>
        SetIdUpdates(root, shape, path, ids[k]);
        root := SetId(root, path, ids[k]);
        k := k + 1;
      case Split(_, _, _, _) =>
        Descend(shape, path);
        assert (pending + [path + [true]])[..|pending|] == pending;
        assert (pending + [path + [true], path + [false]])[..|pending| + 1] == pending + [path + [true]];
        pending := pending + [path + [true], path + [false]];
    }
    assert PaneIds(root)[..k] == PaneIds(root) && ids[..k] == ids;
  }

  lemma {:induction false} SameReflexive(node: Node)
    ensures SameUpToIds(node, node)
  {
    match node
    case Leaf(_) =>
    case Split(_, _, first, second) => SameReflexive(first); SameReflexive(second);
  }

  lemma {:induction false} SameCounts(a: Node, b: Node)
    requires SameUpToIds(a, b)
    ensures CountLeaves(a) == CountLeaves(b)
  {
    match a
    case Leaf(_) =>
    case Split(_, _, first, second) => SameCounts(first, b.first); SameCounts(second, b.second);
  }

  lemma {:induction false} SamePlaces(a: Node, b: Node, path: Path)
    requires SameUpToIds(a, b) && HasPath(b, path)
    ensures HasPath(a, path) && (At(a, path).Leaf? <==> At(b, path).Leaf?)
  {
    if path != [] {
      if path[0] {
        SamePlaces(a.second, b.second, path[1..]);
      } else {
        SamePlaces(a.first, b.first, path[1..]);
      }
    }
  }

  lemma {:induction false} StartInRange(node: Node, path: Path)
    requires HasPath(node, path)
    ensures Start(node, path) + CountLeaves(At(node, path)) <= CountLeaves(node)
    ensures CountLeaves(At(node, path)) >= 1
  {
    CountPositive(At(node, path));
    if path != [] {
      StartInRange(if path[0] then node.second else node.first, path[1..]);
    }
  }

  /** The children of a place divide its leaves. */
  lemma {:induction false} Descend(node: Node, path: Path)
    requires HasPath(node, path) && At(node, path).Split?
    ensures HasPath(node, path + [false]) && At(node, path + [false]) == At(node, path).first
    ensures HasPath(node, path + [true]) && At(node, path + [true]) == At(node, path).second
    ensures Start(node, path + [false]) == Start(node, path)
    ensures Start(node, path + [true]) == Start(node, path) + CountLeaves(At(node, path).first)
  {
    if path != [] {
      Descend(if path[0] then node.second else node.first, path[1..]);
      assert (path + [false])[1..] == path[1..] + [false];
      assert (path + [true])[1..] == path[1..] + [true];
    }
  }

  lemma {:induction false} PendingNonempty(shape: Node, pending: seq<Path>, k: nat)
    requires CoversRest(shape, pending, k)
    ensures k + |pending| <= CountLeaves(shape)
  {
    if pending != [] {
      var top := pending[|pending| - 1];
      CountPositive(At(shape, top));
      PendingNonempty(shape, pending[..|pending| - 1], k + CountLeaves(At(shape, top)));
    }
  }

  /** Setting one leaf changes one position of the id sequence. */
  lemma {:induction false} SetIdUpdates(a: Node, b: Node, path: Path, id: nat)
    requires SameUpToIds(a, b) && HasPath(b, path) && HasPath(a, path) && At(a, path).Leaf?
    ensures SameUpToIds(SetId(a, path, id), b)
    ensures Start(b, path) < |PaneIds(a)|
    ensures PaneIds(SetId(a, path, id)) == PaneIds(a)[Start(b, path) := id]
  {
    if path != [] {
      SameCounts(a.first, b.first);
      CountIsLength(a.first);
      if path[0] {
        SetIdUpdates(a.second, b.second, path[1..], id);
      } else {
        SetIdUpdates(a.first, b.first, path[1..], id);
      }
    }
  }

  // ----- the result as a function -----

  /** The tree of `shape` with its leaves numbered by `ids`. */
  function WithIds(shape: Node, ids: seq<nat>): Node
    requires CountLeaves(shape) == |ids|
  {
    match shape
    case Leaf(_) => Leaf(ids[0])
    case Split(d, r, first, second) =>
      var n := CountLeaves(first);
      Split(d, r, WithIds(first, ids[..n]), WithIds(second, ids[n..]))
  }

  lemma {:induction false} WithIdsUnique(root: Node, shape: Node)
    requires SameUpToIds(root, shape)
    ensures CountLeaves(shape) == |PaneIds(root)| && root == WithIds(shape, PaneIds(root))
  {
    SameCounts(root, shape);
    CountIsLength(root);
    match shape
    case Leaf(_) =>
    case Split(_, _, first, second) =>
      WithIdsUnique(root.first, first);
      WithIdsUnique(root.second, second);
      assert PaneIds(root)[..CountLeaves(first)] == PaneIds(root.first);
      assert PaneIds(root)[CountLeaves(first)..] == PaneIds(root.second);
  }

  lemma {:induction false} WithIdsHasIds(shape: Node, ids: seq<nat>)
    requires CountLeaves(shape) == |ids|
    ensures PaneIds(WithIds(shape, ids)) == ids && SameUpToIds(WithIds(shape, ids), shape)
  {
    match shape
    case Leaf(_) =>
    case Split(_, _, first, second) =>
      var n := CountLeaves(first);
      WithIdsHasIds(first, ids[..n]);
      WithIdsHasIds(second, ids[n..]);
  }

  /** The spec parses and asks for exactly as many panes as there are. */
  predicate Suits(layout: LayoutState, spec: string) {
    FromSpec(spec).Ok? && CountLeaves(FromSpec(spec).value.root) == |PaneIds(layout.root)|
  }

  /** Reflows the panes of a layout into another tree; refuses, and changes nothing, unless the spec suits. */
  method ReconfigureLayout(layout: Layout, spec: string) returns (ok: bool)
    modifies layout
    ensures ok == Suits(old(layout.View()), spec)
    ensures layout.nextId == old(layout.nextId)
    ensures !ok ==> layout.root == old(layout.root)
    ensures ok ==> layout.root == WithIds(FromSpec(spec).value.root, PaneIds(old(layout.root)))
    ensures PaneIds(layout.root) == PaneIds(old(layout.root))
    ensures ok ==> SameUpToIds(layout.root, FromSpec(spec).value.root)
  {
    var candidate := FromSpec(spec);
    if candidate.Err? {
      return false;
    }
    var ids := PaneIds(layout.root);
    if CountLeaves(candidate.value.root) != |ids| {
      return false;
    }
    var root := RelabelLeaves(candidate.value.root, ids);
    WithIdsUnique(root, candidate.value.root);
    layout.root := root;
    return true;
  }
}
