/** The binary split tree of a tab, and the operations that reshape it. */
module LayoutTree {
  import opened Prelude

  datatype Direction =
    | Horizontal  // side by side
    | Vertical    // one above the other

  /** A stored split ratio: a finite number, or an infinity or NaN read from elsewhere. */
  datatype Ratio = Finite(value: real) | NonFinite

  datatype Node =
    | Leaf(id: nat)
    | Split(dir: Direction, ratio: Ratio, first: Node, second: Node)

  /** A tree together with the next id to hand out. */
  datatype LayoutState = LayoutState(root: Node, nextId: nat)

  // ----- queries -----

  /** Leaf ids in tree order. */
  function PaneIds(node: Node): (ids: seq<nat>)
    ensures |ids| >= 1
  {
    match node
    case Leaf(id) => [id]
    case Split(_, _, first, second) => PaneIds(first) + PaneIds(second)
  }

  function CountLeaves(node: Node): nat {
    match node
    case Leaf(_) => 1
    case Split(_, _, first, second) => CountLeaves(first) + CountLeaves(second)
  }

  predicate Contains(node: Node, target: nat) {
    match node
    case Leaf(id) => id == target
    case Split(_, _, first, second) => Contains(first, target) || Contains(second, target)
  }

  // ----- reshaping -----

  function EqualizeNode(node: Node): Node {
    match node
    case Leaf(_) => node
    case Split(dir, _, first, second) =>
      var left := CountLeaves(first);
      var total := left + CountLeaves(second);
      CountPositive(first);
      Split(dir, Finite(left as real / total as real), EqualizeNode(first), EqualizeNode(second))
  }

  function SplitNode(node: Node, target: nat, newId: nat, dir: Direction): Node {
    match node
    case Leaf(id) => if id == target then Split(dir, Finite(0.5), Leaf(id), Leaf(newId)) else node
    case Split(d, r, first, second) =>
      Split(d, r, SplitNode(first, target, newId, dir), SplitNode(second, target, newId, dir))
  }

  function RemoveNode(node: Node, target: nat): Option<Node> {
    match node
    case Leaf(id) => if id == target then None else Some(node)
    case Split(d, r, first, second) =>
      if Contains(first, target) then
        match RemoveNode(first, target)
        case Some(f) => Some(Split(d, r, f, second))
        case None => Some(second)
      else if Contains(second, target) then
        match RemoveNode(second, target)
        case Some(s) => Some(Split(d, r, first, s))
        case None => Some(first)
      else Some(node)
  }

  function SwapLeafIds(node: Node, a: nat, b: nat): Node {
    match node
    case Leaf(id) => if id == a then Leaf(b) else if id == b then Leaf(a) else node
    case Split(d, r, first, second) => Split(d, r, SwapLeafIds(first, a, b), SwapLeafIds(second, a, b))
  }

  // ----- the owner of a tree -----

  class Layout {
    var root: Node
    var nextId: nat

    constructor (root: Node, nextId: nat)
      ensures this.root == root && this.nextId == nextId
    {
      this.root := root;
      this.nextId := nextId;
    }

    function View(): LayoutState
      reads this
    {
      LayoutState(root, nextId)
    }

    /** Splits the target pane, numbers the new pane, and equalizes. */
    method Split(target: nat, dir: Direction) returns (newId: nat)
      modifies this
      ensures newId == old(nextId) && nextId == old(nextId) + 1
      ensures root == EqualizeNode(SplitNode(old(root), target, newId, dir))
    {
      newId := nextId;
      nextId := nextId + 1;
      root := SplitNode(root, target, newId, dir);
      Equalize();
    }

    method Equalize()
      modifies this`root
      ensures root == EqualizeNode(old(root))
    {
      root := EqualizeNode(root);
    }

    /** Removes a pane and collapses its parent; refuses the last pane and unknown ids. */
    method Remove(target: nat) returns (removed: bool)
      modifies this`root
      ensures removed == (CountLeaves(old(root)) > 1 && target in PaneIds(old(root)))
      ensures PaneIds(root) == if removed then WithoutFirst(PaneIds(old(root)), target) else PaneIds(old(root))
      ensures root == if removed then RemoveNode(old(root), target).value else old(root)
    {
      ContainsIsMembership(root, target);
      if CountLeaves(root) <= 1 || !Contains(root, target) {
        return false;
      }
      RemoveDropsOne(root, target);
      match RemoveNode(root, target)
      case Some(newRoot) =>
        root := newRoot;
        return true;
      case None =>
        assert false;
        return false;
    }

    /** As `Remove`, but answers with the detached id. */
    method DetachLeaf(target: nat) returns (detached: Option<nat>)
      modifies this`root
      ensures detached == if CountLeaves(old(root)) > 1 && target in PaneIds(old(root)) then Some(target) else None
      ensures PaneIds(root) == if detached.Some? then WithoutFirst(PaneIds(old(root)), target) else PaneIds(old(root))
    {
      var removed := Remove(target);
      return if removed then Some(target) else None;
    }

    /** Places an existing pane after `anchor`; refuses an unknown anchor and an id already present. */
    method AttachPane(anchor: nat, incoming: nat, dir: Direction) returns (attached: bool)
      modifies this
      ensures attached == (anchor in PaneIds(old(root)) && incoming !in PaneIds(old(root)))
      ensures !attached ==> root == old(root) && nextId == old(nextId)
      ensures attached ==> root == EqualizeNode(SplitNode(old(root), anchor, incoming, dir))
      ensures attached ==> nextId == Max(old(nextId), incoming + 1)
    {
      ContainsIsMembership(root, anchor);
      ContainsIsMembership(root, incoming);
      if !Contains(root, anchor) || Contains(root, incoming) {
        return false;
      }
      root := SplitNode(root, anchor, incoming, dir);
      if incoming >= nextId {
        nextId := incoming + 1;
      }
      Equalize();
      return true;
    }

    method SwapPanes(a: nat, b: nat)
      modifies this`root
      ensures PaneIds(root) == Swapped(PaneIds(old(root)), a, b)
      ensures SwapLeafIds(root, a, b) == old(root)
    {
      SwapIds(root, a, b);
      SwapTwice(root, a, b);
      root := SwapLeafIds(root, a, b);
    }
  }

  // ----- basic facts -----

  lemma {:induction false} CountPositive(node: Node)
    ensures CountLeaves(node) >= 1
  {
    match node
    case Leaf(_) =>
    case Split(_, _, first, second) => CountPositive(first);
  }

  lemma {:induction false} CountIsLength(node: Node)
    ensures CountLeaves(node) == |PaneIds(node)|
  {
    match node
    case Leaf(_) =>
    case Split(_, _, first, second) => CountIsLength(first); CountIsLength(second);
  }

  lemma {:induction false} ContainsIsMembership(node: Node, target: nat)
    ensures Contains(node, target) <==> target in PaneIds(node)
  {
    match node
    case Leaf(_) =>
    case Split(_, _, first, second) => ContainsIsMembership(first, target); ContainsIsMembership(second, target);
  }

  // ----- what each operation does to the sequence of ids -----

  /** `ids` with `newId` put directly after every occurrence of `target`. */
  function InsertAfter(ids: seq<nat>, target: nat, newId: nat): seq<nat> {
    if ids == [] then []
    else (if ids[0] == target then [target, newId] else [ids[0]]) + InsertAfter(ids[1..], target, newId)
  }

  /** `ids` without the first occurrence of `target`. */
  function WithoutFirst(ids: seq<nat>, target: nat): seq<nat> {
    if ids == [] then []
    else if ids[0] == target then ids[1..]
    else [ids[0]] + WithoutFirst(ids[1..], target)
  }

  function SwapId(id: nat, a: nat, b: nat): nat {
    if id == a then b else if id == b then a else id
  }

  function Swapped(ids: seq<nat>, a: nat, b: nat): seq<nat> {
    seq(|ids|, i requires 0 <= i < |ids| => SwapId(ids[i], a, b))
  }

  lemma {:induction false} InsertAfterAppend(s: seq<nat>, t: seq<nat>, target: nat, newId: nat)
    ensures InsertAfter(s + t, target, newId) == InsertAfter(s, target, newId) + InsertAfter(t, target, newId)
  {
    if s == [] {
      assert s + t == t;
    } else {
      assert (s + t)[1..] == s[1..] + t;
      InsertAfterAppend(s[1..], t, target, newId);
    }
  }

  lemma {:induction false} InsertAfterAbsent(ids: seq<nat>, target: nat, newId: nat)
    requires target !in ids
    ensures InsertAfter(ids, target, newId) == ids
  {
    if ids != [] {
      InsertAfterAbsent(ids[1..], target, newId);
    }
  }

  lemma {:induction false} WithoutFirstAppend(s: seq<nat>, t: seq<nat>, target: nat)
    ensures WithoutFirst(s + t, target) == if target in s then WithoutFirst(s, target) + t else s + WithoutFirst(t, target)
  {
    if s == [] {
      assert s + t == t;
    } else {
      assert (s + t)[1..] == s[1..] + t;
      if s[0] != target {
        WithoutFirstAppend(s[1..], t, target);
        assert s == [s[0]] + s[1..];
      }
    }
  }

  lemma {:induction false} SplitInserts(node: Node, target: nat, newId: nat, dir: Direction)
    ensures PaneIds(SplitNode(node, target, newId, dir)) == InsertAfter(PaneIds(node), target, newId)
  {
    match node
    case Leaf(id) =>
    case Split(_, _, first, second) =>
      SplitInserts(first, target, newId, dir);
      SplitInserts(second, target, newId, dir);
      InsertAfterAppend(PaneIds(first), PaneIds(second), target, newId);
  }

  lemma InsertSplices(before: seq<nat>, after: seq<nat>, target: nat, newId: nat)
    requires target !in before && target !in after
    ensures InsertAfter(before + ([target] + after), target, newId) == before + ([target, newId] + after)
  {
    InsertAfterAppend(before, [target] + after, target, newId);
    InsertAfterAppend([target], after, target, newId);
    InsertAfterAbsent(before, target, newId);
    InsertAfterAbsent(after, target, newId);
  }

  lemma Spliced(ids: seq<nat>, i: nat, newId: nat)
    requires i < |ids|
    ensures ids[..i] + ([ids[i]] + ids[i + 1..]) == ids
    ensures ids[..i] + ([ids[i], newId] + ids[i + 1..]) == ids[..i + 1] + [newId] + ids[i + 1..]
  {
  }

  /** In a tree without repeated ids the new pane lands directly after its target and nothing else moves. */
  lemma SplitPosition(node: Node, target: nat, newId: nat, dir: Direction, i: nat)
    requires Distinct(PaneIds(node)) && i < |PaneIds(node)| && PaneIds(node)[i] == target
    ensures PaneIds(EqualizeNode(SplitNode(node, target, newId, dir)))
         == PaneIds(node)[..i + 1] + [newId] + PaneIds(node)[i + 1..]
  {
    var ids := PaneIds(node);
    EqualizeKeepsIds(SplitNode(node, target, newId, dir));
    SplitInserts(node, target, newId, dir);
    InsertSplices(ids[..i], ids[i + 1..], target, newId);
    Spliced(ids, i, newId);
  }

  /** Removal deletes exactly one occurrence and keeps the order of the rest; only a lone target leaves nothing. */
  lemma {:induction false} RemoveDropsOne(node: Node, target: nat)
    ensures RemoveNode(node, target).None? <==> node == Leaf(target)
    ensures RemoveNode(node, target).Some? ==>
              PaneIds(RemoveNode(node, target).value) == WithoutFirst(PaneIds(node), target)
  {
    match node
    case Leaf(id) =>
    case Split(_, _, first, second) =>
      ContainsIsMembership(first, target);
      ContainsIsMembership(second, target);
      RemoveDropsOne(first, target);
      RemoveDropsOne(second, target);
      WithoutFirstAppend(PaneIds(first), PaneIds(second), target);
      if !Contains(first, target) && !Contains(second, target) {
        WithoutFirstAbsent(PaneIds(second), target);
      }
  }

  lemma {:induction false} WithoutFirstAbsent(ids: seq<nat>, target: nat)
    requires target !in ids
    ensures WithoutFirst(ids, target) == ids
  {
    if ids != [] {
      WithoutFirstAbsent(ids[1..], target);
    }
  }

  /** The position view of `WithoutFirst`, and its effect on the multiset of ids. */
  lemma {:induction false} WithoutFirstAt(ids: seq<nat>, target: nat, i: nat)
    requires i < |ids| && ids[i] == target && target !in ids[..i]
    ensures WithoutFirst(ids, target) == ids[..i] + ids[i + 1..]
    ensures multiset(WithoutFirst(ids, target)) + multiset{target} == multiset(ids)
  {
    assert ids == ids[..i] + ([target] + ids[i + 1..]);
    WithoutFirstAppend(ids[..i], [target] + ids[i + 1..], target);
    assert multiset(ids) == multiset(ids[..i]) + (multiset([target]) + multiset(ids[i + 1..]));
  }

  lemma {:induction false} SwapIds(node: Node, a: nat, b: nat)
    ensures PaneIds(SwapLeafIds(node, a, b)) == Swapped(PaneIds(node), a, b)
  {
    match node
    case Leaf(_) =>
    case Split(_, _, first, second) => SwapIds(first, a, b); SwapIds(second, a, b);
  }

  lemma {:induction false} SwapTwice(node: Node, a: nat, b: nat)
    ensures SwapLeafIds(SwapLeafIds(node, a, b), a, b) == node
  {
    match node
    case Leaf(_) =>
    case Split(_, _, first, second) => SwapTwice(first, a, b); SwapTwice(second, a, b);
  }

  lemma {:induction false} EqualizeKeepsIds(node: Node)
    ensures PaneIds(EqualizeNode(node)) == PaneIds(node)
    ensures CountLeaves(EqualizeNode(node)) == CountLeaves(node)
  {
    match node
    case Leaf(_) =>
    case Split(_, _, first, second) => EqualizeKeepsIds(first); EqualizeKeepsIds(second);
  }

  // ----- tree algebra -----

  /** The same tree up to the stored ratios. */
  ghost predicate SameUpToRatios(a: Node, b: Node) {
    match (a, b)
    case (Leaf(i), Leaf(j)) => i == j
    case (Split(d, _, f, s), Split(e, _, g, t)) => d == e && SameUpToRatios(f, g) && SameUpToRatios(s, t)
    case _ => false
  }

  lemma {:induction false} EqualizeOnlySetsRatios(node: Node)
    ensures SameUpToRatios(EqualizeNode(node), node)
  {
    match node
    case Leaf(_) =>
    case Split(_, _, first, second) => EqualizeOnlySetsRatios(first); EqualizeOnlySetsRatios(second);
  }

  lemma {:induction false} SameTreesAgree(a: Node, b: Node)
    requires SameUpToRatios(a, b)
    ensures PaneIds(a) == PaneIds(b) && CountLeaves(a) == CountLeaves(b)
    ensures EqualizeNode(a) == EqualizeNode(b)
  {
    match a
    case Leaf(_) =>
    case Split(_, _, first, second) => SameTreesAgree(first, b.first); SameTreesAgree(second, b.second);
  }

  lemma {:induction false} RemoveRespectsRatios(a: Node, b: Node, target: nat)
    requires SameUpToRatios(a, b)
    ensures RemoveNode(a, target).Some? <==> RemoveNode(b, target).Some?
    ensures RemoveNode(a, target).Some? ==>
              SameUpToRatios(RemoveNode(a, target).value, RemoveNode(b, target).value)
  {
    match a
    case Leaf(_) =>
    case Split(_, _, first, second) =>
      SameTreesAgree(first, b.first);
      SameTreesAgree(second, b.second);
      ContainsIsMembership(first, target);
      ContainsIsMembership(b.first, target);
      ContainsIsMembership(second, target);
      ContainsIsMembership(b.second, target);
      RemoveRespectsRatios(first, b.first, target);
      RemoveRespectsRatios(second, b.second, target);
  }

  /** Equalizing is a projection: it forgets the ratios and applying it again changes nothing. */
  lemma EqualizeIdempotent(node: Node)
    ensures EqualizeNode(EqualizeNode(node)) == EqualizeNode(node)
  {
    EqualizeOnlySetsRatios(node);
    SameTreesAgree(EqualizeNode(node), node);
  }

  /** A fresh split leaf can be removed again, giving back the very same tree. */
  lemma {:induction false} RemoveUndoesSplitNode(node: Node, target: nat, newId: nat, dir: Direction)
    requires Distinct(PaneIds(node)) && newId !in PaneIds(node)
    ensures RemoveNode(SplitNode(node, target, newId, dir), newId) == Some(node)
  {
    match node
    case Leaf(_) =>
    case Split(_, _, first, second) =>
      var ids := PaneIds(node);
      assert ids[..|PaneIds(first)|] == PaneIds(first) && ids[|PaneIds(first)|..] == PaneIds(second);
      assert Distinct(PaneIds(first)) && Distinct(PaneIds(second));
      RemoveUndoesSplitNode(first, target, newId, dir);
      RemoveUndoesSplitNode(second, target, newId, dir);
      SplitAddsNewId(first, target, newId, dir);
      SplitAddsNewId(second, target, newId, dir);
      SplitMisses(first, target, newId, dir);
      SplitMisses(second, target, newId, dir);
  }

  lemma {:induction false} SplitAddsNewId(node: Node, target: nat, newId: nat, dir: Direction)
    requires newId !in PaneIds(node)
    ensures Contains(SplitNode(node, target, newId, dir), newId) <==> target in PaneIds(node)
  {
    match node
    case Leaf(_) =>
    case Split(_, _, first, second) =>
      SplitAddsNewId(first, target, newId, dir);
      SplitAddsNewId(second, target, newId, dir);
  }

  lemma {:induction false} SplitMisses(node: Node, target: nat, newId: nat, dir: Direction)
    ensures target !in PaneIds(node) ==> SplitNode(node, target, newId, dir) == node
  {
    match node
    case Leaf(_) =>
    case Split(_, _, first, second) =>
      SplitMisses(first, target, newId, dir);
      SplitMisses(second, target, newId, dir);
  }

  /** Split, equalize, remove the new pane, equalize: the same as only equalizing. */
  lemma {:induction false} SplitThenRemove(node: Node, target: nat, newId: nat, dir: Direction)
    requires Distinct(PaneIds(node)) && newId !in PaneIds(node)
    ensures var after := RemoveNode(EqualizeNode(SplitNode(node, target, newId, dir)), newId);
            after.Some? && EqualizeNode(after.value) == EqualizeNode(node)
  {
    var split := SplitNode(node, target, newId, dir);
    RemoveUndoesSplitNode(node, target, newId, dir);
    EqualizeOnlySetsRatios(split);
    RemoveRespectsRatios(EqualizeNode(split), split, newId);
    SameTreesAgree(RemoveNode(EqualizeNode(split), newId).value, node);
  }

  /** Moving a pane between two tabs conserves the combined multiset of ids. */
  lemma {:induction false} DetachAttachConserves(donor: Node, receiver: Node, moved: nat, anchor: nat, dir: Direction)
    requires CountLeaves(donor) > 1 && moved in PaneIds(donor)
    requires Distinct(PaneIds(receiver)) && anchor in PaneIds(receiver) && moved !in PaneIds(receiver)
    ensures RemoveNode(donor, moved).Some?
    ensures multiset(PaneIds(RemoveNode(donor, moved).value))
          + multiset(PaneIds(EqualizeNode(SplitNode(receiver, anchor, moved, dir))))
         == multiset(PaneIds(donor)) + multiset(PaneIds(receiver))
  {
    RemoveDropsOne(donor, moved);
    WithoutFirstAt(PaneIds(donor), moved, FirstIndex(PaneIds(donor), moved));
    SplitAddsOne(receiver, anchor, moved, dir);
  }

  lemma SplitAddsOne(node: Node, target: nat, newId: nat, dir: Direction)
    requires Distinct(PaneIds(node)) && target in PaneIds(node)
    ensures multiset(PaneIds(EqualizeNode(SplitNode(node, target, newId, dir)))) == multiset(PaneIds(node)) + multiset{newId}
  {
    var ids := PaneIds(node);
    var j := FirstIndex(ids, target);
    SplitPosition(node, target, newId, dir, j);
    CountSpliced(ids[..j + 1], ids[j + 1..], newId);
    assert ids == ids[..j + 1] + ids[j + 1..];
  }

  lemma CountSpliced(before: seq<nat>, after: seq<nat>, newId: nat)
    ensures multiset(before + [newId] + after) == multiset(before + after) + multiset{newId}
  {
  }

  ghost function FirstIndex(ids: seq<nat>, x: nat): (i: nat)
    requires x in ids
    ensures i < |ids| && ids[i] == x && x !in ids[..i]
  {
    if ids[0] == x then 0 else
      var k := FirstIndex(ids[1..], x);
      assert ids[..k + 1] == [ids[0]] + ids[1..][..k];
      k + 1
  }

  // ----- what the ratios mean -----

  /** The ratio as `split_area` reads it. */
  function Effective(ratio: Ratio): real {
    if ratio.Finite? then ratio.value else 0.5
  }

  /** The fraction of the whole that the i-th leaf is meant to get. */
  function Share(node: Node, i: nat): real
    requires i < CountLeaves(node)
  {
    match node
    case Leaf(_) => 1.0
    case Split(_, ratio, first, second) =>
      if i < CountLeaves(first) then Effective(ratio) * Share(first, i)
      else (1.0 - Effective(ratio)) * Share(second, i - CountLeaves(first))
  }

  /** Equalizing means every leaf the same share: one n-th of the whole. */
  lemma {:induction false} EqualizeSharesEqually(node: Node, i: nat)
    requires i < CountLeaves(node)
    ensures CountLeaves(EqualizeNode(node)) == CountLeaves(node)
    ensures IsPart(EqualizeNode(node), i, CountLeaves(node) as real, 1.0)
  {
    EqualizeKeepsIds(node);
    match node
    case Leaf(_) =>
    case Split(_, _, first, second) =>
      CountPositive(first);
      EqualizeKeepsIds(first);
      if i < CountLeaves(first) {
        EqualizeSharesEqually(first, i);
      } else {
        EqualizeSharesEqually(second, i - CountLeaves(first));
      }
      PartOfSplit(EqualizeNode(node), i, CountLeaves(first) as real, CountLeaves(node) as real, 1.0);
  }

  /** Of a whole divided in `n`, the i-th leaf is meant to get `w`. */
  ghost predicate IsPart(node: Node, i: nat, n: real, w: real)
    requires i < CountLeaves(node)
  {
    Share(node, i) * n == w
  }

  /** Parts of a split whose first child stands for `a` out of `n`. */
  lemma PartOfSplit(node: Node, i: nat, a: real, n: real, w: real)
    requires node.Split? && i < CountLeaves(node) && n > 0.0 && Effective(node.ratio) == a / n
    requires if i < CountLeaves(node.first) then IsPart(node.first, i, a, w)
             else IsPart(node.second, i - CountLeaves(node.first), n - a, w)
    ensures IsPart(node, i, n, w)
  {
    var r := Effective(node.ratio);
    if i < CountLeaves(node.first) {
      ScaleFirst(r, Share(node.first, i), a, n, w);
    } else {
      ScaleSecond(r, Share(node.second, i - CountLeaves(node.first)), a, n, w);
    }
  }

  lemma ScaleFirst(r: real, s: real, a: real, n: real, w: real)
    requires n > 0.0 && r == a / n && s * a == w
    ensures (r * s) * n == w
  {
    assert r * n == a;
    assert (r * s) * n == s * (r * n);
  }

  lemma ScaleSecond(r: real, s: real, a: real, n: real, w: real)
    requires n > 0.0 && r == a / n && s * (n - a) == w
    ensures ((1.0 - r) * s) * n == w
  {
    assert r * n == a;
    assert ((1.0 - r) * s) * n == s * (n - r * n);
  }
}
